/** Division and remainder. */
module Numbers {

  lemma QuotientIs(x: int, d: nat, q: int, r: nat)
    requires r < d && x == q * d + r
    ensures x / d == q && x % d == r
  {
    var p := x / d;
    assert p * d + x % d == x;
    assert q + 1 <= p ==> (q + 1) * d <= p * d;
    assert p + 1 <= q ==> (p + 1) * d <= q * d;
  }

  /** The remainder modulo d * k is the next digit and the remainder modulo d. */
  lemma Tail(x: nat, d: nat, k: nat)
    requires d > 0 && k > 0
    ensures d * k > 0 && x % (d * k) == (x / d % k) * d + x % d && x / (d * k) == x / d / k
  {
    Floor(x, d);
    Floor(x / d, k);
    TailOf(x, d, k, x / d, x % d, x / d / k, x / d % k);
  }

  lemma TailOf(x: nat, d: nat, k: nat, q: nat, r: nat, u: nat, v: nat)
    requires x == q * d + r && r < d && q == u * k + v && v < k
    ensures d * k > 0 && x % (d * k) == v * d + r && x / (d * k) == u
  {
    Regroup(u, v, k, d, r);
    QuotientIs(x, d * k, u, v * d + r);
  }

  lemma Regroup(u: nat, v: nat, k: nat, d: nat, r: nat)
    requires v < k && r < d
    ensures (u * k + v) * d + r == u * (d * k) + (v * d + r) && v * d + r < d * k
  {
    MulMonotone(v + 1, k, d);
  }

  lemma AddMod(x: int, y: int, m: nat)
    requires m > 0
    ensures (x % m + y) % m == (x + y) % m
  {
    var z := x % m + y;
    assert x + y == (x / m + z / m) * m + z % m by {
      assert x == x / m * m + x % m;
      assert z == z / m * m + z % m;
    }
    QuotientIs(x + y, m, x / m + z / m, z % m);
  }

  lemma AddMods(x: int, y: int, m: nat)
    requires m > 0
    ensures (x % m + y % m) % m == (x + y) % m
  {
    AddMod(x, y % m, m);
    AddMod(y, x, m);
  }

  lemma AddSame(x: int, a: int, b: int, m: nat)
    requires m > 0 && a % m == b % m
    ensures (x + a) % m == (x + b) % m
  {
    AddMod(a, x, m);
    AddMod(b, x, m);
  }

  /** Adding a and adding b to x agree modulo m exactly when a and b do. */
  lemma CancelMod(x: int, a: int, b: int, m: nat)
    requires m > 0
    ensures (x + a) % m == (x + b) % m <==> a % m == b % m
  {
    if (x + a) % m == (x + b) % m {
      AddSame(-x, x + a, x + b, m);
      assert -x + (x + a) == a && -x + (x + b) == b;
    }
    if a % m == b % m {
      AddSame(x, a, b, m);
    }
  }

  /** Reducing modulo a multiple of m first changes nothing modulo m. */
  lemma ModOfMod(x: nat, m: nat, k: nat)
    requires m > 0 && k > 0
    ensures m * k > 0 && x % (m * k) % m == x % m
  {
    Tail(x, m, k);
    QuotientIs(x % (m * k), m, x / m % k, x % m);
  }

  lemma MulMonotone(p: int, q: int, a: nat)
    requires p <= q
    ensures p * a <= q * a
  {
  }

  lemma Floor(x: int, a: nat)
    requires a > 0
    ensures x / a * a == x - x % a
  {
  }

  /** Rounding down to a multiple of a is monotone. */
  lemma FloorMonotone(x: int, y: int, a: nat)
    requires a > 0 && x <= y
    ensures x - x % a <= y - y % a
  {
    Floor(x, a);
    Floor(y, a);
    var p, q := x / a, y / a;
    if q < p {
      MulMonotone(q + 1, p, a);
    } else {
      MulMonotone(p, q, a);
    }
  }

  lemma SmallMod(x: nat, n: nat)
    requires x < n
    ensures x % n == x
  {
  }

  /** x % n as a function, so that equations between remainders need no arithmetic. */
  function Rem(x: int, n: nat): int
    requires n > 0
  {
    x % n
  }

  lemma RemAdd(x: int, y: int, n: nat)
    requires n > 0
    ensures Rem(Rem(x, n) + y, n) == Rem(x + y, n)
  {
    AddMod(x, y, n);
  }

  lemma RemCancel(x: int, a: int, b: int, n: nat)
    requires n > 0
    ensures Rem(x + a, n) == Rem(x + b, n) <==> Rem(a, n) == Rem(b, n)
  {
    CancelMod(x, a, b, n);
  }

  /** Adding a and then b to v agrees with adding c exactly when a + b agrees with c. */
  lemma RemSumsAgree(v: int, a: int, b: int, c: int, n: nat)
    requires n > 0
    ensures Rem(Rem(v + a, n) + b, n) == Rem(v + c, n) <==> Rem(a + b, n) == Rem(c, n)
  {
    hide *;
    RemAdd(v + a, b, n);
    RemCancel(v, a + b, c, n);
  }
}
