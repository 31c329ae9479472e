/** Little-endian fields of a byte image. */
module Bytes {
  import opened Numbers

  type byte = x: int | 0 <= x < 256

  /** 256 to the power w. */
  function Modulus(w: nat): (n: nat)
    ensures n > 0
  {
    if w == 0 then 1 else 256 * Modulus(w - 1)
  }

  lemma Moduli()
    ensures Modulus(2) == 0x1_0000 && Modulus(4) == 0x1_0000_0000 && Modulus(8) == 0x1_0000_0000_0000_0000
  {
    assert Modulus(4) == 65536 * Modulus(2);
    assert Modulus(6) == 65536 * Modulus(4);
  }

  /** The number that the bytes s encode. */
  function Value(s: seq<byte>): nat {
    if s == [] then 0 else s[0] + 256 * Value(s[1..])
  }

  /** The low w bytes of v. */
  function Le(v: nat, w: nat): (s: seq<byte>)
    ensures |s| == w
  {
    if w == 0 then [] else [v % 256] + Le(v / 256, w - 1)
  }

  lemma {:induction false} ValueBound(s: seq<byte>)
    ensures Value(s) < Modulus(|s|)
  {
    if s == [] {
    } else {
      ValueBound(s[1..]);
    }
  }

  /** Writing v into w bytes keeps v modulo 256^w. */
  lemma {:induction false} ValueOfLe(v: nat, w: nat)
    ensures Value(Le(v, w)) == v % Modulus(w)
  {
    if w == 0 {
    } else {
      ValueOfLe(v / 256, w - 1);
      assert Le(v, w)[1..] == Le(v / 256, w - 1);
      Tail(v, 256, Modulus(w - 1));
    }
  }

  /** The bytes are determined by the number. */
  lemma {:induction false} LeOfValue(s: seq<byte>)
    ensures Le(Value(s), |s|) == s
  {
    if s == [] {
    } else {
      LeOfValue(s[1..]);
      QuotientIs(Value(s), 256, Value(s[1..]), s[0]);
      assert s == [s[0]] + s[1..];
    }
  }

  /** The w-byte field at offset p. */
  function Get(m: seq<byte>, p: nat, w: nat): nat
    requires p + w <= |m|
  {
    Value(m[p..p + w])
  }

  function U16(m: seq<byte>, p: nat): nat
    requires p + 2 <= |m|
  {
    Get(m, p, 2)
  }

  function U32(m: seq<byte>, p: nat): nat
    requires p + 4 <= |m|
  {
    Get(m, p, 4)
  }

  function U64(m: seq<byte>, p: nat): nat
    requires p + 8 <= |m|
  {
    Get(m, p, 8)
  }

  /** Fields lie in memory with their low byte first. */
  lemma LittleEndian(m: seq<byte>, p: nat)
    ensures p + 2 <= |m| ==> U16(m, p) == m[p] as nat + m[p + 1] as nat * 0x100
    ensures p + 4 <= |m| ==>
      U32(m, p) == U16(m, p) + U16(m, p + 2) * 0x1_0000
    ensures p + 8 <= |m| ==> U64(m, p) == U32(m, p) + U32(m, p + 4) * 0x1_0000_0000
  {
    hide Value;
    if p + 2 <= |m| {
      TwoBytes(m[p..p + 2]);
    }
    if p + 4 <= |m| {
      FourBytes(m[p..p + 4]);
      assert m[p..p + 4][..2] == m[p..p + 2] && m[p..p + 4][2..] == m[p + 2..p + 4];
    }
    if p + 8 <= |m| {
      EightBytes(m[p..p + 8]);
      assert m[p..p + 8][..4] == m[p..p + 4] && m[p..p + 8][4..] == m[p + 4..p + 8];
    }
  }

  lemma TwoBytes(s: seq<byte>)
    requires |s| == 2
    ensures Value(s) == s[0] as nat + s[1] as nat * 0x100
  {
    assert s[1..][0] == s[1] && s[1..][1..] == [];
    assert Value(s[1..]) == s[1];
  }

  lemma FourBytes(s: seq<byte>)
    requires |s| == 4
    ensures Value(s) == Value(s[..2]) + Value(s[2..]) * 0x1_0000
  {
    hide Value;
    TwoBytes(s[..2]);
    FirstByte(s);
    FirstByte(s[1..]);
    assert s[1..][1..] == s[2..];
  }

  lemma EightBytes(s: seq<byte>)
    requires |s| == 8
    ensures Value(s) == Value(s[..4]) + Value(s[4..]) * 0x1_0000_0000
  {
    hide Value;
    FourBytes(s[..4]);
    TwoBytes(s[..4][..2]);
    TwoBytes(s[..4][2..]);
    FirstByte(s);
    FirstByte(s[1..]);
    FirstByte(s[2..]);
    FirstByte(s[3..]);
    assert s[1..][1..] == s[2..] && s[2..][1..] == s[3..] && s[3..][1..] == s[4..];
  }

  lemma FirstByte(s: seq<byte>)
    requires s != []
    ensures Value(s) == s[0] + 256 * Value(s[1..])
  {
  }

  /** m with the bytes s written at offset p. */
  function Splice(m: seq<byte>, p: nat, s: seq<byte>): (r: seq<byte>)
    requires p + |s| <= |m|
    ensures |r| == |m|
  {
    m[..p] + s + m[p + |s|..]
  }

  lemma SpliceAt(m: seq<byte>, p: nat, s: seq<byte>)
    requires p + |s| <= |m|
    ensures Splice(m, p, s)[p..p + |s|] == s
    ensures forall i | 0 <= i < |m| && !(p <= i < p + |s|) :: Splice(m, p, s)[i] == m[i]
  {
  }

  /** m with the low w bytes of v in the field at offset p. */
  function Set(m: seq<byte>, p: nat, w: nat, v: nat): (r: seq<byte>)
    requires p + w <= |m|
    ensures |r| == |m|
  {
    Splice(m, p, Le(v, w))
  }

  lemma GetOfSet(m: seq<byte>, p: nat, w: nat, v: nat)
    requires p + w <= |m|
    ensures Get(Set(m, p, w, v), p, w) == v % Modulus(w)
  {
    SpliceAt(m, p, Le(v, w));
    ValueOfLe(v, w);
  }

  lemma GetElsewhere(m: seq<byte>, p: nat, w: nat, v: nat, q: nat, n: nat)
    requires p + w <= |m| && q + n <= |m| && (q + n <= p || p + w <= q)
    ensures Get(Set(m, p, w, v), q, n) == Get(m, q, n)
  {
    SpliceAt(m, p, Le(v, w));
    assert Set(m, p, w, v)[q..q + n] == m[q..q + n];
  }

  /** Fields that agree have the same bytes. */
  lemma SameField(a: seq<byte>, b: seq<byte>)
    requires |a| == |b| && Value(a) == Value(b)
    ensures a == b
  {
    LeOfValue(a);
    LeOfValue(b);
  }

  /** A field inside a window of m. */
  lemma GetInWindow(m: seq<byte>, p: nat, n: nat, q: nat, w: nat)
    requires p + n <= |m| && q + w <= n
    ensures Get(m, p + q, w) == Get(m[p..p + n], q, w)
  {
    var a, b := m[p + q..p + q + w], m[p..p + n][q..q + w];
    forall i | 0 <= i < w ensures a[i] == b[i] {
    }
    assert a == b;
  }

  /** A write inside a window of m is a write to that window. */
  lemma SetInWindow(m: seq<byte>, p: nat, n: nat, q: nat, w: nat, v: nat)
    requires p + n <= |m| && q + w <= n
    ensures Set(m, p + q, w, v) == Splice(m, p, Set(m[p..p + n], q, w, v))
  {
  }

  /** The two memories have the same bytes in lo..hi. */
  predicate Same(m: seq<byte>, m': seq<byte>, lo: nat, hi: nat) {
    lo <= hi <= |m| && hi <= |m'| && m'[lo..hi] == m[lo..hi]
  }

  lemma SameFields(m: seq<byte>, m': seq<byte>, lo: nat, hi: nat, p: nat, w: nat)
    requires Same(m, m', lo, hi) && lo <= p && p + w <= hi
    ensures Get(m', p, w) == Get(m, p, w)
  {
    assert forall i | p <= i < p + w :: m'[i] == m'[lo..hi][i - lo] && m[i] == m[lo..hi][i - lo];
    assert m'[p..p + w] == m[p..p + w];
  }

  lemma SamePart(m: seq<byte>, m': seq<byte>, lo: nat, hi: nat, a: nat, b: nat)
    requires Same(m, m', lo, hi) && lo <= a <= b <= hi
    ensures Same(m, m', a, b)
  {
    assert forall i | a <= i < b :: m'[i] == m'[lo..hi][i - lo] && m[i] == m[lo..hi][i - lo];
  }

  /** m' differs from m at most in lo..hi. */
  ghost predicate Agree(m: seq<byte>, m': seq<byte>, lo: nat, hi: nat) {
    && |m'| == |m|
    && forall p | 0 <= p < |m| && !(lo <= p < hi) :: m'[p] == m[p]
  }

  lemma AgreeOutside(m: seq<byte>, m': seq<byte>, lo: nat, hi: nat, a: nat, b: nat)
    requires Agree(m, m', lo, hi) && a <= b <= |m| && (b <= lo || hi <= a)
    ensures Same(m, m', a, b)
  {
  }

  method Put(image: array<byte>, p: nat, w: nat, v: nat)
    requires p + w <= image.Length
    modifies image
    ensures image[..] == Set(old(image[..]), p, w, v)
  {
    var s := Le(v, w);
    forall i | 0 <= i < w {
      image[p + i] := s[i];
    }
    SpliceAt(old(image[..]), p, s);
    forall i | 0 <= i < image.Length ensures image[i] == Splice(old(image[..]), p, s)[i] {
      if p <= i < p + w {
        assert Splice(old(image[..]), p, s)[p..p + |s|][i - p] == s[i - p];
      }
    }
  }
}
