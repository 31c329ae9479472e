/** The Internet checksum of tool.go against section 1 of RFC 1071. */
module Checksum {
  import opened Numbers
  import opened Bytes
  import opened Words

  // ----- What the code computes

  /** Sum of the big-endian words in the first n bytes. */
  function WordSum(data: seq<byte>, n: nat): nat
    requires n <= |data|
  {
    if n < 2 then 0 else WordSum(data, n - 2) + WordAt(data, n - 2)
  }

  function WordAt(data: seq<byte>, i: nat): (w: nat)
    requires i + 1 < |data|
    ensures w <= 0xffff
  {
    var high: nat, low: nat := data[i], data[i + 1];
    high * 0x100 + low
  }

  /** Number of bytes that make up whole words. */
  function EvenPart(data: seq<byte>): (n: nat)
    ensures n % 2 == 0 && n <= |data| <= n + 1
  {
    |data| - |data| % 2
  }

  /** Sum of all words; a single last byte counts factor times. */
  function Total(data: seq<byte>, factor: nat): nat {
    WordSum(data, EvenPart(data)) + LastByte(data) * factor
  }

  /** The byte that is left over, if any. */
  function LastByte(data: seq<byte>): (b: nat)
    ensures b <= 0xff
  {
    if |data| % 2 == 0 then 0 else data[|data| - 1]
  }

  /** Adds the carries above 16 bits back in until there are none. */
  function Fold(sum: nat): (r: nat)
    ensures r <= 0xffff
  {
    if sum / 0x1_0000 > 0 then Fold(sum % 0x1_0000 + sum / 0x1_0000) else sum
  }

  /** Complement of the folded 32-bit sum. */
  function Computed(total: nat): (c: nat)
    ensures c <= 0xffff
  {
    0xffff - Fold(total % W32)
  }

  method CalculateChecksum(data: seq<byte>) returns (checksum: nat)
    ensures checksum == Computed(Total(data, 0x100))
  {
    hide WordAt, WordSum, Fold, LastByte;
    NoLastByte(data);
    var length := |data|;
    var sum: nat := AddWords(data);
    if length % 2 != 0 {
      sum := (sum + LastByte(data) * 0x100) % W32;
    }
    AddMod(WordSum(data, EvenPart(data)), LastByte(data) * 0x100, W32);
    sum := FoldCarries(sum);
    checksum := 0xffff - sum;
  }

  method CalculateTcpChecksum(data: seq<byte>) returns (checksum: nat)
    ensures checksum == Computed(Total(data, 1))
  {
    hide WordAt, WordSum, Fold, LastByte;
    NoLastByte(data);
    var sum: nat := AddWords(data);
    if |data| % 2 != 0 {
      sum := (sum + LastByte(data)) % W32;
    }
    AddMod(WordSum(data, EvenPart(data)), LastByte(data), W32);
    sum := FoldCarries(sum);
    checksum := 0xffff - sum;
  }

  lemma NoLastByte(data: seq<byte>)
    ensures |data| % 2 == 0 ==> LastByte(data) == 0
    ensures WordSum(data, EvenPart(data)) % W32 % W32 == WordSum(data, EvenPart(data)) % W32
  {
  }

  lemma Even(data: seq<byte>)
    ensures EvenPart(data) % 2 == 0 && EvenPart(data) <= |data| <= EvenPart(data) + 1
  {
  }

  /** The loop over whole words, on a 32-bit accumulator. */
  method AddWords(data: seq<byte>) returns (sum: nat)
    ensures sum == WordSum(data, EvenPart(data)) % W32
  {
    hide WordAt, EvenPart;
    Even(data);
    sum := 0;
    var i := 0;
    while i < |data| - 1
      invariant i % 2 == 0 && 0 <= i <= EvenPart(data)
      invariant sum == WordSum(data, i) % W32
    {
      AddMod(WordSum(data, i), WordAt(data, i), W32);
      sum := (sum + WordAt(data, i)) % W32;
      i := i + 2;
    }
  }

  /** The folding loop. */
  method FoldCarries(sum0: nat) returns (sum: nat)
    ensures sum == Fold(sum0)
  {
    sum := sum0;
    while sum / 0x1_0000 > 0
      invariant Fold(sum) == Fold(sum0)
      decreases sum
    {
      sum := sum % 0x1_0000 + sum / 0x1_0000;
    }
  }

  // ----- The definition in RFC 1071

  /** One's complement addition of 16-bit words: the carry is added back in at once. */
  function OnesAdd(a: nat, b: nat): nat {
    if a + b > 0xffff then a + b - 0xffff else a + b
  }

  function OnesSum(data: seq<byte>, n: nat): nat
    requires n <= |data|
  {
    if n < 2 then 0 else OnesAdd(OnesSum(data, n - 2), WordAt(data, n - 2))
  }

  /** Complement of the one's complement sum of the data, padded with a zero byte to whole words. */
  function InternetChecksum(data: seq<byte>): int {
    var padded := if |data| % 2 == 0 then data else data + [0];
    0xffff - OnesSum(padded, |padded|)
  }

  // ----- Folding

  /** The number from 1 to 65535 that is congruent to sum modulo 65535, or 0 for 0. */
  function Reduced(sum: nat): (r: nat)
    ensures r <= 0xffff
    ensures r == 0 <==> sum == 0
    ensures r % 0xffff == sum % 0xffff
  {
    if sum == 0 then 0 else 1 + (sum - 1) % 0xffff
  }

  lemma ReducedIs(sum: nat, q: nat, r: nat)
    requires sum == q * 0xffff + r && 1 <= r <= 0xffff
    ensures Reduced(sum) == r
  {
    QuotientIs(sum - 1, 0xffff, q, r - 1);
  }

  lemma ReducedHas(sum: nat) returns (q: nat)
    requires sum > 0
    ensures sum == q * 0xffff + Reduced(sum)
  {
    q := (sum - 1) / 0xffff;
  }

  /** Folding preserves the sum modulo 65535 and tells only zero apart from its multiples. */
  lemma {:induction false} FoldReduces(sum: nat)
    ensures Fold(sum) == Reduced(sum)
    decreases sum
  {
    hide Reduced;
    if sum / 0x1_0000 > 0 {
      var carry := sum / 0x1_0000;
      var next := sum % 0x1_0000 + carry;
      assert next == sum - carry * 0xffff && 0 < next < sum;
      FoldReduces(next);
      var q := ReducedHas(next);
      ReducedIs(sum, q + carry, Reduced(next));
    } else if sum > 0 {
      ReducedIs(sum, 0, sum);
    }
  }

  lemma ReducedAdd(a: nat, w: nat)
    requires w <= 0xffff
    ensures Reduced(a + w) == OnesAdd(Reduced(a), w)
  {
    hide Reduced;
    if a == 0 {
      if w > 0 {
        ReducedIs(w, 0, w);
      }
    } else {
      var q := ReducedHas(a);
      if Reduced(a) + w > 0xffff {
        ReducedIs(a + w, q + 1, Reduced(a) + w - 0xffff);
      } else {
        ReducedIs(a + w, q, Reduced(a) + w);
      }
    }
  }

  /** Adding end-around carries one by one is reducing the plain sum. */
  lemma {:induction false} OnesSumReduces(data: seq<byte>, n: nat)
    requires n <= |data|
    ensures OnesSum(data, n) == Reduced(WordSum(data, n))
  {
    hide Reduced, OnesAdd, WordAt;
    if n < 2 {
      assert Reduced(0) == 0;
    } else {
      OnesSumReduces(data, n - 2);
      ReducedAdd(WordSum(data, n - 2), WordAt(data, n - 2));
    }
  }

  lemma {:induction false} PrefixSum(data: seq<byte>, more: seq<byte>, n: nat)
    requires n <= |data|
    ensures WordSum(data + more, n) == WordSum(data, n)
  {
    if n < 2 {
    } else {
      PrefixSum(data, more, n - 2);
    }
  }

  /** The definition of the RFC in terms of the plain sum. */
  lemma ChecksumOfTotal(data: seq<byte>)
    ensures InternetChecksum(data) == 0xffff - Reduced(Total(data, 0x100))
  {
    hide Reduced;
    if |data| % 2 == 0 {
      OnesSumReduces(data, |data|);
    } else {
      OnesSumReduces(data + [0], |data| + 1);
      PrefixSum(data, [0], |data| - 1);
    }
  }

  // ----- Where the 32-bit accumulator is enough

  const LIMIT: nat := 131074

  lemma {:induction false} WordSumBound(data: seq<byte>, n: nat)
    requires n <= |data|
    ensures WordSum(data, n) <= n / 2 * 0xffff
  {
    hide WordAt;
    if n < 2 {
    } else {
      WordSumBound(data, n - 2);
    }
  }

  lemma TotalBound(data: seq<byte>)
    requires |data| <= LIMIT
    ensures Total(data, 0x100) < W32 && Total(data, 1) < W32
  {
    WordSumBound(data, EvenPart(data));
  }

  /** 131074 bytes 0xff, then a further one, then zeros. */
  function Overflowing(length: nat): (data: seq<byte>)
    requires length > LIMIT
    ensures |data| == length
  {
    seq(length, i => if i <= LIMIT then 255 else 0)
  }

  lemma {:induction false} OverflowingSum(length: nat, n: nat)
    requires length > LIMIT && n <= length && n % 2 == 0
    ensures WordSum(Overflowing(length), n)
      == if n <= LIMIT then n / 2 * 0xffff else LIMIT / 2 * 0xffff + 0xff00
  {
    if n < 2 {
    } else {
      OverflowingSum(length, n - 2);
    }
  }

  lemma OverflowingFails(length: nat)
    requires length > LIMIT
    ensures Computed(Total(Overflowing(length), 0x100)) != InternetChecksum(Overflowing(length))
  {
    hide Fold, Reduced, WordAt;
    var data := Overflowing(length);
    OverflowingSum(length, EvenPart(data));
    ChecksumOfTotal(data);
    assert Total(data, 0x100) == W32 + 0xfeff;
    FoldReduces(0xfeff);
    ReducedAt();
  }

  lemma ReducedAt()
    ensures Reduced(0xfeff) == 0xfeff && Reduced(W32 + 0xfeff) == 0xff00
  {
  }

  /** Without a wrap the code computes the checksum of the RFC. */
  lemma ComputesInternetChecksum(data: seq<byte>)
    requires |data| <= LIMIT
    ensures Computed(Total(data, 0x100)) == InternetChecksum(data)
  {
    hide Fold, Reduced;
    TotalBound(data);
    ChecksumOfTotal(data);
    FoldReduces(Total(data, 0x100));
  }

  /**
   For all data, however long: the code computes the checksum of the RFC exactly when the number of times the
   accumulator wraps around is a multiple of 65535 and what it is left with is not zero by wrapping.
  */
  lemma AgreesExactly(data: seq<byte>)
    ensures var total := Total(data, 0x100);
      var agrees := Computed(total) == InternetChecksum(data);
      agrees <==> total / W32 % 0xffff == 0 && (total % W32 == 0 ==> total == 0)
  {
    hide Fold, Reduced, Total;
    var total := Total(data, 0x100);
    ChecksumOfTotal(data);
    FoldReduces(total % W32);
    WrapsKeep(total);
  }

  lemma WrapsKeep(total: nat)
    ensures Reduced(total % W32) == Reduced(total) <==> total / W32 % 0xffff == 0 && (total % W32 == 0 ==> total == 0)
  {
    hide Reduced;
    var q, r := total / W32, total % W32;
    assert total == q * W32 + r;
    assert total == (q + r) + q * 65537 * 0xffff;
    QuotientIs(total, 0xffff, (q + r) / 0xffff + q * 65537, (q + r) % 0xffff);
    CancelMod(r, q, 0, 0xffff);
    SameReduced(r, total);
  }

  lemma SameReduced(a: nat, b: nat)
    ensures Reduced(a) == Reduced(b) <==> a % 0xffff == b % 0xffff && (a == 0 <==> b == 0)
  {
    hide Reduced;
    var x, y := Reduced(a), Reduced(b);
    assert x % 0xffff == a % 0xffff && y % 0xffff == b % 0xffff;
  }

  /** The code computes the checksum of the RFC for all data of a length exactly up to 131074 bytes. */
  lemma CorrectUpToLimit(length: nat)
    ensures (forall data: seq<byte> | |data| == length :: Computed(Total(data, 0x100)) == InternetChecksum(data))
      <==> length <= LIMIT
  {
    hide Computed, Total, InternetChecksum;
    if length <= LIMIT {
      forall data: seq<byte> | |data| == length ensures Computed(Total(data, 0x100)) == InternetChecksum(data) {
        ComputesInternetChecksum(data);
      }
    } else {
      OverflowingFails(length);
      assert |Overflowing(length)| == length;
    }
  }

  // ----- In bytes

  /** The words are pairs of bytes with the high byte first, added up from the start. */
  lemma WordsOfBytes(data: seq<byte>, n: nat)
    requires n + 2 <= |data|
    ensures WordSum(data, 0) == 0
    ensures WordSum(data, n + 2) == WordSum(data, n) + data[n] as nat * 0x100 + data[n + 1] as nat
  {
    assert n + 2 - 2 == n;
  }

  /** A single last byte counts as a high byte, in the TCP variant as a low byte. */
  lemma TotalOfBytes(data: seq<byte>)
    ensures |data| % 2 == 0 ==>
      Total(data, 0x100) == WordSum(data, |data|) && Total(data, 1) == WordSum(data, |data|)
    ensures |data| % 2 == 1 ==>
      && Total(data, 0x100) == WordSum(data, |data| - 1) + data[|data| - 1] as nat * 0x100
      && Total(data, 1) == WordSum(data, |data| - 1) + data[|data| - 1] as nat
  {
    hide WordSum;
  }

  /** The example in section 3 of RFC 1071, also with its last byte cut off. */
  lemma ExampleOfTheRfc()
    ensures InternetChecksum([0x00, 0x01, 0xf2, 0x03, 0xf4, 0xf5, 0xf6, 0xf7]) == 0x220d
    ensures InternetChecksum([0x00, 0x01, 0xf2, 0x03, 0xf4, 0xf5, 0xf6]) == 0x2304
  {
    hide OnesSum, Reduced;
    var data: seq<byte> := [0x00, 0x01, 0xf2, 0x03, 0xf4, 0xf5, 0xf6, 0xf7];
    var odd: seq<byte> := [0x00, 0x01, 0xf2, 0x03, 0xf4, 0xf5, 0xf6];
    ChecksumOfTotal(data);
    ChecksumOfTotal(odd);
    ThreeWords(data);
    ThreeWords(odd);
    WordsOfBytes(data, 6);
    TotalOfBytes(data);
    TotalOfBytes(odd);
    ReducedIs(0x2_ddf0, 2, 0xddf2);
    ReducedIs(0x2_dcf9, 2, 0xdcfb);
  }

  lemma ThreeWords(data: seq<byte>)
    requires |data| >= 6 && data[..6] == [0x00, 0x01, 0xf2, 0x03, 0xf4, 0xf5]
    ensures WordSum(data, 6) == 0x1_e6f9
  {
    hide WordSum;
    assert data[..6][0] == data[0] && data[..6][1] == data[1] && data[..6][2] == data[2];
    assert data[..6][3] == data[3] && data[..6][4] == data[4] && data[..6][5] == data[5];
    WordsOfBytes(data, 0);
    WordsOfBytes(data, 2);
    WordsOfBytes(data, 4);
  }

  // ----- Verifying a checksum in place

  /** data with the two bytes at p replaced by the big-endian word w. */
  function WithWord(data: seq<byte>, p: nat, w: nat): (r: seq<byte>)
    requires p + 1 < |data| && w <= 0xffff
    ensures |r| == |data|
  {
    data[p := w / 0x100][p + 1 := w % 0x100]
  }

  lemma {:induction false} WithWordSum(data: seq<byte>, p: nat, w: nat, n: nat)
    requires p + 1 < |data| && w <= 0xffff && n <= |data| && p % 2 == 0 && n % 2 == 0
    ensures WordSum(WithWord(data, p, w), n) == WordSum(data, n) + if p < n then w - WordAt(data, p) else 0
  {
    hide WordAt, WithWord;
    if n < 2 {
    } else {
      WithWordSum(data, p, w, n - 2);
      WordOfChanged(data, p, w, n - 2);
    }
  }

  lemma WordOfChanged(data: seq<byte>, p: nat, w: nat, i: nat)
    requires p + 1 < |data| && w <= 0xffff && i + 1 < |data| && p % 2 == 0 && i % 2 == 0
    ensures WordAt(WithWord(data, p, w), i) == if i == p then w else WordAt(data, i)
  {
  }

  lemma WithWordTotal(data: seq<byte>, p: nat, w: nat, factor: nat)
    requires p + 1 < |data| && w <= 0xffff && p % 2 == 0
    ensures Total(WithWord(data, p, w), factor) == Total(data, factor) + w - WordAt(data, p)
  {
    hide WordSum, WordAt;
    WithWordSum(data, p, w, EvenPart(data));
  }

  /**
   With a zeroed field at an even offset, the field is filled correctly, so that recomputing gives zero, by the
   computed checksum and by no other word but the other form of zero.
  */
  lemma SelfVerifying(data: seq<byte>, p: nat, w: nat)
    requires p + 1 < |data| <= LIMIT && p % 2 == 0 && WordAt(data, p) == 0 && w <= 0xffff
    ensures var c := Computed(Total(data, 0x100));
      && Computed(Total(WithWord(data, p, c), 0x100)) == 0
      && (Computed(Total(WithWord(data, p, w), 0x100)) == 0 <==>
            w == c || (c == 0 && w == 0xffff) || (c == 0xffff && w == 0 && Total(data, 0x100) != 0))
  {
    hide Fold, WordAt, WordSum, Reduced;
    var t := Total(data, 0x100);
    var c := Computed(t);
    Verifies(data, p, c);
    Verifies(data, p, w);
    TotalBound(data);
    FoldReduces(t);
    Complement(t, c);
    ComplementIsUnique(t, c, w);
  }

  /** Recomputing gives zero exactly when the total is a positive multiple of 65535. */
  lemma Verifies(data: seq<byte>, p: nat, w: nat)
    requires p + 1 < |data| <= LIMIT && p % 2 == 0 && WordAt(data, p) == 0 && w <= 0xffff
    ensures Computed(Total(WithWord(data, p, w), 0x100)) == 0 <==> Reduced(Total(data, 0x100) + w) == 0xffff
  {
    hide Fold, WordAt, WordSum, Reduced;
    WithWordTotal(data, p, w, 0x100);
    TotalBound(WithWord(data, p, w));
    FoldReduces(Total(data, 0x100) + w);
  }

  lemma Complement(t: nat, c: nat)
    requires c == 0xffff - Reduced(t)
    ensures Reduced(t + c) == 0xffff
  {
    hide Reduced;
    ReducedAdd(t, c);
  }

  lemma ComplementIsUnique(t: nat, c: nat, w: nat)
    requires c == 0xffff - Reduced(t) && w <= 0xffff
    ensures Reduced(t + w) == 0xffff <==>
      w == c || (c == 0 && w == 0xffff) || (c == 0xffff && w == 0 && t != 0)
  {
    hide Reduced;
    ReducedAdd(t, w);
  }

  /**
   A verified packet in which one word is changed verifies again exactly when the new word is congruent to the old
   one modulo 65535 and the data is not all zero.
  */
  lemma DetectsChangedWord(data: seq<byte>, p: nat, w: nat)
    requires p + 1 < |data| <= LIMIT && p % 2 == 0 && w <= 0xffff && Computed(Total(data, 0x100)) == 0
    ensures var changed := WithWord(data, p, w);
      Computed(Total(changed, 0x100)) == 0 <==>
        w % 0xffff == WordAt(data, p) % 0xffff && Total(changed, 0x100) > 0
  {
    hide Fold, WordAt, WordSum, Reduced, EvenPart, LastByte, Total, WithWord;
    var t := Total(data, 0x100);
    WithWordTotal(data, p, w, 0x100);
    TotalBound(data);
    TotalBound(WithWord(data, p, w));
    FoldReduces(t);
    FoldReduces(t + w - WordAt(data, p));
    Congruent(t, w, WordAt(data, p));
  }

  lemma Congruent(t: nat, w: nat, v: nat)
    requires t + w >= v && Reduced(t) == 0xffff
    ensures Reduced(t + w - v) == 0xffff <==> w % 0xffff == v % 0xffff && t + w - v > 0
  {
    hide Reduced;
    CancelMod(t - v, w, v, 0xffff);
  }

  // ----- The TCP variant

  /** The TCP variant agrees on every even length, whether the accumulator wraps around or not. */
  lemma TcpAgreesOnEvenLengths(data: seq<byte>)
    requires |data| % 2 == 0
    ensures Computed(Total(data, 1)) == Computed(Total(data, 0x100))
  {
  }

  /** Where neither wraps around, the two agree exactly on data of even length or with a last byte of zero. */
  lemma TcpAgreement(data: seq<byte>)
    requires |data| <= LIMIT
    ensures Computed(Total(data, 1)) == InternetChecksum(data) <==> |data| % 2 == 0 || data[|data| - 1] == 0
  {
    hide Computed, WordSum, Reduced, EvenPart, InternetChecksum, Total, LastByte;
    var last, even := LastByte(data), WordSum(data, EvenPart(data));
    ComputesInternetChecksum(data);
    TotalBound(data);
    Totals(data);
    ComputedReduces(even + last);
    ComputedReduces(even + last * 0x100);
    Misplaced(even, last);
  }

  lemma ComputedReduces(total: nat)
    requires total < W32
    ensures Computed(total) == 0xffff - Reduced(total)
  {
    hide Fold, Reduced;
    FoldReduces(total);
  }

  lemma Totals(data: seq<byte>)
    ensures var last, even := LastByte(data), WordSum(data, EvenPart(data));
      && Total(data, 1) == even + last && Total(data, 0x100) == even + last * 0x100
      && (last == 0 <==> |data| % 2 == 0 || data[|data| - 1] == 0)
  {
  }

  lemma Misplaced(t: nat, last: nat)
    requires last < 0x100
    ensures Reduced(t + last) == Reduced(t + last * 0x100) <==> last == 0
  {
    hide Reduced;
    CancelMod(t, last, last * 0x100, 0xffff);
  }
}
