/** The choice of a route for a destination, and the bit count it is ordered by. */
module Routes {
  import opened Numbers
  import opened Bytes
  import opened Words
  import opened Wrappers

  // ----- Bit counts

  /** An IP address as the net package holds it: 4 or 16 bytes, or none. */
  type Ip = seq<byte>

  /** The four bytes of an IPv4 address, also of one embedded in an IPv6 address. */
  function To4(ip: Ip): (r: Option<Ip>)
    ensures r.Some? ==> |r.value| == 4
  {
    if |ip| == 4 then Some(ip)
    else if |ip| == 16 && (forall i | 0 <= i < 10 :: ip[i] == 0) && ip[10] == 255 && ip[11] == 255 then Some(ip[12..])
    else None
  }

  function BitAt(b: byte, n: nat): (bit: nat)
    ensures bit <= 1
  {
    b / Pow2(n) % 2
  }

  /** Bit k of an address, counting from the least significant bit of its first byte. */
  function AddressBit(ip: Ip, k: nat): (bit: nat)
    requires k < 8 * |ip|
    ensures bit <= 1
  {
    BitAt(ip[k / 8], k % 8)
  }

  /** Number of set bits among the first n. */
  function SetBits(ip: Ip, n: nat): (count: nat)
    requires n <= 8 * |ip|
    ensures count <= n
  {
    if n == 0 then 0 else SetBits(ip, n - 1) + AddressBit(ip, n - 1)
  }

  /** Number of bits that are visited. */
  function Visited(mask: int): (n: nat)
    ensures n <= 32
  {
    if mask < 0 then 0 else if mask > 32 then 32 else mask
  }

  function BitCount(ip: Ip, mask: int): nat {
    match To4(ip)
    case None => 0
    case Some(ip4) => SetBits(ip4, Visited(mask))
  }

  method CountBits(ip: Ip, mask: int) returns (count: nat)
    ensures count == BitCount(ip, mask)
    ensures count == BitsWithin(ip, mask)
  {
    hide To4, BitAt, SetBits, BitsWithin;
    CountIs(ip, mask);
    count := 0;
    match To4(ip) {
      case None =>
      case Some(ip4) =>
        var recJ := 1;
        NoBitsYet(ip4);
        for k := 0 to 4
          invariant recJ == 1 + Visited(if mask < 8 * k then mask else 8 * k)
          invariant count == SetBits(ip4, recJ - 1)
        {
          var i := 0;
          while i < 8 && recJ <= mask
            invariant 0 <= i <= 8 && (i > 0 ==> recJ == 1 + 8 * k + i)
            invariant recJ == 1 + Visited(if mask < 8 * k + i then mask else 8 * k + i)
            invariant count == SetBits(ip4, recJ - 1)
          {
            assert recJ == 1 + 8 * k + i;
            OneMoreBit(ip4, k, i);
            recJ := recJ + 1;
            if BitAt(ip4[k], i) == 1 {
              count := count + 1;
            }
            i := i + 1;
          }
        }
    }
  }

  lemma NoBitsYet(ip: Ip)
    ensures SetBits(ip, 0) == 0
  {
  }

  lemma OneMoreBit(ip: Ip, k: nat, i: nat)
    requires k < |ip| && i < 8
    ensures SetBits(ip, 8 * k + i + 1) == SetBits(ip, 8 * k + i) + BitAt(ip[k], i)
  {
    hide BitAt;
    assert AddressBit(ip, 8 * k + i) == BitAt(ip[k], i);
  }

  // ----- What is counted

  /** The bits of a byte are its binary digits, bit 0 the least significant. */
  lemma BitsAreBinary(b: byte)
    ensures b as nat == BitAt(b, 0) + BitAt(b, 1) * 2 + BitAt(b, 2) * 4 + BitAt(b, 3) * 8 + BitAt(b, 4) * 16
                        + BitAt(b, 5) * 32 + BitAt(b, 6) * 64 + BitAt(b, 7) * 128
  {
    hide BitAt;
    Digits(b);
    ByteDigits(b);
  }

  lemma ByteDigits(b: nat)
    requires b < 256
    ensures b == b % 2 + b / 2 % 2 * 2 + b / 4 % 2 * 4 + b / 8 % 2 * 8 + b / 16 % 2 * 16 + b / 32 % 2 * 32
                 + b / 64 % 2 * 64 + b / 128 % 2 * 128
  {
    var h := b / 16;
    Halves(b);
    Halves(h);
    Nested(b, h);
  }

  lemma Halves(x: nat)
    ensures x == x % 2 + x / 2 % 2 * 2 + x / 4 % 2 * 4 + x / 8 % 2 * 8 + x / 16 * 16
  {
    var y := x / 2;
    var z := y / 2;
    var u := z / 2;
    assert x / 4 == z && x / 8 == u && x / 16 == u / 2;
  }

  lemma Nested(b: nat, h: nat)
    requires b < 256 && h == b / 16
    ensures h / 2 == b / 32 && h / 4 == b / 64 && h / 8 == b / 128 && h / 16 == 0
  {
  }

  lemma Digits(b: byte)
    ensures BitAt(b, 0) == b % 2 && BitAt(b, 1) == b / 2 % 2 && BitAt(b, 2) == b / 4 % 2 && BitAt(b, 3) == b / 8 % 2
    ensures BitAt(b, 4) == b / 16 % 2 && BitAt(b, 5) == b / 32 % 2
    ensures BitAt(b, 6) == b / 64 % 2 && BitAt(b, 7) == b / 128 % 2
  {
    hide Pow2;
    Powers();
  }

  lemma Powers()
    ensures Pow2(0) == 1 && Pow2(1) == 2 && Pow2(2) == 4 && Pow2(3) == 8
    ensures Pow2(4) == 16 && Pow2(5) == 32 && Pow2(6) == 64 && Pow2(7) == 128
  {
    assert Pow2(4) == 16;
  }

  lemma Shifted(b: byte)
    ensures (b as bv8 >> 0) & 1 == 1 <==> b % 2 == 1
    ensures (b as bv8 >> 1) & 1 == 1 <==> b / 2 % 2 == 1
    ensures (b as bv8 >> 2) & 1 == 1 <==> b / 4 % 2 == 1
    ensures (b as bv8 >> 3) & 1 == 1 <==> b / 8 % 2 == 1
    ensures (b as bv8 >> 4) & 1 == 1 <==> b / 16 % 2 == 1
    ensures (b as bv8 >> 5) & 1 == 1 <==> b / 32 % 2 == 1
    ensures (b as bv8 >> 6) & 1 == 1 <==> b / 64 % 2 == 1
    ensures (b as bv8 >> 7) & 1 == 1 <==> b / 128 % 2 == 1
  {
  }

  /** The test of the source: the byte shifted right by n ends with a one. */
  predicate TestsBit(b: byte, n: nat)
    requires n < 8
  {
    (b as bv8 >> n) & 1 == 1
  }

  lemma BitIsShifted(b: byte, n: nat)
    requires n < 8
    ensures BitAt(b, n) == 1 <==> TestsBit(b, n)
  {
    hide BitAt, TestsBit;
    Digits(b);
    Tested(b);
    if n == 0 {
    } else if n == 1 {
    } else if n == 2 {
    } else if n == 3 {
    } else if n == 4 {
    } else if n == 5 {
    } else if n == 6 {
    } else {
    }
  }

  lemma Tested(b: byte)
    ensures TestsBit(b, 0) <==> b % 2 == 1
    ensures TestsBit(b, 1) <==> b / 2 % 2 == 1
    ensures TestsBit(b, 2) <==> b / 4 % 2 == 1
    ensures TestsBit(b, 3) <==> b / 8 % 2 == 1
    ensures TestsBit(b, 4) <==> b / 16 % 2 == 1
    ensures TestsBit(b, 5) <==> b / 32 % 2 == 1
    ensures TestsBit(b, 6) <==> b / 64 % 2 == 1
    ensures TestsBit(b, 7) <==> b / 128 % 2 == 1
  {
    Shifted(b);
  }

  /** The positions below n of the set bits, eight to a byte from its least significant bit on. */
  function SetPositions(ip4: Ip, n: nat): set<nat>
    requires n <= 8 * |ip4|
  {
    set k: nat | k < n && TestsBit(ip4[k / 8], k % 8)
  }

  lemma {:induction false} SetBitsCounts(ip4: Ip, n: nat)
    requires n <= 8 * |ip4|
    ensures SetBits(ip4, n) == |SetPositions(ip4, n)|
  {
    hide BitAt, TestsBit, SetPositions, AddressBit;
    if n == 0 {
      NoPositions(ip4);
    } else {
      SetBitsCounts(ip4, n - 1);
      OnePosition(ip4, n - 1);
    }
  }

  lemma NoPositions(ip4: Ip)
    ensures SetPositions(ip4, 0) == {}
  {
  }

  lemma OnePosition(ip4: Ip, k: nat)
    requires k < 8 * |ip4|
    ensures |SetPositions(ip4, k + 1)| == |SetPositions(ip4, k)| + AddressBit(ip4, k)
  {
    hide BitAt, TestsBit;
    BitIsShifted(ip4[k / 8], k % 8);
    if TestsBit(ip4[k / 8], k % 8) {
      assert SetPositions(ip4, k + 1) == SetPositions(ip4, k) + {k};
    } else {
      assert SetPositions(ip4, k + 1) == SetPositions(ip4, k);
    }
  }

  /** How many bits of an IPv4 address, however it is held, are set within the first mask positions. */
  function BitsWithin(ip: Ip, mask: int): nat {
    match To4(ip)
    case None => 0
    case Some(ip4) => |SetPositions(ip4, if mask < 0 then 0 else if mask > 32 then 32 else mask)|
  }

  lemma CountIs(ip: Ip, mask: int)
    ensures BitCount(ip, mask) == BitsWithin(ip, mask)
  {
    hide To4, SetBits, SetPositions;
    match To4(ip) {
      case None =>
      case Some(ip4) => SetBitsCounts(ip4, Visited(mask));
    }
  }

  /** An IPv4 address has 4 bytes, alone or behind ten zeros and two bytes of ones. */
  lemma To4Exactly(ip: Ip, s: Ip)
    ensures To4(ip) == Some(s) <==>
      |s| == 4 && (ip == s || ip == [0, 0, 0, 0, 0, 0, 0, 0, 0, 0, 255, 255] + s)
  {
    if |ip| == 16 {
      assert ip == ip[..12] + ip[12..];
    }
  }

  lemma {:induction false} SetBitsMonotone(ip: Ip, m: nat, n: nat)
    requires m <= n <= 8 * |ip|
    ensures SetBits(ip, m) <= SetBits(ip, n)
    ensures SetBits(ip, m) == SetBits(ip, n) <==> forall k | m <= k < n :: AddressBit(ip, k) == 0
    decreases n
  {
    hide AddressBit;
    if m == n {
    } else {
      SetBitsMonotone(ip, m, n - 1);
      assert SetBits(ip, n) == SetBits(ip, n - 1) + AddressBit(ip, n - 1);
    }
  }

  /** A longer mask never has a smaller bit count, and no count exceeds the mask or the 32 bits of an address. */
  lemma BitCountMonotone(ip: Ip, m: int, n: int)
    requires m <= n
    ensures BitCount(ip, m) <= BitCount(ip, n)
    ensures BitCount(ip, n) <= 32 && (n >= 0 ==> BitCount(ip, n) <= n)
  {
    hide To4;
    var ip4 := To4(ip);
    if ip4.Some? {
      SetBitsMonotone(ip4.value, Visited(m), Visited(n));
    }
  }

  // ----- Routes

  /** An IPv4 network and the length of its prefix. */
  datatype Subnet = Subnet(network: nat, ones: nat)

  predicate Contains(subnet: Subnet, dest: nat)
  {
    subnet.ones <= 32 && dest / Pow2(32 - subnet.ones) == subnet.network / Pow2(32 - subnet.ones)
  }

  /** A subnet contains the destinations that agree with its network in the upper bits of its prefix. */
  lemma ContainsExactly(subnet: Subnet, dest: nat)
    requires subnet.network < 0x1_0000_0000 && dest < 0x1_0000_0000 && subnet.ones <= 32
    ensures Contains(subnet, dest) <==>
      forall n | 32 - subnet.ones <= n < 32 :: Bit(dest, n) == Bit(subnet.network, n)
  {
    PowersOfTwo();
    SameAbove(dest, subnet.network, 32 - subnet.ones);
  }

  lemma {:induction false} SameAbove(x: nat, y: nat, k: nat)
    requires x < Pow2(32) && y < Pow2(32) && k <= 32
    ensures x / Pow2(k) == y / Pow2(k) <==> forall n | k <= n < 32 :: Bit(x, n) == Bit(y, n)
    decreases 32 - k
  {
    hide Bit, Pow2;
    if k == 32 {
      NothingAbove(x);
      NothingAbove(y);
    } else {
      SameAbove(x, y, k + 1);
      OneAbove(x, k);
      OneAbove(y, k);
    }
  }

  lemma NothingAbove(x: nat)
    requires x < Pow2(32)
    ensures x / Pow2(32) == 0
  {
    hide Pow2;
    QuotientIs(x, Pow2(32), 0, x);
  }

  lemma OneAbove(x: nat, k: nat)
    ensures x / Pow2(k) == x / Pow2(k + 1) * 2 + Bit(x, k) && Bit(x, k) <= 1
  {
    Tail(x, Pow2(k), 2);
    assert Pow2(k + 1) == Pow2(k) * 2;
  }

  datatype Route = Route(ifName: string, subnet: Subnet, ip: Ip, metric: int, ifIndex: nat, bitCount: int)

  const DEFAULT_IF_NAME := "DEFAULT"

  function DefaultRoute(outbound: Ip): Route {
    Route(DEFAULT_IF_NAME, Subnet(0, 0), outbound, 0, 0, 0)
  }

  /** The route FindRoutes makes of a table row. */
  function RouteOf(ifName: string, subnet: Subnet, ip: Ip, metric: int, ifIndex: nat): Route {
    Route(ifName, subnet, ip, metric, ifIndex, if subnet.ones > 0 then BitCount(ip, subnet.ones) else 0)
  }

  /** The order of routes: more bits first, then the smaller metric. */
  predicate Beats(a: Route, b: Route) {
    if a.bitCount == b.bitCount then a.metric < b.metric else a.bitCount > b.bitCount
  }

  predicate Tie(a: Route, b: Route) { !Beats(a, b) && !Beats(b, a) }

  /** A strict weak order, in which ties have the same bit count and the same metric. */
  lemma StrictWeakOrder(a: Route, b: Route, c: Route)
    ensures !Beats(a, a)
    ensures Beats(a, b) && Beats(b, c) ==> Beats(a, c)
    ensures !Beats(a, b) && !Beats(b, c) ==> !Beats(a, c)
    ensures Tie(a, b) <==> a.bitCount == b.bitCount && a.metric == b.metric
  {
  }

  predicate Sorted(rs: seq<Route>) {
    forall i, j | 0 <= i < j < |rs| :: !Beats(rs[j], rs[i])
  }

  predicate Less(a: array<Route>, i: int, j: int)
    requires 0 <= i < a.Length && 0 <= j < a.Length
    reads a
  {
    Beats(a[i], a[j])
  }

  method Swap(a: array<Route>, i: int, j: int)
    requires 0 <= i < a.Length && 0 <= j < a.Length
    modifies a
    ensures a[..] == old(a[..])[i := old(a[j])][j := old(a[i])]
    ensures multiset(a[..]) == multiset(old(a[..]))
  {
    a[i], a[j] := a[j], a[i];
  }

  /** Sorts by swapping neighbours, as the sort package does on short slices. */
  method Sort(a: array<Route>)
    modifies a
    ensures Sorted(a[..])
    ensures multiset(a[..]) == multiset(old(a[..]))
  {
    hide Beats;
    var i := 1;
    while i < a.Length
      invariant 1 <= i && (i <= a.Length || a.Length == 0)
      invariant Sorted(a[..if i <= a.Length then i else a.Length])
      invariant multiset(a[..]) == multiset(old(a[..]))
    {
      Insert(a, i);
      i := i + 1;
    }
    assert a.Length > 0 ==> a[..a.Length] == a[..];
  }

  /** Everything up to n is in order, disregarding the route at j, and that route is not beaten by those after it. */
  predicate SortedBut(rs: seq<Route>, j: int, n: int)
    requires 0 <= j < n <= |rs|
  {
    && (forall k, l | 0 <= k < l < n && k != j && l != j :: !Beats(rs[l], rs[k]))
    && (forall l | j < l < n :: !Beats(rs[l], rs[j]))
  }

  /** Moves the route at i down into the sorted routes before it. */
  method Insert(a: array<Route>, i: nat)
    requires i < a.Length && Sorted(a[..i])
    modifies a
    ensures Sorted(a[..i + 1])
    ensures multiset(a[..]) == multiset(old(a[..]))
  {
    hide Beats;
    SortedStart(a[..], i);
    var j := i;
    while j > 0 && Less(a, j, j - 1)
      invariant 0 <= j <= i && SortedBut(a[..], j, i + 1)
      invariant multiset(a[..]) == multiset(old(a[..]))
    {
      SortedSwap(a[..], j, i + 1);
      Swap(a, j, j - 1);
      j := j - 1;
    }
    SortedEnd(a[..], j, i + 1);
  }

  lemma SortedStart(rs: seq<Route>, i: nat)
    requires i < |rs| && Sorted(rs[..i])
    ensures SortedBut(rs, i, i + 1)
  {
    hide Beats;
    forall k, l | 0 <= k < l < i ensures !Beats(rs[l], rs[k]) {
      assert rs[..i][l] == rs[l] && rs[..i][k] == rs[k];
    }
  }

  lemma SortedSwap(rs: seq<Route>, j: nat, n: nat)
    requires 0 < j < n <= |rs| && SortedBut(rs, j, n) && Beats(rs[j], rs[j - 1])
    ensures SortedBut(rs[j := rs[j - 1]][j - 1 := rs[j]], j - 1, n)
  {
    hide Beats;
    StrictWeakOrder(rs[j], rs[j - 1], rs[j]);
  }

  lemma SortedEnd(rs: seq<Route>, j: nat, n: nat)
    requires j < n <= |rs| && SortedBut(rs, j, n) && (j == 0 || !Beats(rs[j], rs[j - 1]))
    ensures Sorted(rs[..n])
  {
    hide Beats;
    forall k | 0 <= k < j ensures !Beats(rs[j], rs[k]) {
      if k < j - 1 {
        StrictWeakOrder(rs[j], rs[j - 1], rs[k]);
      }
    }
  }

  /** The routes that contain dest, in order. */
  function Matching(routes: seq<Route>, dest: nat): (ms: seq<Route>)
    ensures forall r :: r in ms <==> r in routes && Contains(r.subnet, dest)
  {
    if routes == [] then []
    else
      var n := |routes| - 1;
      Matching(routes[..n], dest) + if Contains(routes[n].subnet, dest) then [routes[n]] else []
  }

  /** The choice: a matching route that no matching route beats. */
  predicate Chosen(r: Route, routes: seq<Route>, dest: nat) {
    && r in routes && Contains(r.subnet, dest)
    && forall s | s in routes && Contains(s.subnet, dest) :: !Beats(s, r)
  }

  /** Filters into a slice of its own, sorts that, and takes the head; the routes themselves are left as they are. */
  method FindContainRoute(dest: nat, routes: array<Route>, outbound: Ip) returns (r: Route)
    ensures (exists s | s in routes[..] :: Contains(s.subnet, dest)) ==> Chosen(r, routes[..], dest)
    ensures !(exists s | s in routes[..] :: Contains(s.subnet, dest)) ==>
      r == Route("DEFAULT", Subnet(0, 0), outbound, 0, 0, 0)
  {
    hide Beats, Contains;
    var matching: seq<Route> := [];
    for i := 0 to routes.Length
      invariant matching == Matching(routes[..i], dest)
    {
      if Contains(routes[i].subnet, dest) {
        matching := matching + [routes[i]];
      }
      assert routes[..i + 1][..i] == routes[..i];
    }
    assert routes[..routes.Length] == routes[..];
    if |matching| == 0 {
      assert forall s | s in routes[..] && Contains(s.subnet, dest) :: s in matching;
      return DefaultRoute(outbound);
    }
    var customRoutes := new Route[|matching|](i requires 0 <= i < |matching| => matching[i]);
    assert customRoutes[..] == matching;
    assert matching[0] in matching;
    Sort(customRoutes);
    r := customRoutes[0];
    HeadIsChosen(customRoutes[..], matching);
  }

  lemma HeadIsChosen(sorted: seq<Route>, matching: seq<Route>)
    requires |sorted| > 0 && Sorted(sorted) && multiset(sorted) == multiset(matching)
    ensures sorted[0] in matching && forall s | s in matching :: !Beats(s, sorted[0])
  {
    hide Beats;
    assert sorted[0] in multiset(sorted);
    forall s | s in matching ensures !Beats(s, sorted[0]) {
      assert s in multiset(matching);
      assert s in sorted;
      StrictWeakOrder(s, s, s);
    }
  }

  /** A single pass that keeps the first route no earlier one ties with or beats. */
  function Scan(routes: seq<Route>, dest: nat): Option<Route> {
    if routes == [] then None
    else
      var r := routes[|routes| - 1];
      match Scan(routes[..|routes| - 1], dest)
      case None => if Contains(r.subnet, dest) then Some(r) else None
      case Some(best) => Some(if Contains(r.subnet, dest) && Beats(r, best) then r else best)
  }

  lemma {:induction false} ScanIsChosen(routes: seq<Route>, dest: nat)
    ensures var best := Scan(routes, dest);
      if best.Some? then Chosen(best.value, routes, dest)
      else forall s | s in routes :: !Contains(s.subnet, dest)
  {
    hide Contains, Beats;
    if routes == [] {
    } else {
      var n := |routes| - 1;
      var r := routes[n];
      ScanIsChosen(routes[..n], dest);
      assert routes == routes[..n] + [r];
      StrictWeakOrder(r, r, r);
      var best := Scan(routes[..n], dest);
      if best.Some? {
        forall s | s in routes[..n] && Contains(s.subnet, dest) && Beats(r, best.value) ensures !Beats(s, r) {
          StrictWeakOrder(s, r, best.value);
        }
      }
    }
  }

  /** Filter, sort and head refine the single pass: whatever is chosen ties with the route the pass keeps. */
  lemma ChoiceRefinesScan(r: Route, routes: seq<Route>, dest: nat)
    requires Chosen(r, routes, dest)
    ensures Scan(routes, dest).Some?
    ensures var best := Scan(routes, dest).value; r.bitCount == best.bitCount && r.metric == best.metric
  {
    hide Contains, Beats, Scan;
    ScanIsChosen(routes, dest);
    var best := Scan(routes, dest).value;
    StrictWeakOrder(r, best, r);
  }

  // ----- Prefix length

  /** A route that FindRoutes makes over an interface with this IPv4 address, in whatever form it is held. */
  predicate RouteOver(r: Route, ip4: Ip) {
    && To4(r.ip) == Some(ip4) && r.subnet.ones <= 32
    && r == RouteOf(r.ifName, r.subnet, r.ip, r.metric, r.ifIndex)
  }

  /** The address has no set bit in these positions. */
  predicate NoBits(ip4: Ip, lo: nat, hi: nat)
    requires hi <= 8 * |ip4|
  {
    forall k | lo <= k < hi :: AddressBit(ip4, k) == 0
  }

  lemma CountOfRoute(r: Route, ip4: Ip)
    requires RouteOver(r, ip4)
    ensures |ip4| == 4 && r.bitCount == SetBits(ip4, r.subnet.ones)
  {
    hide To4;
  }

  /**
   Of two routes over one interface address, the one with the shorter prefix is preferred exactly when the address
   has no set bit in the additional positions of the longer one and the shorter one has the smaller metric.
  */
  lemma ShorterPrefixWins(a: Route, b: Route, ip4: Ip)
    requires RouteOver(a, ip4) && RouteOver(b, ip4) && a.subnet.ones < b.subnet.ones
    ensures |ip4| == 4
    ensures Beats(a, b) <==> NoBits(ip4, a.subnet.ones, b.subnet.ones) && a.metric < b.metric
  {
    hide AddressBit, RouteOver;
    CountOfRoute(a, ip4);
    CountOfRoute(b, ip4);
    PrefixLengths(a, b, ip4);
    SetBitsMonotone(ip4, a.subnet.ones, b.subnet.ones);
  }

  lemma PrefixLengths(a: Route, b: Route, ip4: Ip)
    requires RouteOver(a, ip4) && RouteOver(b, ip4)
    ensures a.subnet.ones <= 32 && b.subnet.ones <= 32
  {
  }

  predicate Matches(r: Route, routes: seq<Route>, dest: nat) {
    r in routes && Contains(r.subnet, dest)
  }

  /** The matching routes all lead over the interface with this address, and their longest prefix has this length. */
  ghost predicate LongestIs(routes: seq<Route>, dest: nat, ip4: Ip, longest: nat) {
    && (forall r | Matches(r, routes, dest) :: RouteOver(r, ip4) && r.subnet.ones <= longest)
    && (exists r | Matches(r, routes, dest) :: r.subnet.ones == longest)
  }

  /** A route with a shorter prefix that counts as many bits is undercut by one with the longest prefix. */
  ghost predicate Undercut(a: Route, routes: seq<Route>, dest: nat, longest: nat) {
    exists b | Matches(b, routes, dest) :: b.subnet.ones == longest && b.metric < a.metric
  }

  /**
   Among matching routes over one interface, whatever is chosen has the longest prefix exactly when every matching
   route with a shorter prefix misses a set bit of the address or is undercut by a route with the longest prefix.
  */
  lemma LongestPrefixExactly(routes: seq<Route>, dest: nat, ip4: Ip, longest: nat)
    requires |ip4| == 4 && LongestIs(routes, dest, ip4, longest)
    ensures longest <= 32
    ensures (forall r | Chosen(r, routes, dest) :: r.subnet.ones == longest)
      <==> (forall a | Matches(a, routes, dest) && a.subnet.ones < longest && NoBits(ip4, a.subnet.ones, longest) ::
              Undercut(a, routes, dest, longest))
  {
    hide Contains, NoBits, RouteOver, Undercut, Beats;
    var l :| Matches(l, routes, dest) && l.subnet.ones == longest;
    PrefixLengths(l, l, ip4);
    if forall a | Matches(a, routes, dest) && a.subnet.ones < longest && NoBits(ip4, a.subnet.ones, longest) ::
        Undercut(a, routes, dest, longest) {
      forall r | Chosen(r, routes, dest) ensures r.subnet.ones == longest {
        if r.subnet.ones < longest {
          ShorterIsBeaten(routes, dest, ip4, longest, r, l);
        }
      }
    }
    if forall r | Chosen(r, routes, dest) :: r.subnet.ones == longest {
      forall a | Matches(a, routes, dest) && a.subnet.ones < longest && NoBits(ip4, a.subnet.ones, longest)
        ensures Undercut(a, routes, dest, longest)
      {
        ChosenUndercuts(routes, dest, ip4, longest, a);
      }
    }
  }

  lemma ShorterIsBeaten(routes: seq<Route>, dest: nat, ip4: Ip, longest: nat, r: Route, l: Route)
    requires |ip4| == 4 && longest <= 32 && LongestIs(routes, dest, ip4, longest) && Matches(r, routes, dest)
    requires r.subnet.ones < longest && Matches(l, routes, dest) && l.subnet.ones == longest
    requires NoBits(ip4, r.subnet.ones, longest) ==> Undercut(r, routes, dest, longest)
    ensures !Chosen(r, routes, dest)
  {
    hide Contains, NoBits, RouteOver, AddressBit;
    CountOfRoute(r, ip4);
    CountOfRoute(l, ip4);
    SetBitsOver(ip4, r.subnet.ones, longest);
    if NoBits(ip4, r.subnet.ones, longest) {
      var b :| Matches(b, routes, dest) && b.subnet.ones == longest && b.metric < r.metric;
      CountOfRoute(b, ip4);
      assert Beats(b, r);
    } else {
      assert Beats(l, r);
    }
  }

  lemma SetBitsOver(ip4: Ip, m: nat, n: nat)
    requires m <= n <= 8 * |ip4|
    ensures SetBits(ip4, m) <= SetBits(ip4, n)
    ensures SetBits(ip4, m) == SetBits(ip4, n) <==> NoBits(ip4, m, n)
  {
    SetBitsMonotone(ip4, m, n);
  }

  lemma ChosenUndercuts(routes: seq<Route>, dest: nat, ip4: Ip, longest: nat, a: Route)
    requires |ip4| == 4 && longest <= 32 && LongestIs(routes, dest, ip4, longest) && Matches(a, routes, dest)
    requires a.subnet.ones < longest && NoBits(ip4, a.subnet.ones, longest)
    requires forall r | Chosen(r, routes, dest) :: r.subnet.ones == longest
    ensures Undercut(a, routes, dest, longest)
  {
    hide Contains, NoBits, RouteOver, AddressBit, Scan;
    ScanIsChosen(routes, dest);
    var r := Scan(routes, dest).value;
    CountOfRoute(a, ip4);
    CountOfRoute(r, ip4);
    SetBitsOver(ip4, a.subnet.ones, longest);
    assert Matches(r, routes, dest) && a.bitCount == r.bitCount && !Beats(a, r);
    if a.metric == r.metric {
      TieIsChosen(routes, dest, a, r);
    }
  }

  lemma TieIsChosen(routes: seq<Route>, dest: nat, a: Route, r: Route)
    requires Chosen(r, routes, dest) && Matches(a, routes, dest)
    requires a.bitCount == r.bitCount && a.metric == r.metric
    ensures Chosen(a, routes, dest)
  {
    hide Contains;
  }

  // The interface 10.0.0.1, held in 16 bytes as FindRoutes holds it, with a route of 8 and one of 24 bits.

  const INTERFACE: Ip := [0, 0, 0, 0, 0, 0, 0, 0, 0, 0, 255, 255, 10, 0, 0, 1]

  const NETWORK: nat := 0x0a00_0000

  function Wide(): Route { RouteOf("eth", Subnet(NETWORK, 8), INTERFACE, 1, 1) }

  function Narrow(): Route { RouteOf("eth", Subnet(NETWORK, 24), INTERFACE, 2, 1) }

  /** Both routes match the destination 10.0.0.5, and the wide one alone can be chosen. */
  lemma LongerPrefixLoses()
    ensures var routes, dest := [Wide(), Narrow()], NETWORK + 5;
      && Matches(Wide(), routes, dest) && Matches(Narrow(), routes, dest)
      && Chosen(Wide(), routes, dest) && !Chosen(Narrow(), routes, dest)
      && Wide().subnet.ones < Narrow().subnet.ones
  {
    hide BitCount;
    var ip4: Ip := INTERFACE[12..];
    assert ip4 == [10, 0, 0, 1];
    assert To4(INTERFACE) == Some(ip4);
    forall k | 8 <= k < 24 ensures AddressBit(ip4, k) == 0 {
      assert ip4[k / 8] == 0;
    }
    ShorterPrefixWins(Wide(), Narrow(), ip4);
    Bounds();
    StrictWeakOrder(Wide(), Narrow(), Wide());
  }

  lemma Bounds()
    ensures Contains(Subnet(NETWORK, 8), NETWORK + 5) && Contains(Subnet(NETWORK, 24), NETWORK + 5)
  {
    assert Pow2(8) == 256;
    assert Pow2(16) == 256 * Pow2(8);
    assert Pow2(24) == 256 * Pow2(16);
  }
}
