/** The reservations and libraries a module owns, and giving them back. */
module Ledger {
  import opened Words
  import opened Os
  import opened PageGroups

  /** Blocks that were reserved, found to cross a 4 GiB boundary, and kept so that they are not offered again. */
  datatype AddressList = Nil | Node(address: nat, next: AddressList)

  function Addresses(list: AddressList): seq<nat> {
    match list
    case Nil => []
    case Node(address, next) => [address] + Addresses(next)
  }

  function Blocks(list: AddressList): (s: set<nat>)
    ensures forall b :: b in s <==> b in Addresses(list)
  {
    match list
    case Nil => {}
    case Node(address, next) => {address} + Blocks(next)
  }

  predicate NoRepeats(list: AddressList) {
    list.Node? ==> list.address !in Addresses(list.next) && NoRepeats(list.next)
  }

  // ----- The retry loop ends

  /** Number of the 4 GiB boundary above an address. */
  function Boundary(base: nat): nat { base / W32 + 1 }

  const BOUNDARIES: nat := 0x8000

  /** A block crosses a boundary when a multiple of 4 GiB lies behind its first byte, at its end at the latest. */
  lemma CrossesExactly(a: nat, size: nat)
    ensures CrossesBoundary(a, size) <==> exists k: nat :: a < k * 0x1_0000_0000 <= a + size
  {
    if CrossesBoundary(a, size) {
      Reaches(a, size);
      var k := Boundary(a);
      assert a < k * 0x1_0000_0000 <= a + size;
    }
    if k: nat :| a < k * 0x1_0000_0000 <= a + size {
      assert a / W32 < k <= (a + size) / W32;
    }
  }

  /** Blocks of one size that cross the same boundary overlap. */
  lemma CrossersOverlap(a: nat, b: nat, size: nat)
    requires CrossesBoundary(a, size) && CrossesBoundary(b, size) && Boundary(a) == Boundary(b)
    ensures Overlap(a, size, b, size)
  {
    Reaches(a, size);
    Reaches(b, size);
  }

  lemma Reaches(a: nat, size: nat)
    requires CrossesBoundary(a, size)
    ensures a < Boundary(a) * W32 <= a + size
  {
    assert a == a / W32 * W32 + a % W32;
    assert a + size == (a + size) / W32 * W32 + (a + size) % W32;
  }

  /** The live blocks on the list were all rejected. */
  ghost predicate Rejected(list: AddressList, reserved: map<nat, nat>, size: nat) {
    && NoRepeats(list)
    && forall b | b in Addresses(list) :: b in reserved && reserved[b] == size && CrossesBoundary(b, size)
  }

  function Crossed(list: AddressList): (s: set<nat>)
    ensures forall n | n in s :: exists b | b in Addresses(list) :: n == Boundary(b)
  {
    match list
    case Nil => {}
    case Node(address, next) => {Boundary(address)} + Crossed(next)
  }

  lemma {:induction false} CrossedOnce(list: AddressList, reserved: map<nat, nat>, size: nat)
    requires Consistent(reserved) && Rejected(list, reserved, size)
    ensures |Crossed(list)| == |Addresses(list)|
  {
    hide Overlap, CrossesBoundary;
    if list.Nil? {
    } else {
      CrossedOnce(list.next, reserved, size);
      forall b | b in Addresses(list.next) ensures Boundary(b) != Boundary(list.address) {
        assert b in Addresses(list) && list.address in Addresses(list);
        if Boundary(b) == Boundary(list.address) {
          CrossersOverlap(b, list.address, size);
        }
      }
    }
  }

  /** The numbers from 1 to n. */
  function UpTo(n: nat): (s: set<nat>)
    ensures |s| == n
    ensures forall k: nat :: k in s <==> 0 < k <= n
  {
    if n == 0 then {} else UpTo(n - 1) + {n}
  }

  lemma {:induction false} SubsetIsSmaller(a: set<nat>, b: set<nat>)
    requires a <= b
    ensures |a| <= |b|
  {
    if a == {} {
    } else {
      var x :| x in a;
      SubsetIsSmaller(a - {x}, b - {x});
    }
  }

  lemma CountUpTo(s: set<nat>, n: nat)
    requires forall k | k in s :: 0 < k <= n
    ensures |s| <= n
  {
    SubsetIsSmaller(s, UpTo(n));
  }

  /** Every rejected block covers a boundary of its own, and the user half has only so many. */
  lemma RejectedAreFew(list: AddressList, reserved: map<nat, nat>, size: nat)
    requires Consistent(reserved) && Rejected(list, reserved, size)
    ensures |Addresses(list)| <= BOUNDARIES
  {
    hide CrossesBoundary, Overlap;
    CrossedOnce(list, reserved, size);
    forall n | n in Crossed(list) ensures 0 < n <= BOUNDARIES {
      var b :| b in Addresses(list) && n == Boundary(b);
      Reaches(b, size);
      assert b in reserved;
    }
    CountUpTo(Crossed(list), BOUNDARIES);
  }

  /** base and the rejected blocks are live, and without them the reservations are the rest. */
  ghost predicate Retried(reserved: map<nat, nat>, base: nat, list: AddressList, size: nat, rest: map<nat, nat>) {
    && base in reserved && reserved[base] == size && base !in Addresses(list)
    && Rejected(list, reserved, size)
    && reserved - ({base} + Blocks(list)) == rest
  }

  /** Rejecting base, and getting another block. */
  lemma Retry(reserved: map<nat, nat>, base: nat, list: AddressList, size: nat, rest: map<nat, nat>, base': nat)
    requires Retried(reserved, base, list, size, rest) && CrossesBoundary(base, size)
    ensures Rejected(Node(base, list), reserved, size) && reserved - Blocks(Node(base, list)) == rest
    ensures base' !in reserved ==> Retried(reserved[base' := size], base', Node(base, list), size, rest)
  {
    hide CrossesBoundary;
    assert Blocks(Node(base, list)) == {base} + Blocks(list);
    if base' !in reserved {
      var reserved' := reserved[base' := size];
      assert reserved' - ({base'} + Blocks(Node(base, list))) == rest;
    }
  }
}
