/**
 Boot-time allocation (mm/memblock.c): the top-down search over the free ranges, allocation and
 freeing, and the enforcement of a memory limit.
 */
module MemblockAlloc {
  import opened Helpers
  import opened MemblockRegions
  import opened MemblockTypes

  const PAGE_SIZE: nat := 4096
  const SMP_CACHE_BYTES: nat := 64

  /** The end value that stands for the current limit. */
  const ALLOC_ACCESSIBLE: nat := 0

  /**
   The ranges that `for_each_free_mem_range_reverse` walks, here in ascending order: what is in a
   region of memory and in no reserved region.
   */
  function FreeRanges(memory: seq<Region>, reserved: seq<Region>): seq<Range> {
    if memory == [] then []
    else Gaps(reserved, memory[0].base, End(memory[0])) + FreeRanges(memory[1..], reserved)
  }

  /** The node selector for all nodes. */
  const NUMA_NO_NODE: int := -1

  /** The regions of a node. */
  function OfNode(rs: seq<Region>, nid: int): seq<Region> {
    if rs == [] then []
    else (if nid == NUMA_NO_NODE || rs[0].nid == nid then [rs[0]] else []) + OfNode(rs[1..], nid)
  }

  /** The address is covered, by a region of the node. */
  predicate OnNode(rs: seq<Region>, nid: int, a: int) {
    TagAt(rs, a) != NoTag && (nid == NUMA_NO_NODE || TagAt(rs, a).nid == nid)
  }

  predicate Has(r: Range, a: int) { r.start <= a < r.end }

  /** Ranges that are not empty, in address order, from lo up to hi. */
  predicate Ascending(ranges: seq<Range>, lo: nat, hi: nat) {
    && (forall i | 0 <= i < |ranges| :: lo <= ranges[i].start < ranges[i].end <= hi)
    && (forall i, j | 0 <= i < j < |ranges| :: ranges[i].end <= ranges[j].start)
  }

  predicate Any(ranges: seq<Range>, a: int) {
    exists i :: 0 <= i < |ranges| && Has(ranges[i], a)
  }

  lemma AnyAppend(u: seq<Range>, v: seq<Range>, a: int)
    ensures Any(u + v, a) <==> Any(u, a) || Any(v, a)
  {
    if Any(u, a) {
      var i :| 0 <= i < |u| && Has(u[i], a);
      assert Has((u + v)[i], a);
    }
    if Any(v, a) {
      var i :| 0 <= i < |v| && Has(v[i], a);
      assert Has((u + v)[|u| + i], a);
    }
    if Any(u + v, a) {
      var i :| 0 <= i < |u + v| && Has((u + v)[i], a);
      if i < |u| {
        assert Has(u[i], a);
      } else {
        assert Has(v[i - |u|], a);
      }
    }
  }

  lemma AnyOne(r: Range, a: int)
    ensures Any([r], a) <==> Has(r, a)
  {
    if Has(r, a) {
      assert Has([r][0], a);
    }
  }

  lemma AscendingAppend(u: seq<Range>, v: seq<Range>, lo: nat, mid: nat, mid': nat, hi: nat)
    requires Ascending(u, lo, mid) && Ascending(v, mid', hi) && lo <= mid <= mid' <= hi
    ensures Ascending(u + v, lo, hi)
  {
  }

  predicate Sorted(rs: seq<Region>) {
    forall i, j | 0 <= i < j < |rs| :: End(rs[i]) <= rs[j].base
  }

  /** The gaps of a range are exactly its addresses that no region covers. */
  lemma {:induction false} GapsExact(rs: seq<Region>, base: nat, end: nat)
    requires Sorted(rs) && base <= end
    ensures Ascending(Gaps(rs, base, end), base, end)
    ensures forall a :: Any(Gaps(rs, base, end), a) <==> base <= a < end && !In(rs, a)
    decreases |rs|
  {
    hide In, Any;
    if base == end {
      forall a ensures !Any([], a) { AnyEmpty(a); }
    } else if rs == [] || rs[0].base >= end {
      forall a ensures Any(Gaps(rs, base, end), a) <==> base <= a < end && !In(rs, a) {
        AnyOne(Range(base, end), a);
        AboveEnd(rs, end, a);
      }
    } else {
      var r, rest := rs[0], rs[1..];
      var base' := NextBase(r, base, end);
      GapsExact(rest, base', end);
      if End(r) > base {
        var first := if r.base > base then [Range(base, r.base)] else [];
        AscendingAppend(first, Gaps(rest, base', end), base, if r.base > base then r.base else base, base', end);
      }
      forall a ensures Any(Gaps(rs, base, end), a) <==> base <= a < end && !In(rs, a) {
        InCons(rs, a);
        BehindFirst(rs, a);
        if End(r) > base {
          var first := if r.base > base then [Range(base, r.base)] else [];
          AnyAppend(first, Gaps(rest, base', end), a);
          if r.base > base {
            AnyOne(Range(base, r.base), a);
          } else {
            AnyEmpty(a);
          }
        }
      }
    }
  }

  lemma AnyEmpty(a: int)
    ensures !Any([], a)
  {
  }

  lemma AboveEnd(rs: seq<Region>, end: nat, a: int)
    requires Sorted(rs) && (rs == [] || rs[0].base >= end)
    ensures a < end ==> !In(rs, a)
  {
  }

  lemma BehindFirst(rs: seq<Region>, a: int)
    requires Sorted(rs) && rs != []
    ensures In(rs[1..], a) ==> End(rs[0]) <= a
  {
    if In(rs[1..], a) {
      var i :| 0 <= i < |rs[1..]| && Inside(rs[1..][i], a);
      assert rs[1..][i] == rs[i + 1];
    }
  }

  /** The free ranges are in order, and hold exactly the addresses in memory that are not reserved. */
  lemma {:induction false} FreeExact(memory: seq<Region>, reserved: seq<Region>, lo: nat)
    requires Sorted(memory) && Sorted(reserved)
             && (forall i | 0 <= i < |memory| :: lo <= memory[i].base && End(memory[i]) <= ADDR_MAX)
    requires lo <= ADDR_MAX
    ensures Ascending(FreeRanges(memory, reserved), lo, ADDR_MAX)
    ensures forall a :: Any(FreeRanges(memory, reserved), a) <==> In(memory, a) && !In(reserved, a)
    decreases |memory|
  {
    hide In, Any, Gaps;
    if memory == [] {
      forall a ensures !Any([], a) && !In(memory, a) { AnyEmpty(a); InEmpty(memory, a); }
    } else {
      var m, rest := memory[0], memory[1..];
      GapsExact(reserved, m.base, End(m));
      FreeExact(rest, reserved, End(m));
      AscendingAppend(Gaps(reserved, m.base, End(m)), FreeRanges(rest, reserved), lo, End(m), End(m), ADDR_MAX);
      forall a ensures Any(FreeRanges(memory, reserved), a) <==> In(memory, a) && !In(reserved, a) {
        AnyAppend(Gaps(reserved, m.base, End(m)), FreeRanges(rest, reserved), a);
        InCons(memory, a);
      }
    }
  }

  lemma InEmpty(rs: seq<Region>, a: int)
    requires rs == []
    ensures !In(rs, a)
  {
  }

  // -------------------------------------------------------------------- nodes

  lemma {:induction false} OfNodeSorted(rs: seq<Region>, nid: int, lo: nat)
    requires Sorted(rs) && forall i | 0 <= i < |rs| :: lo <= rs[i].base && End(rs[i]) <= ADDR_MAX
    ensures Sorted(OfNode(rs, nid)) && forall r <- OfNode(rs, nid) :: lo <= r.base && End(r) <= ADDR_MAX
    decreases |rs|
  {
    if rs != [] {
      OfNodeSorted(rs[1..], nid, End(rs[0]));
      assert lo <= End(rs[0]);
    }
  }

  /** In a sorted list, the regions of a node cover exactly the addresses whose region is on the node. */
  lemma {:induction false} OfNodeIn(rs: seq<Region>, nid: int, a: int)
    requires Sorted(rs)
    ensures In(OfNode(rs, nid), a) <==> OnNode(rs, nid, a)
    decreases |rs|
  {
    hide In;
    if rs == [] {
      InEmpty(OfNode(rs, nid), a);
    } else {
      OfNodeIn(rs[1..], nid, a);
      BehindFirst(rs, a);
      TagIn(rs[1..], a);
      var rest := OfNode(rs[1..], nid);
      if nid == NUMA_NO_NODE || rs[0].nid == nid {
        InCons([rs[0]] + rest, a);
        assert ([rs[0]] + rest)[1..] == rest;
      } else {
        assert [] + rest == rest;
      }
    }
  }

  lemma OnNodeIn(rs: seq<Region>, nid: int, a: int)
    ensures OnNode(rs, nid, a) ==> In(rs, a)
    ensures nid == NUMA_NO_NODE ==> (OnNode(rs, nid, a) <==> In(rs, a))
  {
    hide In, TagAt;
    TagIn(rs, a);
  }

  // ---------------------------------------------------------------- searching

  function Clamp(x: nat, lo: nat, hi: nat): nat {
    if x < lo then lo else if x > hi then hi else x
  }

  /** `round_down` */
  function RoundDown(x: nat, align: nat): (r: nat)
    requires align > 0
    ensures r <= x && r % align == 0 && forall c: nat | c <= x && c % align == 0 :: c <= r
  {
    RoundDownFacts(x, align);
    x - x % align
  }

  lemma RoundDownFacts(x: nat, align: nat)
    requires align > 0
    ensures (x - x % align) % align == 0
    ensures forall c: nat | c <= x && c % align == 0 :: c <= x - x % align
  {
    var q := x / align;
    assert x - x % align == align * q;
    DivUnique(align * q, align, q, 0);
    forall c: nat | c <= x && c % align == 0 ensures c <= align * q {
      assert c == align * (c / align);
      QuotientMono(c, x, align);
      MulMono(align, c / align, q);
    }
  }

  /** An aligned block at c fits into the range and the window. */
  predicate Fits(r: Range, start: nat, end: nat, size: nat, align: nat, c: nat)
    requires align > 0
  {
    c % align == 0 && r.start <= c && start <= c && c + size <= r.end && c + size <= end
  }

  predicate Meets(r: Range, start: nat, end: nat) { r.start <= end && start <= r.end }

  /**
   The candidate of a range that passes the search's test lies in that range unless the request is
   empty and the range lies outside of the window.
   */
  lemma CandidateFits(r: Range, start: nat, end: nat, size: nat, align: nat)
    requires align > 0 && 0 < start <= end && r.start < r.end
    requires Clamp(r.end, start, end) >= size
             && RoundDown(Clamp(r.end, start, end) - size, align) >= Clamp(r.start, start, end)
    ensures var cand := RoundDown(Clamp(r.end, start, end) - size, align);
            && start <= cand && cand + size <= end
            && (Fits(r, start, end, size, align, cand) <==> size > 0 || Meets(r, start, end))
  {
  }

  /** An empty request in a window above all memory gets an address outside of memory. */
  lemma EmptyRequestEscapes()
    ensures var r := Range(0x1000, 0x2000);
            var cand := RoundDown(Clamp(r.end, 0x3000, 0x4000) - 0, 0x1000);
            cand >= Clamp(r.start, 0x3000, 0x4000) && !Fits(r, 0x3000, 0x4000, 0, 0x1000, cand)
  {
  }

  /** Within one range, the block just below the end is the highest that fits, if any does. */
  lemma HighestInRange(r: Range, start: nat, end: nat, size: nat, align: nat)
    requires align > 0 && (size > 0 || Meets(r, start, end)) && 0 < start <= end && r.start < r.end
    ensures var lo := Clamp(r.start, start, end);
            var hi := Clamp(r.end, start, end);
            if hi >= size && RoundDown(hi - size, align) >= lo then
              var cand := RoundDown(hi - size, align);
              Fits(r, start, end, size, align, cand) && forall c: nat | Fits(r, start, end, size, align, c) :: c <= cand
            else forall c: nat :: !Fits(r, start, end, size, align, c)
  {
    var lo := Clamp(r.start, start, end);
    var hi := Clamp(r.end, start, end);
    if hi >= size {
      var cand := RoundDown(hi - size, align);
      forall c: nat | Fits(r, start, end, size, align, c) ensures c <= cand && lo <= cand {
        assert c <= hi - size;
      }
    }
  }

  /** No block fits into a range from index i on. */
  ghost predicate NoneFrom(ranges: seq<Range>, i: int, start: nat, end: nat, size: nat, align: nat)
    requires align > 0
  {
    forall j, c: nat | 0 <= i <= j < |ranges| :: !Fits(ranges[j], start, end, size, align, c)
  }

  /** The block at c fits into one of the ranges, and no block that fits starts higher. */
  ghost predicate Highest(ranges: seq<Range>, start: nat, end: nat, size: nat, align: nat, c: nat)
    requires align > 0
  {
    && (exists i :: 0 <= i < |ranges| && Fits(ranges[i], start, end, size, align, c))
    && (forall j, d: nat | 0 <= j < |ranges| && Fits(ranges[j], start, end, size, align, d) :: d <= c)
  }

  /** The candidate of the last range whose candidate does not lie below its start, also for empty requests. */
  function TopDown(ranges: seq<Range>, start: nat, end: nat, size: nat, align: nat): nat
    requires align > 0
  {
    if ranges == [] then 0
    else
      var r := ranges[|ranges| - 1];
      var hi := Clamp(r.end, start, end);
      if hi >= size && RoundDown(hi - size, align) >= Clamp(r.start, start, end) then RoundDown(hi - size, align)
      else TopDown(ranges[..|ranges| - 1], start, end, size, align)
  }

  /** `__memblock_find_range_top_down`; 0 means that no block fits. */
  method FindTopDown(ranges: seq<Range>, start: nat, end: nat, size: nat, align: nat) returns (found: nat)
    requires Ascending(ranges, 0, ADDR_MAX) && 0 < start <= end && align > 0
    ensures found == TopDown(ranges, start, end, size, align)
    ensures found == 0 ==> NoneFrom(ranges, 0, start, end, size, align)
    ensures found != 0 ==> found % align == 0 && start <= found && found + size <= end
    ensures found != 0 && size > 0 ==> Highest(ranges, start, end, size, align, found)
  {
    hide RoundDown, TopDown;
    assert ranges[..|ranges|] == ranges;
    for i := |ranges| downto 0
      invariant NoneFrom(ranges, i, start, end, size, align)
      invariant TopDown(ranges[..i], start, end, size, align) == TopDown(ranges, start, end, size, align)
    {
      var r := ranges[i];
      TopDownNext(ranges, i, start, end, size, align);
      if size > 0 || Meets(r, start, end) {
        HighestInRange(r, start, end, size, align);
      }
      var thisStart := Clamp(r.start, start, end);
      var thisEnd := Clamp(r.end, start, end);
      if thisEnd < size {
        continue;
      }
      var cand := RoundDown(thisEnd - size, align);
      if cand >= thisStart {
        CandidateFits(r, start, end, size, align);
        return cand;
      }
    }
    TopDownNone(ranges[..0], start, end, size, align);
    return 0;
  }

  lemma TopDownNext(ranges: seq<Range>, i: nat, start: nat, end: nat, size: nat, align: nat)
    requires i < |ranges| && align > 0
    ensures TopDown(ranges[..i + 1], start, end, size, align) ==
            var hi := Clamp(ranges[i].end, start, end);
            if hi >= size && RoundDown(hi - size, align) >= Clamp(ranges[i].start, start, end)
            then RoundDown(hi - size, align)
            else TopDown(ranges[..i], start, end, size, align)
  {
    assert ranges[..i + 1][..i] == ranges[..i];
  }

  lemma TopDownNone(ranges: seq<Range>, start: nat, end: nat, size: nat, align: nat)
    requires ranges == [] && align > 0
    ensures TopDown(ranges, start, end, size, align) == 0
  {
  }

  // --------------------------------------------------------------- allocation

  predicate Apart(x: Range, y: Range) { x.end <= y.start || y.end <= x.start }

  /** Every address of the range is covered. */
  ghost predicate Holds(rs: seq<Region>, r: Range) {
    forall a | Has(r, a) :: In(rs, a)
  }

  lemma ListSorted(rs: seq<Region>)
    requires Flat(rs) || (|rs| == 1 && rs[0].base == 0 && rs[0].size == 0)
    ensures Sorted(rs) && forall i | 0 <= i < |rs| :: End(rs[i]) <= ADDR_MAX
  {
  }

  /** A block in a free range is in memory of the node and touches nothing reserved. */
  lemma FreeBlock(memory: seq<Region>, reserved: seq<Region>, nid: int, start: nat, end: nat, size: nat, align: nat,
                  c: nat)
    requires Sorted(memory) && Sorted(reserved) && forall i | 0 <= i < |memory| :: End(memory[i]) <= ADDR_MAX
    requires align > 0 && size > 0 && Highest(FreeRanges(OfNode(memory, nid), reserved), start, end, size, align, c)
    ensures c + size <= ADDR_MAX && c + size <= end && start <= c && c % align == 0
    ensures forall a | c <= a < c + size :: In(memory, a) && OnNode(memory, nid, a) && !In(reserved, a)
  {
    hide In, OfNode, OnNode, FreeRanges;
    OfNodeSorted(memory, nid, 0);
    FreeExact(OfNode(memory, nid), reserved, 0);
    var ranges := FreeRanges(OfNode(memory, nid), reserved);
    var i :| 0 <= i < |ranges| && Fits(ranges[i], start, end, size, align, c);
    forall a | c <= a < c + size ensures In(memory, a) && OnNode(memory, nid, a) && !In(reserved, a) {
      assert Has(ranges[i], a);
      OfNodeIn(memory, nid, a);
      OnNodeIn(memory, nid, a);
    }
  }

  // --------------------------------------------------------- blocks of addresses

  /** The size addresses from c on are memory of the node, all with the same node and flags, and not reserved. */
  ghost predicate FreeAt(memory: seq<Region>, reserved: seq<Region>, nid: int, c: nat, size: nat) {
    forall a | c <= a < c + size ::
      OnNode(memory, nid, a) && TagAt(memory, a) == TagAt(memory, c) && !In(reserved, a)
  }

  /** A gap ends where the range does or where something is covered. */
  lemma {:induction false} GapEnds(rs: seq<Region>, base: nat, end: nat)
    requires Sorted(rs) && forall r <- rs :: r.size > 0 || r.base == 0
    ensures forall g <- Gaps(rs, base, end) :: g.end == end || In(rs, g.end)
    decreases |rs|
  {
    hide In;
    if base < end && rs != [] && rs[0].base < end {
      var next := NextBase(rs[0], base, end);
      GapEnds(rs[1..], next, end);
      forall g | g in Gaps(rs, base, end) ensures g.end == end || In(rs, g.end) {
        InCons(rs, g.end);
      }
    }
  }

  /** Addresses in a row that no region covers lie in one gap. */
  lemma InOneGap(rs: seq<Region>, base: nat, end: nat, c: nat, hi: nat) returns (g: Range)
    requires Sorted(rs) && (forall r <- rs :: r.size > 0 || r.base == 0) && base <= c < hi <= end
    requires forall a | c <= a < hi :: !In(rs, a)
    ensures g in Gaps(rs, base, end) && g.start <= c && hi <= g.end
  {
    hide In, Gaps;
    GapsExact(rs, base, end);
    GapEnds(rs, base, end);
    assert Any(Gaps(rs, base, end), c);
    var i :| 0 <= i < |Gaps(rs, base, end)| && Has(Gaps(rs, base, end)[i], c);
    g := Gaps(rs, base, end)[i];
  }

  /** Addresses in a row with the same tag lie in one region of a merged list. */
  lemma {:induction false} InOneRegion(rs: seq<Region>, c: nat, hi: nat) returns (r: Region)
    requires Flat(rs) && Merged(rs) && c < hi
    requires forall a | c <= a < hi :: TagAt(rs, a) == TagAt(rs, c) != NoTag
    ensures r in rs && r.base <= c && hi <= End(r) && TagAt(rs, c) == Tag(r.nid, r.flags)
    decreases |rs|
  {
    hide Flat, Merged, TagAt;
    Covers(rs, c);
    if c < End(rs[0]) {
      FirstTag(rs, c);
      TagChanges(rs);
      r := rs[0];
    } else {
      FlatTail(rs);
      MergedTail(rs);
      forall a | c <= a < hi ensures TagAt(rs[1..], a) == TagAt(rs, a) {
        TagTail(rs, a);
      }
      TagTail(rs, c);
      r := InOneRegion(rs[1..], c, hi);
    }
  }

  lemma Covers(rs: seq<Region>, a: int)
    requires TagAt(rs, a) != NoTag
    ensures rs != []
  {
  }

  lemma FirstTag(rs: seq<Region>, a: int)
    requires Flat(rs) && rs != [] && a < End(rs[0]) && TagAt(rs, a) != NoTag
    ensures rs[0].base <= a && TagAt(rs, a) == Tag(rs[0].nid, rs[0].flags)
  {
    FlatTail(rs);
    if a < rs[0].base {
      TagBelow(rs, a);
    }
  }

  lemma {:induction false} TagInside(rs: seq<Region>, r: Region, a: int)
    requires Flat(rs) && r in rs && Inside(r, a)
    ensures TagAt(rs, a) == Tag(r.nid, r.flags)
    decreases |rs|
  {
    hide Flat, TagAt;
    FlatTail(rs);
    if r == rs[0] {
      assert rs == [r] + rs[1..];
      TagCons(r, rs[1..], a);
    } else {
      TagInside(rs[1..], r, a);
      TagTail(rs, a);
    }
  }

  /** The free ranges are the gaps of the single regions. */
  lemma {:induction false} FreeRangesOf(memory: seq<Region>, reserved: seq<Region>, g: Range)
    ensures g in FreeRanges(memory, reserved) <==>
            exists r :: r in memory && g in Gaps(reserved, r.base, End(r))
    decreases |memory|
  {
    hide Gaps;
    if memory != [] {
      FreeRangesOf(memory[1..], reserved, g);
      assert memory == [memory[0]] + memory[1..];
    }
  }

  lemma {:induction false} OfNodeHas(rs: seq<Region>, nid: int, r: Region)
    ensures r in OfNode(rs, nid) <==> r in rs && (nid == NUMA_NO_NODE || r.nid == nid)
    decreases |rs|
  {
    if rs != [] {
      OfNodeHas(rs[1..], nid, r);
      assert rs == [rs[0]] + rs[1..];
    }
  }

  lemma FlatSizes(rs: seq<Region>)
    requires Flat(rs) || (|rs| == 1 && rs[0].base == 0 && rs[0].size == 0)
    ensures forall r <- rs :: r.size > 0 || r.base == 0
  {
  }

  /** A block of free addresses with one tag lies in one of the free ranges that are searched. */
  lemma BlockInRange(memory: seq<Region>, reserved: seq<Region>, nid: int, c: nat, size: nat) returns (i: nat)
    requires Flat(memory) && Merged(memory) && size > 0
    requires Flat(reserved) || (|reserved| == 1 && reserved[0].base == 0 && reserved[0].size == 0)
    requires FreeAt(memory, reserved, nid, c, size)
    ensures var ranges := FreeRanges(OfNode(memory, nid), reserved);
            i < |ranges| && ranges[i].start <= c && c + size <= ranges[i].end
  {
    hide Flat, Merged, TagAt, In, OfNode, FreeRanges, Gaps, Sorted;
    assert OnNode(memory, nid, c);
    var r := InOneRegion(memory, c, c + size);
    OfNodeHas(memory, nid, r);
    ListSorted(reserved);
    FlatSizes(reserved);
    var g := InOneGap(reserved, r.base, End(r), c, c + size);
    FreeRangesOf(OfNode(memory, nid), reserved, g);
    i :| 0 <= i < |FreeRanges(OfNode(memory, nid), reserved)| && FreeRanges(OfNode(memory, nid), reserved)[i] == g;
  }

  /** And a block in one of them consists of free addresses with one tag. */
  lemma RangeIsFree(memory: seq<Region>, reserved: seq<Region>, nid: int, i: nat, c: nat, size: nat)
    requires Flat(memory) && size > 0
    requires Flat(reserved) || (|reserved| == 1 && reserved[0].base == 0 && reserved[0].size == 0)
    requires var ranges := FreeRanges(OfNode(memory, nid), reserved);
             i < |ranges| && ranges[i].start <= c && c + size <= ranges[i].end
    ensures FreeAt(memory, reserved, nid, c, size)
  {
    hide Flat, TagAt, In, OfNode, FreeRanges, Gaps, Sorted;
    var g := FreeRanges(OfNode(memory, nid), reserved)[i];
    FreeRangesOf(OfNode(memory, nid), reserved, g);
    var r :| r in OfNode(memory, nid) && g in Gaps(reserved, r.base, End(r));
    OfNodeHas(memory, nid, r);
    ListSorted(reserved);
    GapInside(reserved, r, g, c, size);
    forall a | c <= a < c + size
      ensures OnNode(memory, nid, a) && TagAt(memory, a) == TagAt(memory, c) && !In(reserved, a)
    {
      TagInside(memory, r, a);
      TagInside(memory, r, c);
    }
  }

  lemma GapInside(rs: seq<Region>, r: Region, g: Range, c: nat, size: nat)
    requires Sorted(rs) && g in Gaps(rs, r.base, End(r)) && g.start <= c && c + size <= g.end
    ensures r.base <= g.start && g.end <= End(r) && forall a | c <= a < c + size :: !In(rs, a)
  {
    hide In, Gaps;
    GapsExact(rs, r.base, End(r));
    var j :| 0 <= j < |Gaps(rs, r.base, End(r))| && Gaps(rs, r.base, End(r))[j] == g;
    forall a | c <= a < c + size ensures !In(rs, a) {
      assert Has(Gaps(rs, r.base, End(r))[j], a);
      assert Any(Gaps(rs, r.base, End(r)), a);
    }
  }

  /** An aligned block in the window, of free addresses with one tag. */
  ghost predicate Suits(memory: seq<Region>, reserved: seq<Region>, nid: int, start: nat, end: nat, size: nat,
                        align: nat, c: nat)
    requires align > 0
  {
    c % align == 0 && start <= c && c + size <= end && FreeAt(memory, reserved, nid, c, size)
  }

  /**
   What the search says of ranges holds of addresses: a block fits into a range exactly if it suits, so
   that 0 means that none suits, and otherwise the highest one has been found.
   */
  lemma SearchExact(memory: seq<Region>, reserved: seq<Region>, nid: int, start: nat, end: nat, size: nat, align: nat,
                    found: nat)
    requires Flat(memory) || (|memory| == 1 && memory[0].base == 0 && memory[0].size == 0)
    requires Flat(reserved) || (|reserved| == 1 && reserved[0].base == 0 && reserved[0].size == 0)
    requires Merged(memory) && align > 0 && size > 0
    ensures var ranges := FreeRanges(OfNode(memory, nid), reserved);
            && (NoneFrom(ranges, 0, start, end, size, align) <==>
                forall c: nat :: !Suits(memory, reserved, nid, start, end, size, align, c))
            && (Highest(ranges, start, end, size, align, found) <==>
                && Suits(memory, reserved, nid, start, end, size, align, found)
                && forall c: nat | Suits(memory, reserved, nid, start, end, size, align, c) :: c <= found)
  {
    hide Flat, Merged, OfNode, FreeRanges, FitsSome, Suits;
    var ranges := FreeRanges(OfNode(memory, nid), reserved);
    forall c: nat
      ensures Suits(memory, reserved, nid, start, end, size, align, c) <==>
              FitsSome(ranges, start, end, size, align, c)
    {
      SuitsFits(memory, reserved, nid, start, end, size, align, c);
    }
    SearchSome(ranges, start, end, size, align, found);
  }

  /** An aligned block at c fits into one of the ranges and the window. */
  ghost predicate FitsSome(ranges: seq<Range>, start: nat, end: nat, size: nat, align: nat, c: nat)
    requires align > 0
  {
    exists i :: 0 <= i < |ranges| && Fits(ranges[i], start, end, size, align, c)
  }

  lemma SearchSome(ranges: seq<Range>, start: nat, end: nat, size: nat, align: nat, found: nat)
    requires align > 0
    ensures NoneFrom(ranges, 0, start, end, size, align) <==>
            forall c: nat :: !FitsSome(ranges, start, end, size, align, c)
    ensures Highest(ranges, start, end, size, align, found) <==>
            && FitsSome(ranges, start, end, size, align, found)
            && forall c: nat | FitsSome(ranges, start, end, size, align, c) :: c <= found
  {
    hide Fits;
    if forall c: nat :: !FitsSome(ranges, start, end, size, align, c) {
      forall j, c: nat | 0 <= j < |ranges| ensures !Fits(ranges[j], start, end, size, align, c) {
        assert !FitsSome(ranges, start, end, size, align, c);
      }
    }
    if forall c: nat | FitsSome(ranges, start, end, size, align, c) :: c <= found {
      forall j, d: nat | 0 <= j < |ranges| && Fits(ranges[j], start, end, size, align, d) ensures d <= found {
        assert FitsSome(ranges, start, end, size, align, d);
      }
    }
  }

  lemma SuitsFits(memory: seq<Region>, reserved: seq<Region>, nid: int, start: nat, end: nat, size: nat, align: nat,
                  c: nat)
    requires Flat(memory) || (|memory| == 1 && memory[0].base == 0 && memory[0].size == 0)
    requires Flat(reserved) || (|reserved| == 1 && reserved[0].base == 0 && reserved[0].size == 0)
    requires Merged(memory) && align > 0 && size > 0
    ensures var ranges := FreeRanges(OfNode(memory, nid), reserved);
            Suits(memory, reserved, nid, start, end, size, align, c) <==> FitsSome(ranges, start, end, size, align, c)
  {
    hide Flat, Merged, OfNode, FreeRanges, FreeAt;
    var ranges := FreeRanges(OfNode(memory, nid), reserved);
    if !Flat(memory) {
      NothingFree(memory, reserved, nid, c, size);
    } else {
      if Suits(memory, reserved, nid, start, end, size, align, c) {
        var i := BlockInRange(memory, reserved, nid, c, size);
        assert Fits(ranges[i], start, end, size, align, c);
      }
      forall i | 0 <= i < |ranges| && Fits(ranges[i], start, end, size, align, c)
        ensures FreeAt(memory, reserved, nid, c, size)
      {
        RangeIsFree(memory, reserved, nid, i, c, size);
      }
    }
  }

  lemma NothingFree(memory: seq<Region>, reserved: seq<Region>, nid: int, c: nat, size: nat)
    requires |memory| == 1 && memory[0].base == 0 && memory[0].size == 0 && size > 0
    ensures FreeRanges(OfNode(memory, nid), reserved) == [] && !FreeAt(memory, reserved, nid, c, size)
  {
    hide In;
    assert memory[1..] == [];
    assert TagAt(memory[1..], c) == NoTag && OfNode(memory[1..], nid) == [];
    assert !OnNode(memory, nid, c);
    var list := OfNode(memory, nid);
    if list != [] {
      assert list == [memory[0]] + [];
      assert list[1..] == [] && FreeRanges(list[1..], reserved) == [];
    }
  }

  ghost predicate Separate(live: set<Range>, memory: seq<Region>, reserved: seq<Region>) {
    && (forall r <- live :: r.start < r.end && Holds(memory, r) && Holds(reserved, r))
    && (forall x <- live, y <- live | x != y :: Apart(x, y))
  }

  /** Reserving a free block of memory adds it to the live blocks. */
  lemma LiveAdd(live: set<Range>, memory: seq<Region>, was: seq<Region>, reserved: seq<Region>, block: Range)
    requires Separate(live, memory, was) && block.start < block.end
    requires forall a | Has(block, a) :: In(memory, a) && !In(was, a)
    requires forall a :: In(reserved, a) <==> In(was, a) || Has(block, a)
    ensures Separate(live + {block}, memory, reserved)
  {
    hide In;
    forall r | r in live ensures Apart(r, block) && Holds(reserved, r) {
      ReservedApart(was, r, block);
    }
    assert Holds(memory, block) && Holds(reserved, block);
  }

  lemma SameLive(live: set<Range>, memory: seq<Region>, was: seq<Region>, reserved: seq<Region>)
    requires Separate(live, memory, was) && forall a :: In(reserved, a) <==> In(was, a)
    ensures Separate(live, memory, reserved)
  {
  }

  /** The live blocks that a range does not touch. */
  ghost function Surviving(live: set<Range>, freed: Range): set<Range> {
    set r <- live | Apart(r, freed)
  }

  /** Freeing a range leaves the live blocks reserved that it does not touch. */
  lemma LiveRemove(live: set<Range>, memory: seq<Region>, was: seq<Region>, reserved: seq<Region>, freed: Range)
    requires Separate(live, memory, was)
    requires forall a :: In(reserved, a) <==> In(was, a) && !Has(freed, a)
    ensures Separate(Surviving(live, freed), memory, reserved)
    ensures freed in live ==> Surviving(live, freed) == live - {freed}
  {
    hide In;
    forall r | r in Surviving(live, freed) ensures Holds(reserved, r) {
      assert Holds(was, r);
    }
  }

  /** More memory and more reservations leave the live blocks as they are. */
  lemma LiveGrow(live: set<Range>, mem: seq<Region>, res: seq<Region>, memory: seq<Region>, reserved: seq<Region>)
    requires Separate(live, mem, res)
    requires (forall a | In(mem, a) :: In(memory, a)) && forall a | In(res, a) :: In(reserved, a)
    ensures Separate(live, memory, reserved)
  {
    hide In;
    forall r | r in live ensures Holds(memory, r) && Holds(reserved, r) {
      assert Holds(mem, r) && Holds(res, r);
    }
  }

  /** The live blocks that end at or below the cut. */
  ghost function BelowCut(live: set<Range>, cut: nat): set<Range> {
    set r <- live | r.end <= cut
  }

  lemma LiveCut(live: set<Range>, mem: seq<Region>, res: seq<Region>, memory: seq<Region>, reserved: seq<Region>,
                cut: nat)
    requires Separate(live, mem, res)
    requires forall a :: In(memory, a) <==> In(mem, a) && a < cut
    requires forall a :: In(reserved, a) <==> In(res, a) && a < cut
    ensures Separate(BelowCut(live, cut), memory, reserved)
  {
    hide In;
    forall r | r in BelowCut(live, cut) ensures Holds(memory, r) && Holds(reserved, r) {
      assert Holds(mem, r) && Holds(res, r);
    }
  }

  class Memblock {
    const memory: MemblockType
    const reserved: MemblockType
    var currentLimit: nat
    /** The blocks that have been allocated and not freed. */
    ghost var live: set<Range>

    ghost predicate Valid()
      reads this, memory, reserved
    {
      && memory != reserved && currentLimit <= ADDR_MAX && memory.Valid() && reserved.Valid()
      && Merged(memory.regions) && Merged(reserved.regions)
    }

    /** Live blocks lie in memory and are reserved, and no two of them overlap. */
    ghost predicate LiveOk()
      reads this, memory, reserved
    {
      Separate(live, memory.regions, reserved.regions)
    }

    constructor ()
      ensures Valid() && LiveOk() && live == {} && fresh(memory) && fresh(reserved) && currentLimit == ADDR_MAX
      ensures memory.Dummy() && reserved.Dummy()
    {
      memory := new MemblockType();
      reserved := new MemblockType();
      currentLimit := ADDR_MAX;
      live := {};
    }

    /**
     `memblock_alloc_range_nid`: an aligned block in the window, never at address 0.  A block that
     is not empty was free memory and now is reserved; it is the highest block of free addresses with
     one node and flags, and 0 says that there is none.  Live blocks stay apart.
     */
    method AllocRange(size: nat, align0: nat, start0: nat, end0: nat, nid: int) returns (found: nat)
      requires Valid() && LiveOk() && start0 <= ADDR_MAX && end0 <= ADDR_MAX
      modifies reserved, this`live
      ensures Valid() && LiveOk()
      ensures var align := if align0 == 0 then SMP_CACHE_BYTES else align0;
              var start := if start0 < PAGE_SIZE then PAGE_SIZE else start0;
              var window := if end0 == ALLOC_ACCESSIBLE then currentLimit else end0;
              var end := if window < start then start else window;
              var free := old(FreeRanges(OfNode(memory.regions, nid), reserved.regions));
              && found == TopDown(free, start, end, size, align)
              && if found == 0 then
                   && (size > 0 ==> forall c: nat ::
                         !old(Suits(memory.regions, reserved.regions, nid, start, end, size, align, c)))
                   && NoneFrom(free, 0, start, end, size, align)
                   && live == old(live) && reserved.regions == old(reserved.regions)
                 else
                   && found % align == 0 && start <= found && found + size <= end
                   && (size > 0 ==>
                         && old(Suits(memory.regions, reserved.regions, nid, start, end, size, align, found))
                         && (forall c: nat
                               | old(Suits(memory.regions, reserved.regions, nid, start, end, size, align, c)) ::
                               c <= found))
                   && (size > 0 ==> Highest(free, start, end, size, align, found))
                   && live == old(live) + (if size > 0 then {Range(found, found + size)} else {})
                   && Grown(reserved.regions, old(reserved.regions), found, found + size, MAX_NUMNODES, 0)
                   && (forall a | found <= a < found + size ::
                         OnNode(memory.regions, nid, a) && !old(In(reserved.regions, a)))
                   && (forall a :: In(reserved.regions, a) <==>
                                   old(In(reserved.regions, a)) || found <= a < found + size)
    {
      hide In, Flat, Highest, NoneFrom, Fits, FreeRanges, Separate, OfNode, OnNode, Sorted, Suits, Merged,
           Grown;
      var align := if align0 == 0 then SMP_CACHE_BYTES else align0;
      var window := if end0 == ALLOC_ACCESSIBLE then currentLimit else end0;
      var start := if start0 < PAGE_SIZE then PAGE_SIZE else start0;
      var end := if window < start then start else window;
      ListSorted(memory.regions);
      ListSorted(reserved.regions);
      OfNodeSorted(memory.regions, nid, 0);
      FreeExact(OfNode(memory.regions, nid), reserved.regions, 0);
      var ranges := FreeRanges(OfNode(memory.regions, nid), reserved.regions);
      found := FindTopDown(ranges, start, end, size, align);
      if size > 0 {
        SearchExact(memory.regions, reserved.regions, nid, start, end, size, align, found);
      }
      if found != 0 {
        if size > 0 {
          FreeBlock(memory.regions, reserved.regions, nid, start, end, size, align, found);
        }
        Take(found, size);
      }
    }

    /** `memblock_add`: live blocks stay live. */
    method AddMemory(base: nat, size: nat)
      requires Valid() && base <= ADDR_MAX
      modifies memory
      ensures Valid() && (old(LiveOk()) ==> LiveOk())
      ensures Grown(memory.regions, old(memory.regions), base, base + CapSize(base, size), MAX_NUMNODES, 0)
      ensures forall a :: In(memory.regions, a) <==>
                          old(In(memory.regions, a)) || base <= a < base + CapSize(base, size)
    {
      hide In, Flat, Separate, Grown, Covered, Interval, Sum, TagAt, Merged;
      ghost var was := memory.regions;
      memory.AddRange(base, size, MAX_NUMNODES, 0);
      if old(LiveOk()) {
        LiveGrow(live, was, reserved.regions, memory.regions, reserved.regions);
      }
    }

    /** `memblock_reserve`: live blocks stay live. */
    method Reserve(base: nat, size: nat)
      requires Valid() && base <= ADDR_MAX
      modifies reserved
      ensures Valid() && (old(LiveOk()) ==> LiveOk())
      ensures Grown(reserved.regions, old(reserved.regions), base, base + CapSize(base, size), MAX_NUMNODES, 0)
      ensures forall a :: In(reserved.regions, a) <==>
                          old(In(reserved.regions, a)) || base <= a < base + CapSize(base, size)
    {
      hide In, Flat, Separate, Grown, Covered, Interval, Sum, TagAt, Merged;
      ghost var was := reserved.regions;
      reserved.AddRange(base, size, MAX_NUMNODES, 0);
      if old(LiveOk()) {
        LiveGrow(live, memory.regions, was, memory.regions, reserved.regions);
      }
    }

    method Take(base: nat, size: nat)
      requires Valid() && LiveOk() && base + size <= ADDR_MAX
      requires forall a | base <= a < base + size :: In(memory.regions, a) && !In(reserved.regions, a)
      modifies reserved, this`live
      ensures Valid() && LiveOk() && live == old(live) + (if size > 0 then {Range(base, base + size)} else {})
      ensures Grown(reserved.regions, old(reserved.regions), base, base + size, MAX_NUMNODES, 0)
      ensures forall a :: In(reserved.regions, a) <==> old(In(reserved.regions, a)) || base <= a < base + size
    {
      hide In, Flat, Separate, Grown, Covered, Interval, Sum, TagAt, Merged;
      ghost var was := reserved.regions;
      reserved.AddRange(base, size, MAX_NUMNODES, 0);
      if size > 0 {
        LiveAdd(live, memory.regions, was, reserved.regions, Range(base, base + size));
        live := live + {Range(base, base + size)};
      } else {
        SameLive(live, memory.regions, was, reserved.regions);
      }
    }

    /**
     `memblock_free`: exactly the range is no longer reserved, and every live block that it does not
     touch stays reserved; so freeing what was allocated undoes that allocation and no other.
     */
    method Free(base: nat, size: nat)
      requires Valid() && LiveOk() && base <= ADDR_MAX
      modifies reserved, this`live
      ensures Valid() && LiveOk()
      ensures var freed := Range(base, base + CapSize(base, size));
              && live == Surviving(old(live), freed)
              && (Range(base, base + size) in old(live) ==> live == old(live) - {Range(base, base + size)})
              && Shrunk(reserved.regions, old(reserved.regions), freed.start, freed.end)
              && forall a :: In(reserved.regions, a) <==> old(In(reserved.regions, a)) && !Has(freed, a)
    {
      hide In, Flat, Separate, Surviving, Shrunk, Merged;
      ghost var was := reserved.regions;
      ghost var freed := Range(base, base + CapSize(base, size));
      if Range(base, base + size) in live {
        LiveBelowMax(live, memory.regions, was, Range(base, base + size));
      }
      reserved.RemoveRange(base, size);
      LiveRemove(live, memory.regions, was, reserved.regions, freed);
      live := Surviving(live, freed);
    }

    /**
     `memblock_enforce_memory_limit`: a limit other than 0 leaves as much memory as it allows, and
     always the lowest; there is one cut above which neither memory nor reservations remain, and the
     blocks below it stay live.
     */
    method EnforceLimit(limit0: nat) returns (ghost cut: nat)
      requires Valid()
      modifies memory, reserved, this`live
      ensures Valid() && (old(LiveOk()) ==> LiveOk())
      ensures live == if limit0 == 0 then old(live) else BelowCut(old(live), cut)
      ensures limit0 > 0 ==>
                if limit0 <= old(memory.totalSize) then cut > 0 && old(In(memory.regions, cut - 1)) else cut == ADDR_MAX
      ensures limit0 == 0 ==> memory.regions == old(memory.regions) && reserved.regions == old(reserved.regions)
      ensures limit0 > 0 ==>
                && memory.totalSize == (if limit0 < old(memory.totalSize) then limit0 else old(memory.totalSize))
                && memory.totalSize == |Covered(memory.regions)|
                && Shrunk(memory.regions, old(memory.regions), cut, ADDR_MAX)
                && Shrunk(reserved.regions, old(reserved.regions), cut, ADDR_MAX)
                && (forall a :: In(memory.regions, a) <==> old(In(memory.regions, a)) && a < cut)
                && (forall a :: In(reserved.regions, a) <==> old(In(reserved.regions, a)) && a < cut)
    {
      hide In, Flat, Sum, Covered, Separate, BelowCut, Shrunk, Merged;
      cut := 0;
      if limit0 == 0 {
        return;
      }
      var maxAddr: nat := ADDR_MAX;
      var limit := limit0;
      ghost var rs := memory.regions;
      ghost var res := reserved.regions;
      ghost var stop := |rs|;
      SumNone(rs[..0]);
      for i := 0 to |memory.regions|
        invariant limit == limit0 - Sum(rs[..i]) && limit > 0 && maxAddr == ADDR_MAX && stop == |rs|
        invariant memory.regions == rs && reserved.regions == res && Valid() && memory.totalSize == Sum(rs)
        invariant live == old(live)
      {
        assert rs[..i + 1] == rs[..i] + [rs[i]];
        SumAppend(rs[..i], [rs[i]]);
        SumOne(rs[i]);
        if limit <= memory.regions[i].size {
          maxAddr := memory.regions[i].base + limit;
          stop := i;
          break;
        }
        limit := limit - memory.regions[i].size;
      }
      ListSorted(rs);
      LowestKept(rs, stop, limit0, limit, maxAddr);
      cut := maxAddr;
      memory.RemoveRange(maxAddr, ADDR_MAX);
      BelowMax(rs);
      BelowMax(res);
      reserved.RemoveRange(maxAddr, ADDR_MAX);
      SameCount(rs, memory.regions, maxAddr);
      if old(LiveOk()) {
        LiveCut(live, rs, res, memory.regions, reserved.regions, cut);
      }
      live := BelowCut(live, cut);
    }
  }

  lemma ReservedApart(reserved: seq<Region>, r: Range, block: Range)
    requires Holds(reserved, r) && r.start < r.end && block.start < block.end
    requires forall a | Has(block, a) :: !In(reserved, a)
    ensures Apart(r, block)
  {
    hide In;
    var a := if r.start < block.start then block.start else r.start;
    assert Has(r, a) ==> In(reserved, a);
    assert Has(block, a) ==> !In(reserved, a);
  }

  lemma BelowMax(rs: seq<Region>)
    requires Flat(rs) || (|rs| == 1 && rs[0].base == 0 && rs[0].size == 0)
    ensures forall a | In(rs, a) :: 0 <= a < ADDR_MAX
  {
  }

  lemma LiveBelowMax(live: set<Range>, memory: seq<Region>, reserved: seq<Region>, r: Range)
    requires Separate(live, memory, reserved) && r in live
    requires Flat(memory) || (|memory| == 1 && memory[0].base == 0 && memory[0].size == 0)
    ensures r.end <= ADDR_MAX
  {
    hide In, Flat;
    BelowMax(memory);
    assert Has(r, r.end - 1);
  }

  /** How many addresses lie below the cut. */
  ghost function CountBelow(rs: seq<Region>, cut: nat): nat {
    |set a | 0 <= a < ADDR_MAX && In(rs, a) && a < cut|
  }

  lemma SameCount(rs: seq<Region>, kept: seq<Region>, cut: nat)
    requires forall a :: In(kept, a) <==> In(rs, a) && !(cut <= a < ADDR_MAX)
    requires forall a | In(rs, a) :: 0 <= a < ADDR_MAX
    ensures |Covered(kept)| == CountBelow(rs, cut)
  {
    hide In;
    assert Covered(kept) == set a | 0 <= a < ADDR_MAX && In(rs, a) && a < cut;
  }

  lemma SumNone(rs: seq<Region>)
    requires rs == []
    ensures Sum(rs) == 0
  {
  }

  /** The first regions up to `stop`, and of that one only the first `limit` addresses. */
  function Lowest(rs: seq<Region>, stop: nat, limit: nat): seq<Region>
    requires stop < |rs|
  {
    rs[..stop] + [rs[stop].(size := limit)]
  }

  lemma LowestFlat(rs: seq<Region>, stop: nat, limit: nat)
    requires Flat(rs) && stop < |rs| && 0 < limit <= rs[stop].size
    ensures Flat(Lowest(rs, stop, limit))
  {
    var k := Lowest(rs, stop, limit);
    assert forall i | 0 <= i < |k| :: k[i].base == rs[i].base && End(k[i]) <= End(rs[i]);
  }

  lemma LowestIn(rs: seq<Region>, stop: nat, limit: nat, a: int)
    requires Flat(rs) && stop < |rs| && 0 < limit <= rs[stop].size
    ensures In(Lowest(rs, stop, limit), a) <==> In(rs, a) && a < rs[stop].base + limit
  {
    var r := rs[stop];
    var cut := r.base + limit;
    hide In, Flat;
    assert rs == rs[..stop] + ([r] + rs[stop + 1..]);
    InAppend(rs[..stop], [r] + rs[stop + 1..], a);
    InAppend([r], rs[stop + 1..], a);
    InAppend(rs[..stop], [r.(size := limit)], a);
    InOne(r, a);
    InOne(r.(size := limit), a);
    EarlierBelow(rs, stop, a);
    LaterAbove(rs, stop, a);
  }

  lemma EarlierBelow(rs: seq<Region>, stop: nat, a: int)
    requires Flat(rs) && stop < |rs|
    ensures In(rs[..stop], a) ==> a < rs[stop].base
  {
  }

  lemma LaterAbove(rs: seq<Region>, stop: nat, a: int)
    requires Flat(rs) && stop < |rs|
    ensures In(rs[stop + 1..], a) ==> End(rs[stop]) <= a
  {
    if In(rs[stop + 1..], a) {
      var i :| 0 <= i < |rs[stop + 1..]| && Inside(rs[stop + 1..][i], a);
      assert rs[stop + 1..][i] == rs[stop + 1 + i];
    }
  }

  /** The cut that the loop finds leaves exactly the limit, or everything if the limit is larger. */
  lemma LowestKept(rs: seq<Region>, stop: nat, limit0: nat, limit: nat, cut: nat)
    requires Flat(rs) || (|rs| == 1 && rs[0].base == 0 && rs[0].size == 0)
    requires stop <= |rs| && limit0 > 0 && limit == limit0 - Sum(rs[..stop]) > 0
    requires if stop < |rs| then limit <= rs[stop].size && cut == rs[stop].base + limit else cut == ADDR_MAX
    ensures cut <= ADDR_MAX && CountBelow(rs, cut) == Min(limit0, Sum(rs))
    ensures if limit0 <= Sum(rs) then cut > 0 && In(rs, cut - 1) else cut == ADDR_MAX
  {
    hide In, Flat, Sum;
    BelowMax(rs);
    if stop < |rs| {
      var kept := Lowest(rs, stop, limit);
      LowestFlat(rs, stop, limit);
      SumCounts(kept);
      SumAppend(rs[..stop], [rs[stop].(size := limit)]);
      SumOne(rs[stop].(size := limit));
      assert rs == rs[..stop] + [rs[stop]] + rs[stop + 1..];
      SumAppend(rs[..stop] + [rs[stop]], rs[stop + 1..]);
      SumAppend(rs[..stop], [rs[stop]]);
      SumOne(rs[stop]);
      forall a ensures In(kept, a) <==> In(rs, a) && a < cut {
        LowestIn(rs, stop, limit, a);
      }
      CutInside(rs, stop, limit);
      LastBelow(rs, stop, cut - 1);
      assert Covered(kept) == set a | 0 <= a < ADDR_MAX && In(rs, a) && a < cut;
    } else {
      assert rs[..stop] == rs;
      TotalCounts(rs);
      assert Covered(rs) == set a | 0 <= a < ADDR_MAX && In(rs, a) && a < cut;
    }
  }

  lemma LastBelow(rs: seq<Region>, stop: nat, a: int)
    requires stop < |rs| && Inside(rs[stop], a)
    ensures In(rs, a)
  {
  }

  lemma CutInside(rs: seq<Region>, stop: nat, limit: nat)
    requires Flat(rs) && stop < |rs| && limit <= rs[stop].size
    ensures rs[stop].base + limit <= ADDR_MAX
  {
  }

  lemma TotalCounts(rs: seq<Region>)
    requires Flat(rs) || (|rs| == 1 && rs[0].base == 0 && rs[0].size == 0)
    ensures Sum(rs) == |Covered(rs)|
  {
    hide In;
    if |rs| == 1 && rs[0].base == 0 && rs[0].size == 0 {
      DummyCount(rs);
    } else {
      SumCounts(rs);
    }
  }
}
