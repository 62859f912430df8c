/**
 `struct memblock_type` as it is updated in place: insertion of a range in two passes, merging,
 isolation and removal (mm/memblock.c; merging and single removal are in mm/memblock.md).
 */
module MemblockTypes {
  import opened Helpers
  import opened MemblockRegions

  /** `memblock_cap_size`: the size that keeps the range below the end of the address space. */
  function CapSize(base: nat, size: nat): (r: nat)
    requires base <= ADDR_MAX
    ensures base + r <= ADDR_MAX && r <= size
    ensures if base + size <= ADDR_MAX then r == size else base + r == ADDR_MAX
  {
    Min(size, ADDR_MAX - base)
  }

  /** The pass has dealt with the first k regions, and with the range below `base`. */
  predicate Passing(was: seq<Region>, regions: seq<Region>, obase: nat, end: nat, nid: int, flags: nat, insert: bool,
                    i: nat, k: nat, base: nat, nrNew: nat)
  {
    && i <= |regions| && k <= |was| && obase <= end && base <= end && regions[i..] == was[k..]
    && nrNew + |Gaps(was[k..], base, end)| == |Gaps(was, obase, end)|
    && if insert then Filled(was, obase, end, nid, flags) == regions[..i] + Filled(was[k..], base, end, nid, flags)
       else regions == was && i == k
  }

  lemma PassStart(was: seq<Region>, obase: nat, end: nat, nid: int, flags: nat, insert: bool)
    requires obase <= end
    ensures Passing(was, was, obase, end, nid, flags, insert, 0, 0, obase, 0)
  {
    assert was[0..] == was;
    assert was[..0] + Filled(was, obase, end, nid, flags) == Filled(was, obase, end, nid, flags);
  }

  /** The next region is passed; if it lies behind a gap, that has just been filled. */
  lemma PassNext(was: seq<Region>, regions: seq<Region>, obase: nat, end: nat, nid: int, flags: nat, insert: bool,
                 i: nat, k: nat, base: nat, nrNew: nat)
    requires Passing(was, regions, obase, end, nid, flags, insert, i, k, base, nrNew)
    requires i < |regions| && regions[i].base < end && regions[i].size > 0
    ensures k < |was| && regions[i] == was[k]
    ensures var r := regions[i];
            var gap := base < r.base;
            var filled := if insert && gap then regions[..i] + [Region(base, r.base - base, nid, flags)] + regions[i..]
                          else regions;
            Passing(was, filled, obase, end, nid, flags, insert, if insert && gap then i + 2 else i + 1, k + 1,
                    NextBase(r, base, end), if gap then nrNew + 1 else nrNew)
  {
    hide Filled, Gaps;
    var r := regions[i];
    assert r == regions[i..][0] == was[k..][0];
    assert was[k..][1..] == was[k + 1..] == regions[i + 1..];
    GapsStep(was[k..], base, end);
    FilledStep(was[k..], base, end, nid, flags);
    if insert {
      var rest := Filled(was[k + 1..], NextBase(r, base, end), end, nid, flags);
      if base < r.base {
        InsertOne(regions, i, Region(base, r.base - base, nid, flags), rest);
      } else {
        KeepOne(regions, i, rest);
      }
    }
  }

  lemma KeepOne(rs: seq<Region>, i: nat, rest: seq<Region>)
    requires i < |rs|
    ensures rs[..i] + ([rs[i]] + rest) == rs[..i + 1] + rest
  {
  }

  lemma InsertOne(rs: seq<Region>, i: nat, piece: Region, rest: seq<Region>)
    requires i < |rs|
    ensures var u := rs[..i] + [piece] + rs[i..];
            u[i + 2..] == rs[i + 1..] && rs[..i] + ([piece] + ([rs[i]] + rest)) == u[..i + 2] + rest
  {
    var u := rs[..i] + [piece] + rs[i..];
    assert u[..i + 2] == rs[..i] + [piece] + [rs[i]];
  }

  lemma GapsStep(rs: seq<Region>, base: nat, end: nat)
    requires rs != [] && rs[0].base < end && base <= end && rs[0].size > 0
    ensures |Gaps(rs, base, end)| ==
              (if base < rs[0].base then 1 else 0) + |Gaps(rs[1..], NextBase(rs[0], base, end), end)|
  {
    if base == end {
      FilledDone(rs[1..], end, 0, 0);
    }
  }

  /** The rest of the range lies behind all regions that can overlap it. */
  lemma PassEnd(was: seq<Region>, regions: seq<Region>, obase: nat, end: nat, nid: int, flags: nat, insert: bool,
                i: nat, k: nat, base: nat, nrNew: nat)
    requires Passing(was, regions, obase, end, nid, flags, insert, i, k, base, nrNew)
    requires i < |regions| ==> regions[i].base >= end
    ensures nrNew + (if base < end then 1 else 0) == |Gaps(was, obase, end)|
    ensures insert ==> Filled(was, obase, end, nid, flags) ==
                       if base < end then regions[..i] + [Region(base, end - base, nid, flags)] + regions[i..]
                          else regions
  {
    hide Filled, Gaps;
    assert i < |regions| ==> regions[i] == regions[i..][0] == was[k..][0];
    LastGap(was[k..], base, end, nid, flags);
    assert regions == regions[..i] + regions[i..];
    if base < end {
      var piece := Region(base, end - base, nid, flags);
      assert regions[..i] + ([piece] + regions[i..]) == regions[..i] + [piece] + regions[i..];
    }
  }

  lemma PassSizes(was: seq<Region>, regions: seq<Region>, obase: nat, end: nat, nid: int, flags: nat, insert: bool,
                  i: nat, k: nat, base: nat, nrNew: nat)
    requires Passing(was, regions, obase, end, nid, flags, insert, i, k, base, nrNew) && Flat(was)
    ensures i <= |regions| && k <= |was| && (i < |regions| ==> k < |was| && regions[i].size > 0)
    ensures nrNew <= |Gaps(was, obase, end)| && (!insert ==> regions == was)
    ensures i < |regions| && regions[i].base < end && base < regions[i].base ==> nrNew + 1 <= |Gaps(was, obase, end)|
    ensures i == |regions| ==> k == |was|
  {
    assert |regions[i..]| == |was[k..]|;
    assert i < |regions| ==> regions[i] == regions[i..][0] == was[k..][0] == was[k];
    if i < |regions| && regions[i].base < end && base < regions[i].base {
      GapsStep(was[k..], base, end);
    }
  }

  class MemblockType {
    var regions: seq<Region>
    var max: nat
    var totalSize: int

    /** A list without regions keeps one empty entry. */
    predicate Dummy()
      reads this
    {
      |regions| == 1 && regions[0].base == 0 && regions[0].size == 0
    }

    ghost predicate Valid()
      reads this
    {
      && 0 < |regions| <= max && totalSize == Sum(regions)
      && (Dummy() || Flat(regions))
    }

    constructor ()
      ensures Valid() && Dummy() && regions == [Region(0, 0, 0, 0)] && max == 128
    {
      regions, max, totalSize := [Region(0, 0, 0, 0)], 128, 0;
    }

    /** The array is doubled until there is room for n more regions. */
    method MakeRoom(n: nat)
      requires max > 0
      modifies this`max
      ensures |regions| + n <= max
      ensures max == old(max) || (old(max) < |regions| + n && 2 * old(max) <= max)
    {
      while |regions| + n > max
        invariant max > 0
        invariant max == old(max) || (old(max) < |regions| + n && 2 * old(max) <= max)
        decreases |regions| + n - max
      {
        max := 2 * max;
      }
    }

    /** `memblock_insert_region`; the capacity BUG_ON is the precondition. */
    method InsertRegion(idx: nat, base: nat, size: nat, nid: int, flags: nat)
      requires idx <= |regions| < max && totalSize == Sum(regions)
      modifies this`regions, this`totalSize
      ensures regions == old(regions)[..idx] + [Region(base, size, nid, flags)] + old(regions)[idx..]
      ensures totalSize == Sum(regions) == old(totalSize) + size
    {
      SumInsert(regions, idx, Region(base, size, nid, flags));
      regions := regions[..idx] + [Region(base, size, nid, flags)] + regions[idx..];
      totalSize := totalSize + size;
    }

    /**
     One of the two passes of `memblock_add_range`: both count the gaps of [obase, end), and the
     second one also fills them.
     */
    method AddPass(obase: nat, end: nat, nid: int, flags: nat, insert: bool) returns (nrNew: nat)
      requires obase <= end && totalSize == Sum(regions) && Flat(regions)
      requires insert ==> |regions| + |Gaps(regions, obase, end)| <= max
      modifies this`regions, this`totalSize
      ensures nrNew == |Gaps(old(regions), obase, end)|
      ensures regions == if insert then Filled(old(regions), obase, end, nid, flags) else old(regions)
      ensures totalSize == Sum(regions)
    {
      hide Filled, Gaps, Passing, Flat;
      ghost var was := regions;
      ghost var k: nat := 0;
      var base: nat := obase;
      nrNew := 0;
      var i: nat := 0;
      PassStart(was, obase, end, nid, flags, insert);
      while i < |regions|
        invariant Passing(was, regions, obase, end, nid, flags, insert, i, k, base, nrNew)
        invariant base <= end && totalSize == Sum(regions) && Flat(was) && k <= |was|
        invariant insert ==> |regions| - nrNew == |was|
        decreases |was| - k
      {
        PassSizes(was, regions, obase, end, nid, flags, insert, i, k, base, nrNew);
        var rgn := regions[i];
        if rgn.base >= end {
          break;
        }
        PassNext(was, regions, obase, end, nid, flags, insert, i, k, base, nrNew);
        if End(rgn) <= base {
          i, k := i + 1, k + 1;
          continue;
        }
        if rgn.base > base {
          nrNew := nrNew + 1;
          if insert {
            InsertRegion(i, base, rgn.base - base, nid, flags);
            i := i + 1;
          }
        }
        base := Min(End(rgn), end);
        i, k := i + 1, k + 1;
      }
      PassEnd(was, regions, obase, end, nid, flags, insert, i, k, base, nrNew);
      PassSizes(was, regions, obase, end, nid, flags, insert, i, k, base, nrNew);
      if base < end {
        nrNew := nrNew + 1;
        if insert {
          InsertRegion(i, base, end - base, nid, flags);
        }
      }
    }

    /** `memblock_merge_regions`: afterwards no two neighbours are mergeable. */
    method MergeRegions()
      requires Flat(regions) && regions != [] && totalSize == Sum(regions)
      modifies this`regions
      ensures Flat(regions) && 0 < |regions| <= |old(regions)| && totalSize == Sum(regions)
      ensures SameTags(regions, old(regions))
      ensures Merged(regions)
    {
      hide Flat, TagAt, Sum;
      var i := 0;
      while i < |regions| - 1
        invariant 0 <= i < |regions| <= |old(regions)| && Flat(regions) && totalSize == Sum(regions)
        invariant SameTags(regions, old(regions))
        invariant forall k | 0 <= k < i :: !Mergeable(regions[k], regions[k + 1])
        decreases |regions| - i
      {
        if !Mergeable(regions[i], regions[i + 1]) {
          i := i + 1;
          continue;
        }
        JoinOk(regions, i);
        ghost var was := regions;
        regions := regions[..i] + [regions[i].(size := regions[i].size + regions[i + 1].size)] + regions[i + 2..];
        assert forall k | 0 <= k < i :: regions[k] == was[k];
        assert i > 0 ==> Mergeable(regions[i - 1], regions[i]) == Mergeable(was[i - 1], was[i]);
      }
    }

    /**
     `memblock_add_range` with a base in the address space: the list covers the union, only the
     addresses that were not covered get the new node and flags, the total grows by exactly their
     number, and the room found by the counting pass suffices for the inserting pass.  No two
     neighbours are mergeable afterwards, so the list is the only one with that meaning.
     */
    method AddRange(base: nat, size0: nat, nid: int, flags: nat)
      requires Valid() && base <= ADDR_MAX
      modifies this
      ensures Valid()
      ensures Grown(regions, old(regions), base, base + CapSize(base, size0), nid, flags)
      ensures CapSize(base, size0) > 0 || old(Merged(regions)) ==> Merged(regions)
      ensures var needed := |old(regions)| + |Gaps(old(regions), base, base + CapSize(base, size0))|;
              max == old(max) || (old(max) < needed && 2 * old(max) <= max)
      ensures forall a :: In(regions, a) <==> old(In(regions, a)) || base <= a < base + CapSize(base, size0)
      ensures totalSize == old(totalSize) + |Interval(base, base + CapSize(base, size0)) - Covered(old(regions))|
    {
      hide In, Flat, Sum, Filled, Gaps, Covered, Interval, TagAt, Grown, SameTags, Mergeable;
      ghost var was := regions;
      var size := CapSize(base, size0);
      var end := base + size;
      if size == 0 {
        NothingNew(was, base, nid, flags);
        return;
      }
      if regions[0].size == 0 {
        NotDummy(regions);
        regions := [regions[0].(base := base, size := size, flags := flags, nid := nid)];
        totalSize := size;
        FirstRegion(was, regions, base, end, nid, flags);
        return;
      }
      var nrNew := AddPass(base, end, nid, flags, false);
      MakeRoom(nrNew);
      FilledCount(regions, base, end, nid, flags);
      FilledFlat(regions, base, end, nid, flags, 0);
      var _ := AddPass(base, end, nid, flags, true);
      MergeRegions();
      FilledGrown(was, regions, base, end, nid, flags);
      NewlyCovered(was, regions, base, end);
    }

    /** A region is cut at m: its upper part stays in place and the lower part is inserted before it. */
    method SplitRegion(i: nat, m: nat)
      requires Flat(regions) && i < |regions| < max && regions[i].base < m < End(regions[i])
               && totalSize == Sum(regions)
      modifies this`regions, this`totalSize
      ensures regions == SplitAt(old(regions), i, m) && Flat(regions)
      ensures SameTags(regions, old(regions)) && totalSize == old(totalSize) == Sum(regions)
    {
      hide Flat, Sum, SameTags;
      var rgn := regions[i];
      SplitOk(regions, i, m);
      SumSet(regions, i, rgn.(base := m, size := rgn.size - (m - rgn.base)));
      regions := regions[i := rgn.(base := m, size := rgn.size - (m - rgn.base))];
      totalSize := totalSize - (m - rgn.base);
      InsertRegion(i, rgn.base, m - rgn.base, rgn.nid, rgn.flags);
    }

    /**
     `memblock_isolate_range`: at most two regions are split so that every region lies either in the
     range or outside of it; the addresses and the total stay, and the result is the index
     interval of exactly the regions in the range.
     */
    method IsolateRange(base: nat, size0: nat) returns (startRgn: nat, endRgn: nat)
      requires Valid() && base <= ADDR_MAX
      modifies this
      ensures Valid() && totalSize == old(totalSize) && SameTags(regions, old(regions))
      ensures |regions| <= |old(regions)| + 2 && (Dummy() <==> old(Dummy()))
      ensures startRgn <= endRgn <= |regions| && (Dummy() ==> startRgn == endRgn)
      ensures Isolated(regions, base, base + CapSize(base, size0), startRgn, endRgn)
      ensures CapSize(base, size0) == 0 ==> regions == old(regions) && startRgn == endRgn
      ensures old(Merged(regions)) ==> CutOnly(regions, base, base + CapSize(base, size0))
      ensures max == old(max) || (old(max) < |old(regions)| + 2 && 2 * old(max) <= max)
    {
      hide TagAt, Flat, Sum, Isolating, Isolated, CutOnly, Merged;
      var size := CapSize(base, size0);
      var end := base + size;
      startRgn, endRgn := 0, 0;
      CutNone(regions, base, end);
      if size == 0 {
        EmptyRange(regions, base);
        return;
      }
      MakeRoom(2);
      ghost var dummy := Dummy();
      ghost var low, high, room := 0, 0, max;
      var i := 0;
      if !dummy {
        IsolateStart(regions, base, end);
      }
      while i < |regions|
        invariant 0 <= i
        invariant dummy ==> regions == old(regions) && Dummy() && startRgn == endRgn == 0 <= i <= 1
        invariant !dummy ==> Flat(regions) && |regions| == |old(regions)| + low + high
        invariant !dummy ==> 0 <= low <= 1 && 0 <= high <= 1
        invariant !dummy ==> Isolating(regions, base, end, i, startRgn, endRgn, low, high)
        invariant SameTags(regions, old(regions)) && totalSize == old(totalSize) == Sum(regions)
        invariant |old(regions)| + 2 <= max == room && 0 < |regions|
        invariant old(Merged(regions)) ==> CutOnly(regions, base, end)
        decreases 2 - low - high, |regions| - i
      {
        var rgn := regions[i];
        if !dummy {
          PositiveSize(regions, i);
        }
        if rgn.base >= end {
          break;
        }
        if End(rgn) <= base {
          IsolateSkip(regions, base, end, i, startRgn, endRgn, low, high, dummy);
          i := i + 1;
          continue;
        }
        if rgn.base < base {
          IsolateLow(regions, base, end, i, startRgn, endRgn, low, high);
          CutMore(regions, base, end, i, base);
          SplitRegion(i, base);
          low := low + 1;
          i := i + 1;
        } else if End(rgn) > end {
          IsolateHigh(regions, base, end, i, startRgn, endRgn, low, high);
          CutMore(regions, base, end, i, end);
          SplitRegion(i, end);
          high := high + 1;
        } else {
          IsolateTake(regions, base, end, i, startRgn, endRgn, low, high);
          if endRgn == 0 {
            startRgn := i;
          }
          endRgn := i + 1;
          i := i + 1;
        }
      }
      if dummy {
        DummyIsolated(regions, base, end);
      } else {
        IsolateEnd(regions, base, end, i, startRgn, endRgn, low, high);
        PositiveSize(regions, 0);
      }
    }

    /** `memblock_remove_region` */
    method RemoveRegion(r: nat)
      requires r < |regions| <= max && totalSize == Sum(regions)
      modifies this`regions, this`totalSize
      ensures var rest := old(regions)[..r] + old(regions)[r + 1..];
              regions == if rest == [] then [Region(0, 0, MAX_NUMNODES, 0)] else rest
      ensures totalSize == Sum(regions)
    {
      SumDelete(regions, r);
      totalSize := totalSize - regions[r].size;
      regions := regions[..r] + regions[r + 1..];
      if |regions| == 0 {
        regions := [Region(0, 0, MAX_NUMNODES, 0)];
      }
    }

    /** `memblock_remove_range` with a base in the address space: the list loses exactly the range. */
    method RemoveRange(base: nat, size0: nat)
      requires Valid() && base <= ADDR_MAX
      modifies this
      ensures Valid()
      ensures Shrunk(regions, old(regions), base, base + CapSize(base, size0))
      ensures forall a :: In(regions, a) <==> old(In(regions, a)) && !(base <= a < base + CapSize(base, size0))
      ensures totalSize == |Covered(regions)|
      ensures old(Merged(regions)) ==> Merged(regions)
    {
      hide In, Flat, Sum, Isolated, Covered, TagAt, Shrunk, Mergeable, CutOnly;
      ghost var end := base + CapSize(base, size0);
      var startRgn, endRgn := IsolateRange(base, size0);
      ghost var rs := regions;
      ghost var dummy := Dummy();
      assert rs[..endRgn] + rs[endRgn..] == rs;
      for i := endRgn downto startRgn
        invariant 0 < |regions| <= max && totalSize == Sum(regions)
        invariant var rest := rs[..i] + rs[endRgn..]; if rest == [] then Dummy() else regions == rest
        invariant dummy ==> regions == rs
      {
        ghost var was := regions;
        assert was == rs[..i + 1] + rs[endRgn..];
        assert was[..i] + was[i + 1..] == rs[..i] + rs[endRgn..];
        RemoveRegion(i);
      }
      ghost var rest := rs[..startRgn] + rs[endRgn..];
      if !dummy {
        CutFlat(rs, startRgn, endRgn);
        if old(Merged(regions)) && base < end {
          CutMerged(rs, base, end, startRgn, endRgn);
        }
      }
      if rest == [] || dummy {
        DummyTags(regions);
      }
      CutShrunk(rs, old(regions), regions, base, end, startRgn, endRgn);
      if Dummy() {
        DummyCount(regions);
      } else {
        SumCounts(regions);
      }
    }
  }

  lemma DummyIn(rs: seq<Region>, a: int)
    requires |rs| == 1 && rs[0].size == 0
    ensures !In(rs, a) && !In([], a)
  {
    InOne(rs[0], a);
    assert rs == [rs[0]];
  }

  lemma DummyCount(rs: seq<Region>)
    requires |rs| == 1 && rs[0].size == 0
    ensures Sum(rs) == |Covered(rs)|
  {
    hide In;
    forall a ensures !In(rs, a) {
      DummyIn(rs, a);
    }
    assert Covered(rs) == {};
  }

  lemma CutFlat(rs: seq<Region>, s: nat, e: nat)
    requires Flat(rs) && s <= e <= |rs|
    ensures Flat(rs[..s] + rs[e..])
  {
  }

  /** Neighbours that could be one region meet at an end of the range. */
  predicate CutOnly(rs: seq<Region>, base: nat, end: nat) {
    forall i | 0 <= i < |rs| - 1 && Mergeable(rs[i], rs[i + 1]) :: rs[i + 1].base == base || rs[i + 1].base == end
  }

  lemma CutNone(rs: seq<Region>, base: nat, end: nat)
    ensures Merged(rs) ==> CutOnly(rs, base, end)
  {
  }

  /** Splitting a region at an end of the range makes two mergeable neighbours there and nowhere else. */
  lemma CutMore(rs: seq<Region>, base: nat, end: nat, i: nat, m: nat)
    requires i < |rs| && rs[i].base < m < End(rs[i]) && (m == base || m == end)
    ensures CutOnly(rs, base, end) ==> CutOnly(SplitAt(rs, i, m), base, end)
  {
    var t := SplitAt(rs, i, m);
    if CutOnly(rs, base, end) {
      forall k | 0 <= k < |t| - 1 && Mergeable(t[k], t[k + 1]) ensures t[k + 1].base == base || t[k + 1].base == end {
        if k < i {
          assert Mergeable(rs[k], rs[k + 1]);
        } else if k > i {
          assert Mergeable(rs[k - 1], rs[k]);
        }
      }
    }
  }

  /** Without the regions in the range, no two neighbours are mergeable. */
  lemma CutMerged(rs: seq<Region>, base: nat, end: nat, s: nat, e: nat)
    requires Flat(rs) && Isolated(rs, base, end, s, e) && CutOnly(rs, base, end) && base < end
    ensures Merged(rs[..s] + rs[e..])
  {
    var t := rs[..s] + rs[e..];
    forall k | 0 <= k < |t| - 1 ensures !Mergeable(t[k], t[k + 1]) {
      var j := if k < s then k else k + (e - s);
      assert t[k] == rs[j];
      if k + 1 == s && s < e {
        assert t[k + 1] == rs[e] && End(rs[k]) <= rs[s].base && End(rs[s]) <= rs[e].base;
      } else {
        assert t[k + 1] == rs[j + 1];
      }
    }
  }

  ghost predicate Shrunk(rs: seq<Region>, was: seq<Region>, base: nat, end: nat) {
    forall a :: TagAt(rs, a) == if base <= a < end then NoTag else TagAt(was, a)
  }

  /** Dropping the regions in the range drops exactly the addresses in the range. */
  lemma CutTag(rs: seq<Region>, base: nat, end: nat, s: nat, e: nat, a: int)
    requires Isolated(rs, base, end, s, e)
    ensures TagAt(rs[..s] + rs[e..], a) == if base <= a < end then NoTag else TagAt(rs, a)
  {
    hide TagAt;
    assert rs == rs[..s] + (rs[s..e] + rs[e..]);
    TagAppend(rs[..s], rs[s..e] + rs[e..], a);
    TagAppend(rs[s..e], rs[e..], a);
    TagAppend(rs[..s], rs[e..], a);
    AllIn(rs[s..e], base, end, a);
    if base < end {
      NoneIn(rs[..s], base, end, a);
      NoneIn(rs[e..], base, end, a);
    }
  }

  lemma CutShrunk(rs: seq<Region>, was: seq<Region>, now: seq<Region>, base: nat, end: nat, s: nat, e: nat)
    requires Isolated(rs, base, end, s, e) && SameTags(rs, was) && SameTags(now, rs[..s] + rs[e..])
    ensures Shrunk(now, was, base, end)
    ensures forall a :: In(now, a) <==> In(was, a) && !(base <= a < end)
  {
    hide TagAt, In, Isolated;
    forall a ensures TagAt(now, a) == (if base <= a < end then NoTag else TagAt(was, a))
             ensures In(now, a) <==> In(was, a) && !(base <= a < end) {
      CutTag(rs, base, end, s, e, a);
      TagIn(now, a);
      TagIn(was, a);
    }
  }

  lemma DummyTags(rs: seq<Region>)
    requires |rs| == 1 && rs[0].size == 0
    ensures SameTags(rs, [])
  {
    assert rs == [rs[0]] + [];
    forall a ensures TagAt(rs, a) == NoTag {
      TagCons(rs[0], [], a);
    }
  }

  lemma AllIn(rs: seq<Region>, base: nat, end: nat, a: int)
    requires forall k | 0 <= k < |rs| :: base <= rs[k].base && End(rs[k]) <= end
    ensures TagAt(rs, a) != NoTag ==> base <= a < end
  {
    hide TagAt;
    TagIn(rs, a);
  }

  lemma NoneIn(rs: seq<Region>, base: nat, end: nat, a: int)
    requires forall k | 0 <= k < |rs| :: End(rs[k]) <= base || end <= rs[k].base
    ensures TagAt(rs, a) != NoTag ==> !(base <= a < end)
  {
    hide TagAt;
    TagIn(rs, a);
  }

  /** Exactly the regions with these indices lie in the range; the others do not touch it. */
  predicate Isolated(rs: seq<Region>, base: nat, end: nat, s: nat, e: nat) {
    && s <= e <= |rs|
    && (forall k | s <= k < e :: base <= rs[k].base && End(rs[k]) <= end)
    && (forall k | 0 <= k < |rs| && !(s <= k < e) :: End(rs[k]) <= base || end <= rs[k].base || base == end)
  }

  /** The loop has come to region i; low and high count the regions split so far. */
  predicate Isolating(rs: seq<Region>, base: nat, end: nat, i: int, s: nat, e: nat, low: int, high: int) {
    && 0 <= i <= |rs| && base < end
    && (if e == 0 then s == 0 && forall k | 0 <= k < i :: End(rs[k]) <= base
        else s < e == i && (forall k | 0 <= k < s :: End(rs[k]) <= base)
             && forall k | s <= k < e :: base <= rs[k].base && End(rs[k]) <= end)
    && (low > 0 || e > 0 ==> forall k | i <= k < |rs| :: base <= rs[k].base)
    && (high > 0 ==> forall k | i <= k < |rs| :: End(rs[k]) <= end || end <= rs[k].base)
  }

  lemma EmptyRange(rs: seq<Region>, base: nat)
    ensures Isolated(rs, base, base, 0, 0)
  {
  }

  lemma DummyIsolated(rs: seq<Region>, base: nat, end: nat)
    requires |rs| == 1 && rs[0].base == 0 && rs[0].size == 0
    ensures Isolated(rs, base, end, 0, 0)
  {
  }

  lemma PositiveSize(rs: seq<Region>, i: nat)
    requires Flat(rs) && i < |rs|
    ensures rs[i].size > 0
  {
  }

  lemma IsolateStart(rs: seq<Region>, base: nat, end: nat)
    requires base < end
    ensures Isolating(rs, base, end, 0, 0, 0, 0, 0)
  {
  }

  lemma IsolateSkip(rs: seq<Region>, base: nat, end: nat, i: nat, s: nat, e: nat, low: int, high: int, dummy: bool)
    requires !dummy ==> Flat(rs) && Isolating(rs, base, end, i, s, e, low, high)
    requires i < |rs| && End(rs[i]) <= base
    ensures !dummy ==> Isolating(rs, base, end, i + 1, s, e, low, high)
  {
  }

  lemma IsolateTake(rs: seq<Region>, base: nat, end: nat, i: nat, s: nat, e: nat, low: int, high: int)
    requires Flat(rs) && Isolating(rs, base, end, i, s, e, low, high)
    requires i < |rs| && base <= rs[i].base && End(rs[i]) <= end
    ensures Isolating(rs, base, end, i + 1, if e == 0 then i else s, i + 1, low, high)
  {
  }

  lemma IsolateLow(rs: seq<Region>, base: nat, end: nat, i: nat, s: nat, e: nat, low: int, high: int)
    requires Flat(rs) && Isolating(rs, base, end, i, s, e, low, high) && low >= 0
    requires i < |rs| && rs[i].base < base < End(rs[i])
    ensures low == 0 && Isolating(SplitAt(rs, i, base), base, end, i + 1, s, e, low + 1, high)
  {
    var t := SplitAt(rs, i, base);
    assert forall k | 0 <= k < |t| :: t[k] == if k < i then rs[k] else if k == i then rs[i].(size := base - rs[i].base)
                                              else if k == i + 1
                                              then rs[i].(base := base, size := End(rs[i]) - base)
                                              else rs[k - 1];
  }

  lemma IsolateHigh(rs: seq<Region>, base: nat, end: nat, i: nat, s: nat, e: nat, low: int, high: int)
    requires Flat(rs) && Isolating(rs, base, end, i, s, e, low, high) && high >= 0
    requires i < |rs| && base <= rs[i].base < end < End(rs[i])
    ensures high == 0 && Isolating(SplitAt(rs, i, end), base, end, i, s, e, low, high + 1)
  {
    var t := SplitAt(rs, i, end);
    assert forall k | 0 <= k < |t| :: t[k] == if k < i then rs[k] else if k == i then rs[i].(size := end - rs[i].base)
                                              else if k == i + 1
                                              then rs[i].(base := end, size := End(rs[i]) - end)
                                              else rs[k - 1];
  }

  lemma IsolateEnd(rs: seq<Region>, base: nat, end: nat, i: nat, s: nat, e: nat, low: int, high: int)
    requires Flat(rs) && Isolating(rs, base, end, i, s, e, low, high)
    requires i < |rs| ==> end <= rs[i].base
    ensures Isolated(rs, base, end, s, e) && s <= e <= |rs|
  {
    assert forall k | i < k < |rs| :: End(rs[i]) <= rs[k].base;
  }

  /** The list with region i split at m. */
  function SplitAt(rs: seq<Region>, i: nat, m: nat): seq<Region>
    requires i < |rs| && rs[i].base <= m <= End(rs[i])
  {
    rs[..i] + [rs[i].(size := m - rs[i].base), rs[i].(base := m, size := End(rs[i]) - m)] + rs[i + 1..]
  }

  lemma SplitOk(rs: seq<Region>, i: nat, m: nat)
    requires Flat(rs) && i < |rs| && rs[i].base < m < End(rs[i])
    ensures Flat(SplitAt(rs, i, m)) && SameTags(SplitAt(rs, i, m), rs)
    ensures var high := rs[i].(base := m, size := End(rs[i]) - m);
            var low := Region(rs[i].base, m - rs[i].base, rs[i].nid, rs[i].flags);
            SplitAt(rs, i, m) == rs[i := high][..i] + [low] + rs[i := high][i..]
  {
    hide Flat, TagAt;
    SplitFlat(rs, i, m, rs[i].nid, rs[i].flags);
    forall a ensures TagAt(SplitAt(rs, i, m), a) == TagAt(rs, a) {
      SplitTag(rs, i, m, a);
    }
  }

  lemma SumSet(rs: seq<Region>, i: nat, r: Region)
    requires i < |rs|
    ensures Sum(rs[i := r]) == Sum(rs) - rs[i].size + r.size
  {
    SumDelete(rs, i);
    SumInsert(rs[..i] + rs[i + 1..], i, r);
    assert rs[i := r] == (rs[..i] + rs[i + 1..])[..i] + [r] + (rs[..i] + rs[i + 1..])[i..];
  }

  lemma NotDummy(rs: seq<Region>)
    requires rs != [] && rs[0].size == 0
    ensures !Flat(rs)
  {
  }

  /** The list says of [base, end) what it said before, and where that was nothing, the new tag. */
  ghost predicate Grown(rs: seq<Region>, was: seq<Region>, base: nat, end: nat, nid: int, flags: nat) {
    forall a :: TagAt(rs, a) == if TagAt(was, a) == NoTag && base <= a < end then Tag(nid, flags) else TagAt(was, a)
  }

  lemma GrownIn(rs: seq<Region>, was: seq<Region>, base: nat, end: nat, nid: int, flags: nat)
    requires Grown(rs, was, base, end, nid, flags)
    ensures forall a :: In(rs, a) <==> In(was, a) || base <= a < end
  {
    hide In, TagAt;
    forall a ensures In(rs, a) <==> In(was, a) || base <= a < end {
      TagIn(rs, a);
      TagIn(was, a);
    }
  }

  lemma FilledGrown(was: seq<Region>, rs: seq<Region>, base: nat, end: nat, nid: int, flags: nat)
    requires Flat(was) && base <= end && SameTags(rs, Filled(was, base, end, nid, flags))
    ensures Grown(rs, was, base, end, nid, flags)
    ensures forall a :: In(rs, a) <==> In(was, a) || base <= a < end
  {
    hide In, TagAt, Flat, Filled;
    forall a
      ensures TagAt(rs, a) == if TagAt(was, a) == NoTag && base <= a < end then Tag(nid, flags) else TagAt(was, a)
    {
      FilledTag(was, base, end, nid, flags, a);
    }
    GrownIn(rs, was, base, end, nid, flags);
  }

  lemma NothingNew(rs: seq<Region>, base: nat, nid: int, flags: nat)
    ensures |Interval(base, base) - Covered(rs)| == 0 && Grown(rs, rs, base, base, nid, flags)
  {
    assert Interval(base, base) == {};
  }

  lemma InOne(r: Region, a: int)
    ensures In([r], a) <==> Inside(r, a)
  {
    InCons([r], a);
  }

  lemma FirstRegion(was: seq<Region>, rs: seq<Region>, base: nat, end: nat, nid: int, flags: nat)
    requires |was| == 1 && was[0].size == 0 && base < end <= ADDR_MAX && rs == [Region(base, end - base, nid, flags)]
    ensures Grown(rs, was, base, end, nid, flags)
    ensures Flat(rs) && Sum(rs) == end - base && Sum(was) == 0
    ensures forall a :: In(rs, a) <==> In(was, a) || base <= a < end
    ensures |Interval(base, end) - Covered(was)| == end - base
  {
    hide In, Interval;
    assert rs == [rs[0]] + [] && was == [was[0]] + [];
    forall a ensures TagAt(rs, a) == (if base <= a < end then Tag(nid, flags) else NoTag)
             ensures TagAt(was, a) == NoTag && !In(was, a) {
      TagCons(rs[0], [], a);
      TagCons(was[0], [], a);
      TagIn(was, a);
    }
    GrownIn(rs, was, base, end, nid, flags);
    IntervalCard(base, end);
    assert Covered(was) == {};
    assert Interval(base, end) - Covered(was) == Interval(base, end);
  }

  lemma NewlyCovered(was: seq<Region>, rs: seq<Region>, base: nat, end: nat)
    requires Flat(was) && Flat(rs) && base <= end <= ADDR_MAX
    requires forall a :: In(rs, a) <==> In(was, a) || base <= a < end
    ensures Sum(rs) == Sum(was) + |Interval(base, end) - Covered(was)|
  {
    hide In, Flat, Sum, Interval;
    SumCounts(was);
    SumCounts(rs);
    assert Covered(rs) == Covered(was) + (Interval(base, end) - Covered(was));
  }
}
