/**
 The boot memory allocator's region lists (mm/memblock.c): a sorted list of disjoint regions that
 stands for a set of addresses.
 */
module MemblockRegions {
  import opened Helpers

  datatype Region = Region(base: nat, size: nat, nid: int, flags: nat)

  datatype Range = Range(start: nat, end: nat)

  /** ULLONG_MAX: no region reaches beyond it. */
  const ADDR_MAX: nat := 0xFFFF_FFFF_FFFF_FFFF

  /** The node id of regions that are added without one (one node is configured). */
  const MAX_NUMNODES: int := 1

  function End(r: Region): nat { r.base + r.size }

  predicate Inside(r: Region, a: int) { r.base <= a < End(r) }

  /** The set of addresses that a list stands for. */
  predicate In(rs: seq<Region>, a: int) {
    exists i :: 0 <= i < |rs| && Inside(rs[i], a)
  }

  /** Regions in address order that do not overlap and are not empty. */
  predicate Flat(rs: seq<Region>) {
    && (forall i | 0 <= i < |rs| :: rs[i].size > 0 && End(rs[i]) <= ADDR_MAX)
    && (forall i, j | 0 <= i < j < |rs| :: End(rs[i]) <= rs[j].base)
  }

  function Sum(rs: seq<Region>): nat {
    if rs == [] then 0 else rs[0].size + Sum(rs[1..])
  }

  // ------------------------------------------------------------------ sums

  lemma {:induction false} SumAppend(u: seq<Region>, v: seq<Region>)
    ensures Sum(u + v) == Sum(u) + Sum(v)
    decreases |u|
  {
    if u == [] {
      assert u + v == v;
    } else {
      assert (u + v)[1..] == u[1..] + v;
      SumAppend(u[1..], v);
    }
  }

  /** The addresses of a list, as a finite set. */
  ghost function Covered(rs: seq<Region>): set<int> {
    set a | 0 <= a < ADDR_MAX && In(rs, a)
  }

  ghost function Interval(lo: int, hi: int): (s: set<int>)
    ensures forall a :: a in s <==> lo <= a < hi
    decreases hi - lo
  {
    if lo >= hi then {} else Interval(lo, hi - 1) + {hi - 1}
  }

  lemma {:induction false} IntervalCard(lo: int, hi: int)
    requires lo <= hi
    ensures |Interval(lo, hi)| == hi - lo
    decreases hi - lo
  {
    if lo < hi {
      IntervalCard(lo, hi - 1);
    }
  }

  lemma CoveredCons(rs: seq<Region>)
    requires Flat(rs) && rs != []
    ensures Covered(rs) == Interval(rs[0].base, End(rs[0])) + Covered(rs[1..])
    ensures Interval(rs[0].base, End(rs[0])) !! Covered(rs[1..])
  {
    hide In, Interval;
    var r, rest := rs[0], rs[1..];
    forall a ensures In(rs, a) <==> Inside(r, a) || In(rest, a) {
      InCons(rs, a);
    }
    forall a | In(rest, a) ensures End(r) <= a {
      InAfter(rs, a);
    }
  }

  lemma InAfter(rs: seq<Region>, a: int)
    requires Flat(rs) && rs != [] && In(rs[1..], a)
    ensures End(rs[0]) <= a
  {
    var i :| 0 <= i < |rs[1..]| && Inside(rs[1..][i], a);
    assert rs[1..][i] == rs[i + 1];
  }

  /** The total size of a flat list is the number of addresses that it covers. */
  lemma {:induction false} SumCounts(rs: seq<Region>)
    requires Flat(rs)
    ensures Sum(rs) == |Covered(rs)|
    decreases |rs|
  {
    hide Flat, Interval;
    if rs == [] {
      assert Covered(rs) == {};
    } else {
      FlatTail(rs);
      SumCounts(rs[1..]);
      IntervalCard(rs[0].base, End(rs[0]));
      CoveredCons(rs);
    }
  }

  lemma InCons(rs: seq<Region>, a: int)
    requires rs != []
    ensures In(rs, a) <==> Inside(rs[0], a) || In(rs[1..], a)
  {
    if In(rs[1..], a) {
      var i :| 0 <= i < |rs[1..]| && Inside(rs[1..][i], a);
      assert Inside(rs[i + 1], a);
    }
    if In(rs, a) {
      var i :| 0 <= i < |rs| && Inside(rs[i], a);
      if i > 0 {
        assert Inside(rs[1..][i - 1], a);
      }
    }
  }

  lemma InAppend(u: seq<Region>, v: seq<Region>, a: int)
    ensures In(u + v, a) <==> In(u, a) || In(v, a)
  {
    if In(u, a) {
      var i :| 0 <= i < |u| && Inside(u[i], a);
      assert Inside((u + v)[i], a);
    }
    if In(v, a) {
      var i :| 0 <= i < |v| && Inside(v[i], a);
      assert Inside((u + v)[|u| + i], a);
    }
    if In(u + v, a) {
      var i :| 0 <= i < |u + v| && Inside((u + v)[i], a);
      if i < |u| {
        assert Inside(u[i], a);
      } else {
        assert Inside(v[i - |u|], a);
      }
    }
  }

  // ------------------------------------------------------- gaps and insertion

  /** The parts of [base, end) that the list does not cover, in order. */
  function Gaps(rs: seq<Region>, base: nat, end: nat): seq<Range> {
    if base >= end then []
    else if rs == [] || rs[0].base >= end then [Range(base, end)]
    else if End(rs[0]) <= base then Gaps(rs[1..], base, end)
    else
      (if rs[0].base > base then [Range(base, rs[0].base)] else []) +
      Gaps(rs[1..], Min(End(rs[0]), end), end)
  }

  /** The list with a new region in every gap of [base, end). */
  function Filled(rs: seq<Region>, base: nat, end: nat, nid: int, flags: nat): seq<Region> {
    if rs == [] || rs[0].base >= end then
      (if base < end then [Region(base, end - base, nid, flags)] else []) + rs
    else if End(rs[0]) <= base then
      [rs[0]] + Filled(rs[1..], base, end, nid, flags)
    else
      (if rs[0].base > base then [Region(base, rs[0].base - base, nid, flags)] else []) + [rs[0]] +
      Filled(rs[1..], Min(End(rs[0]), end), end, nid, flags)
  }

  lemma FlatTail(rs: seq<Region>)
    requires Flat(rs) && rs != []
    ensures Flat(rs[1..]) && rs[0].size > 0 && End(rs[0]) <= ADDR_MAX && (|rs| > 1 ==> End(rs[0]) <= rs[1].base)
  {
  }

  lemma FlatCons(r: Region, rs: seq<Region>)
    requires Flat(rs) && r.size > 0 && End(r) <= ADDR_MAX && (rs != [] ==> End(r) <= rs[0].base)
    ensures Flat([r] + rs)
  {
    var s := [r] + rs;
    forall i, j | 0 <= i < j < |s| ensures End(s[i]) <= s[j].base {
      if i == 0 && j > 1 {
        assert End(rs[0]) <= rs[j - 1].base;
      }
    }
  }

  lemma {:induction false} FilledCount(rs: seq<Region>, base: nat, end: nat, nid: int, flags: nat)
    requires base <= end
    ensures |Filled(rs, base, end, nid, flags)| == |rs| + |Gaps(rs, base, end)|
    decreases |rs|
  {
    if rs != [] && rs[0].base < end {
      FilledCount(rs[1..], if End(rs[0]) <= base then base else Min(End(rs[0]), end), end, nid, flags);
    }
  }

  /** Where filling goes on behind the first region. */
  function NextBase(r: Region, base: nat, end: nat): nat {
    if End(r) <= base then base else Min(End(r), end)
  }

  lemma FilledStep(rs: seq<Region>, base: nat, end: nat, nid: int, flags: nat)
    requires rs != [] && rs[0].base < end
    ensures var rest := [rs[0]] + Filled(rs[1..], NextBase(rs[0], base, end), end, nid, flags);
            Filled(rs, base, end, nid, flags) ==
            if base < rs[0].base then [Region(base, rs[0].base - base, nid, flags)] + rest else rest
  {
  }

  lemma {:induction false} FilledFlat(rs: seq<Region>, base: nat, end: nat, nid: int, flags: nat, lo: nat)
    requires Flat(rs) && lo <= base <= end <= ADDR_MAX && (rs != [] ==> lo <= rs[0].base)
    ensures var f := Filled(rs, base, end, nid, flags);
            Flat(f) && (f != [] ==> lo <= f[0].base)
    decreases |rs|, 1
  {
    hide Flat;
    if rs == [] || rs[0].base >= end {
      assert [] + rs == rs;
      if base < end {
        FlatCons(Region(base, end - base, nid, flags), rs);
      }
    } else {
      FlatStep(rs, base, end, nid, flags);
      var r := rs[0];
      FlatTail(rs);
      FilledStep(rs, base, end, nid, flags);
      var rest := Filled(rs[1..], NextBase(r, base, end), end, nid, flags);
      if base < r.base {
        FlatCons(Region(base, r.base - base, nid, flags), [r] + rest);
      }
    }
  }

  lemma {:induction false} FlatStep(rs: seq<Region>, base: nat, end: nat, nid: int, flags: nat)
    requires Flat(rs) && base <= end <= ADDR_MAX && rs != [] && rs[0].base < end
    ensures Flat([rs[0]] + Filled(rs[1..], NextBase(rs[0], base, end), end, nid, flags))
    decreases |rs|, 0
  {
    hide Flat, Filled;
    var r := rs[0];
    var base' := NextBase(r, base, end);
    FlatTail(rs);
    if End(r) <= base' {
      FilledFlat(rs[1..], base', end, nid, flags, End(r));
      FlatCons(r, Filled(rs[1..], base', end, nid, flags));
    } else {
      FilledDone(rs[1..], end, nid, flags);
      assert [r] + rs[1..] == rs;
    }
  }

  lemma LastGap(rs: seq<Region>, base: nat, end: nat, nid: int, flags: nat)
    requires rs == [] || rs[0].base >= end
    ensures |Gaps(rs, base, end)| == if base < end then 1 else 0
    ensures Filled(rs, base, end, nid, flags) == if base < end then [Region(base, end - base, nid, flags)] + rs else rs
  {
  }

  /** Nothing is left to fill. */
  lemma {:induction false} FilledDone(rs: seq<Region>, end: nat, nid: int, flags: nat)
    ensures Filled(rs, end, end, nid, flags) == rs && Gaps(rs, end, end) == []
    decreases |rs|
  {
    hide Filled;
    if rs == [] || rs[0].base >= end {
      LastGap(rs, end, end, nid, flags);
    } else {
      FilledStep(rs, end, end, nid, flags);
      FilledDone(rs[1..], end, nid, flags);
      assert rs == [rs[0]] + rs[1..];
    }
  }

  // ---------------------------------------------------- single list changes

  lemma SumOne(r: Region)
    ensures Sum([r]) == r.size
  {
  }

  lemma SumInsert(rs: seq<Region>, i: nat, r: Region)
    requires i <= |rs|
    ensures Sum(rs[..i] + [r] + rs[i..]) == Sum(rs) + r.size
  {
    hide Sum;
    SumAppend(rs[..i] + [r], rs[i..]);
    SumAppend(rs[..i], [r]);
    SumAppend(rs[..i], rs[i..]);
    SumOne(r);
    assert rs == rs[..i] + rs[i..];
  }

  lemma SumDelete(rs: seq<Region>, i: nat)
    requires i < |rs|
    ensures Sum(rs[..i] + rs[i + 1..]) == Sum(rs) - rs[i].size
  {
    hide Sum;
    SumAppend(rs[..i], rs[i + 1..]);
    SumAppend(rs[..i] + [rs[i]], rs[i + 1..]);
    SumAppend(rs[..i], [rs[i]]);
    SumOne(rs[i]);
    assert rs == rs[..i] + [rs[i]] + rs[i + 1..];
  }

  lemma FlatParts(rs: seq<Region>, i: nat)
    requires Flat(rs) && i <= |rs|
    ensures Flat(rs[..i]) && Flat(rs[i..]) && (0 < i < |rs| ==> End(rs[i - 1]) <= rs[i].base)
  {
  }

  lemma FlatJoin(u: seq<Region>, v: seq<Region>)
    requires Flat(u) && Flat(v) && (u != [] && v != [] ==> End(u[|u| - 1]) <= v[0].base)
    ensures Flat(u + v)
  {
    var s := u + v;
    forall p, q | 0 <= p < q < |s| ensures End(s[p]) <= s[q].base {
      if p < |u| <= q {
        assert End(u[p]) <= End(u[|u| - 1]) by { assert p < |u| - 1 ==> End(u[p]) <= u[|u| - 1].base; }
        assert |u| < q ==> End(v[0]) <= v[q - |u|].base;
      }
    }
  }

  lemma SplitFlat(rs: seq<Region>, i: nat, m: nat, lowNid: int, lowFlags: nat)
    requires Flat(rs) && i < |rs| && rs[i].base < m < End(rs[i])
    ensures var low := Region(rs[i].base, m - rs[i].base, lowNid, lowFlags);
            var high := rs[i].(base := m, size := End(rs[i]) - m);
            Flat(rs[..i] + [low, high] + rs[i + 1..])
  {
    hide Flat;
    var low := Region(rs[i].base, m - rs[i].base, lowNid, lowFlags);
    var high := rs[i].(base := m, size := End(rs[i]) - m);
    FlatParts(rs, i);
    FlatTail(rs[i..]);
    assert rs[i..][1..] == rs[i + 1..];
    FlatCons(high, rs[i + 1..]);
    FlatCons(low, [high] + rs[i + 1..]);
    FlatJoin(rs[..i], [low] + ([high] + rs[i + 1..]));
    assert rs[..i] + [low, high] + rs[i + 1..] == rs[..i] + ([low] + ([high] + rs[i + 1..]));
  }

  predicate Mergeable(x: Region, y: Region) {
    End(x) == y.base && x.nid == y.nid && x.flags == y.flags
  }

  function Joined(rs: seq<Region>, i: nat): seq<Region>
    requires i + 1 < |rs|
  {
    rs[..i] + [rs[i].(size := rs[i].size + rs[i + 1].size)] + rs[i + 2..]
  }

  lemma JoinedFlat(rs: seq<Region>, i: nat)
    requires Flat(rs) && i + 1 < |rs| && End(rs[i]) == rs[i + 1].base
    ensures Flat(Joined(rs, i))
  {
    hide Flat;
    var joined := rs[i].(size := rs[i].size + rs[i + 1].size);
    var rest := rs[i + 2..];
    FlatParts(rs, i);
    FlatTail(rs[i..]);
    FlatTail(rs[i..][1..]);
    assert rs[i..][1..][1..] == rest;
    FlatCons(joined, rest);
    FlatJoin(rs[..i], [joined] + rest);
    assert Joined(rs, i) == rs[..i] + ([joined] + rest);
  }

  lemma JoinedSum(rs: seq<Region>, i: nat)
    requires i + 1 < |rs|
    ensures Sum(Joined(rs, i)) == Sum(rs)
  {
    hide Sum;
    var joined := rs[i].(size := rs[i].size + rs[i + 1].size);
    var rest := rs[i + 2..];
    assert rs == rs[..i] + [rs[i]] + [rs[i + 1]] + rest;
    SumAppend(rs[..i] + [rs[i]] + [rs[i + 1]], rest);
    SumAppend(rs[..i] + [rs[i]], [rs[i + 1]]);
    SumAppend(rs[..i], [rs[i]]);
    SumAppend(rs[..i] + [joined], rest);
    SumAppend(rs[..i], [joined]);
    SumOne(rs[i]);
    SumOne(rs[i + 1]);
    SumOne(joined);
  }

  // ------------------------------------------------------- node and flags

  /** The node and the flags of the region that covers an address. */
  datatype Tag = NoTag | Tag(nid: int, flags: nat)

  function TagAt(rs: seq<Region>, a: int): Tag {
    if rs == [] then NoTag
    else if Inside(rs[0], a) then Tag(rs[0].nid, rs[0].flags)
    else TagAt(rs[1..], a)
  }

  lemma {:induction false} TagAppend(u: seq<Region>, v: seq<Region>, a: int)
    ensures TagAt(u + v, a) == if TagAt(u, a) == NoTag then TagAt(v, a) else TagAt(u, a)
    decreases |u|
  {
    if u == [] {
      assert u + v == v;
    } else {
      assert (u + v)[1..] == u[1..] + v;
      TagAppend(u[1..], v, a);
    }
  }

  lemma TagCons(r: Region, rs: seq<Region>, a: int)
    ensures TagAt([r] + rs, a) == if Inside(r, a) then Tag(r.nid, r.flags) else TagAt(rs, a)
  {
    assert ([r] + rs)[1..] == rs;
  }

  lemma {:induction false} TagIn(rs: seq<Region>, a: int)
    ensures TagAt(rs, a) != NoTag <==> In(rs, a)
    decreases |rs|
  {
    hide In;
    if rs == [] {
      NothingIn(rs, a);
    } else {
      InCons(rs, a);
      TagIn(rs[1..], a);
    }
  }

  lemma NothingIn(rs: seq<Region>, a: int)
    requires rs == []
    ensures !In(rs, a)
  {
  }

  lemma {:induction false} TagBelow(rs: seq<Region>, a: int)
    requires Flat(rs) && (rs != [] ==> a < rs[0].base)
    ensures TagAt(rs, a) == NoTag
    decreases |rs|
  {
    if rs != [] {
      FlatTail(rs);
      TagBelow(rs[1..], a);
    }
  }

  /** Old regions keep their node and flags, and the gaps get the new ones. */
  lemma {:induction false} FilledTag(rs: seq<Region>, base: nat, end: nat, nid: int, flags: nat, a: int)
    requires Flat(rs) && base <= end
    ensures TagAt(Filled(rs, base, end, nid, flags), a) ==
            if TagAt(rs, a) != NoTag then TagAt(rs, a) else if base <= a < end then Tag(nid, flags) else NoTag
    decreases |rs|
  {
    hide Filled, Flat;
    if rs == [] || rs[0].base >= end {
      LastGap(rs, base, end, nid, flags);
      if base < end {
        TagCons(Region(base, end - base, nid, flags), rs, a);
      }
      if a < end {
        TagBelow(rs, a);
      }
    } else {
      var r := rs[0];
      var next := NextBase(r, base, end);
      var rest := Filled(rs[1..], next, end, nid, flags);
      FlatTail(rs);
      FilledStep(rs, base, end, nid, flags);
      FilledTag(rs[1..], next, end, nid, flags, a);
      TagCons(r, rest, a);
      if base < r.base {
        TagCons(Region(base, r.base - base, nid, flags), [r] + rest, a);
        if a < r.base {
          TagBelow(rs, a);
        }
      }
      if a < End(r) {
        TagBelow(rs[1..], a);
      }
    }
  }

  lemma JoinedTag(rs: seq<Region>, i: nat, a: int)
    requires i + 1 < |rs| && Mergeable(rs[i], rs[i + 1])
    ensures TagAt(Joined(rs, i), a) == TagAt(rs, a)
  {
    hide TagAt;
    var x, y, rest := rs[i], rs[i + 1], rs[i + 2..];
    var j := x.(size := x.size + y.size);
    assert rs == rs[..i] + ([x] + ([y] + rest));
    assert Joined(rs, i) == rs[..i] + ([j] + rest);
    TagAppend(rs[..i], [x] + ([y] + rest), a);
    TagAppend(rs[..i], [j] + rest, a);
    TagCons(x, [y] + rest, a);
    TagCons(y, rest, a);
    TagCons(j, rest, a);
  }

  lemma SplitTag(rs: seq<Region>, i: nat, m: nat, a: int)
    requires i < |rs| && rs[i].base <= m <= End(rs[i])
    ensures var low := rs[i].(size := m - rs[i].base);
            var high := rs[i].(base := m, size := End(rs[i]) - m);
            TagAt(rs[..i] + [low, high] + rs[i + 1..], a) == TagAt(rs, a)
  {
    hide TagAt;
    var r, rest := rs[i], rs[i + 1..];
    var low := r.(size := m - r.base);
    var high := r.(base := m, size := End(r) - m);
    assert rs == rs[..i] + ([r] + rest);
    assert rs[..i] + [low, high] + rest == rs[..i] + ([low] + ([high] + rest));
    TagAppend(rs[..i], [r] + rest, a);
    TagAppend(rs[..i], [low] + ([high] + rest), a);
    TagCons(r, rest, a);
    TagCons(low, [high] + rest, a);
    TagCons(high, rest, a);
  }

  /** Two lists that cover the same addresses, each with the same node and flags. */
  ghost predicate SameTags(rs: seq<Region>, was: seq<Region>) {
    forall a :: TagAt(rs, a) == TagAt(was, a)
  }

  /** Joining two mergeable regions keeps the list flat, what it says of every address, and its total. */
  lemma JoinOk(rs: seq<Region>, i: nat)
    requires Flat(rs) && i + 1 < |rs| && Mergeable(rs[i], rs[i + 1])
    ensures Flat(Joined(rs, i)) && Sum(Joined(rs, i)) == Sum(rs) && SameTags(Joined(rs, i), rs)
  {
    hide Flat, Sum, Joined, TagAt;
    JoinedFlat(rs, i);
    JoinedSum(rs, i);
    forall a ensures TagAt(Joined(rs, i), a) == TagAt(rs, a) {
      JoinedTag(rs, i, a);
    }
  }

  // ------------------------------------------------------------- merged lists

  /** No two neighbours could be one region. */
  predicate Merged(rs: seq<Region>) {
    forall i | 0 <= i < |rs| - 1 :: !Mergeable(rs[i], rs[i + 1])
  }

  /** In a merged list, the tag changes where the first region ends. */
  lemma TagChanges(rs: seq<Region>)
    requires Flat(rs) && Merged(rs) && rs != []
    ensures TagAt(rs, rs[0].base) == Tag(rs[0].nid, rs[0].flags) != TagAt(rs, End(rs[0]))
    ensures TagAt(rs[1..], End(rs[0])) == TagAt(rs, End(rs[0]))
  {
    FlatTail(rs);
    var rest := rs[1..];
    if rest != [] && End(rs[0]) < rest[0].base {
      TagBelow(rest, End(rs[0]));
    } else if rest != [] {
      assert !Mergeable(rs[0], rs[1]);
    }
  }

  /** The regions behind the first say nothing of its addresses. */
  lemma TagTail(rs: seq<Region>, a: int)
    requires Flat(rs) && rs != []
    ensures TagAt(rs[1..], a) == if a < End(rs[0]) then NoTag else TagAt(rs, a)
  {
    FlatTail(rs);
    if a < End(rs[0]) {
      TagBelow(rs[1..], a);
    }
  }

  lemma SameTail(u: seq<Region>, v: seq<Region>)
    requires Flat(u) && Flat(v) && u != [] && v != [] && End(u[0]) == End(v[0]) && SameTags(u, v)
    ensures SameTags(u[1..], v[1..])
  {
    hide Flat, TagAt;
    forall a ensures TagAt(u[1..], a) == TagAt(v[1..], a) {
      TagTail(u, a);
      TagTail(v, a);
    }
  }

  /** The first region cannot start or end before the other list's does. */
  lemma FirstNotBefore(u: seq<Region>, v: seq<Region>)
    requires Flat(u) && Merged(u) && Flat(v) && u != [] && SameTags(u, v)
    ensures v != [] && v[0].base <= u[0].base
    ensures u[0].base == v[0].base ==> End(v[0]) <= End(u[0]) && u[0].nid == v[0].nid && u[0].flags == v[0].flags
  {
    hide Flat, Merged;
    TagChanges(u);
    if v == [] || u[0].base < v[0].base {
      TagBelow(v, u[0].base);
    } else if u[0].base == v[0].base {
      FlatTail(u);
      FlatTail(v);
    }
  }

  /**
   A merged list is the only one of its meaning: two such lists that say the same of every address
   are the same list.
   */
  lemma {:induction false} Canonical(u: seq<Region>, v: seq<Region>)
    requires Flat(u) && Merged(u) && Flat(v) && Merged(v) && SameTags(u, v)
    ensures u == v
    decreases |u|
  {
    hide Flat, Merged, TagAt;
    if u != [] {
      FirstNotBefore(u, v);
      FirstNotBefore(v, u);
      SameTail(u, v);
      FlatTail(u);
      FlatTail(v);
      MergedTail(u);
      MergedTail(v);
      Canonical(u[1..], v[1..]);
      assert u == [u[0]] + u[1..] && v == [v[0]] + v[1..];
    } else if v != [] {
      FirstNotBefore(v, u);
    }
  }

  lemma MergedTail(rs: seq<Region>)
    requires Merged(rs) && rs != []
    ensures Merged(rs[1..])
  {
  }
}
