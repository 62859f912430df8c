/**
 Rendering a tree of memory regions into a flat view (qemu/mem.c).  Addresses are unbounded
 integers, as the source's 128-bit ones never wrap.
 */
module MemoryRegions {
  import opened Helpers

  const TWO_64: int := 0x1_0000_0000_0000_0000

  type RegionSize = n: int | 0 <= n <= TWO_64

  /** A `MemoryRegion`; `subregions` are in list order, and an alias is the region it points to. */
  datatype Region = Region(
    id: nat,
    addr: nat,
    size: RegionSize,
    priority: int,
    enabled: bool,
    readonly: bool,
    terminates: bool,
    romdMode: bool,
    dirtyLogMask: nat,
    alias: Option<Region>,
    aliasOffset: nat,
    subregions: seq<Region>)

  /** What an access at some address reaches. */
  datatype Target = Target(mr: nat, offset: int, readonly: bool, romdMode: bool, dirtyLogMask: nat)

  /**
   The specification: which region answers at address a.  An alias answers with what it points
   to; otherwise the first subregion that answers does, and then the region itself.
   */
  function Lookup(mr: Region, base: int, a: int, readonly: bool): Option<Target>
    decreases mr, 0
  {
    var start := base + mr.addr;
    var ro := readonly || mr.readonly;
    if !mr.enabled || !(start <= a < start + mr.size) then None
    else if mr.alias.Some? then
      Lookup(mr.alias.value, start - mr.alias.value.addr - mr.aliasOffset, a, ro)
    else
      var sub := LookupIn(mr.subregions, start, a, ro);
      if sub.Some? then sub
      else if mr.terminates then Some(Target(mr.id, a - start, ro, mr.romdMode, mr.dirtyLogMask))
      else None
  }

  function LookupIn(list: seq<Region>, base: int, a: int, readonly: bool): Option<Target>
    decreases list, 1
  {
    if list == [] then None
    else
      var first := Lookup(list[0], base, a, readonly);
      if first.Some? then first else LookupIn(list[1..], base, a, readonly)
  }

  lemma {:induction false} LookupInAppend(list: seq<Region>, r: Region, base: int, a: int, readonly: bool)
    ensures LookupIn(list + [r], base, a, readonly) ==
            var sub := LookupIn(list, base, a, readonly);
            if sub.Some? then sub else Lookup(r, base, a, readonly)
    decreases |list|
  {
    if list != [] {
      assert (list + [r])[1..] == list[1..] + [r];
      LookupInAppend(list[1..], r, base, a, readonly);
    }
  }

  /** Moving the tree and the address by the same distance changes nothing. */
  lemma {:induction false} LookupShift(mr: Region, base: int, a: int, readonly: bool, d: int)
    ensures Lookup(mr, base + d, a + d, readonly) == Lookup(mr, base, a, readonly)
    decreases mr, 0
  {
    var start := base + mr.addr;
    var ro := readonly || mr.readonly;
    if mr.alias.Some? {
      var target := mr.alias.value;
      LookupShift(target, start - target.addr - mr.aliasOffset, a, ro, d);
      assert start + d - target.addr - mr.aliasOffset == (start - target.addr - mr.aliasOffset) + d;
    } else {
      LookupInShift(mr.subregions, start, a, ro, d);
    }
  }

  lemma {:induction false} LookupInShift(list: seq<Region>, base: int, a: int, readonly: bool, d: int)
    ensures LookupIn(list, base + d, a + d, readonly) == LookupIn(list, base, a, readonly)
    decreases list, 1
  {
    if list != [] {
      LookupShift(list[0], base, a, readonly, d);
      LookupInShift(list[1..], base, a, readonly, d);
    }
  }

  function ReadOnly(t: Option<Target>): Option<Target> {
    if t.Some? then Some(t.value.(readonly := true)) else None
  }

  /** Under a read-only parent the same target answers, and is read-only. */
  lemma {:induction false} LookupReadOnly(mr: Region, base: int, a: int)
    ensures Lookup(mr, base, a, true) == ReadOnly(Lookup(mr, base, a, false))
    decreases mr, 0
  {
    var start := base + mr.addr;
    if mr.alias.Some? {
      LookupReadOnly(mr.alias.value, start - mr.alias.value.addr - mr.aliasOffset, a);
    } else {
      LookupInReadOnly(mr.subregions, start, a);
    }
  }

  lemma {:induction false} LookupInReadOnly(list: seq<Region>, base: int, a: int)
    ensures LookupIn(list, base, a, true) == ReadOnly(LookupIn(list, base, a, false))
    decreases list, 1
  {
    if list != [] {
      LookupReadOnly(list[0], base, a);
      LookupInReadOnly(list[1..], base, a);
    }
  }

  /**
   An alias answers at each of its addresses as the region it points to does, in that region's own
   coordinates, at the distance from its start plus the alias offset.
   */
  lemma AliasAnswers(mr: Region, base: int, a: int)
    requires mr.enabled && mr.alias.Some? && base + mr.addr <= a < base + mr.addr + mr.size
    ensures var target := mr.alias.value;
            var there := Lookup(target, 0 - target.addr, a - (base + mr.addr) + mr.aliasOffset, false);
            Lookup(mr, base, a, false) == if mr.readonly then ReadOnly(there) else there
  {
    var target := mr.alias.value;
    var d := base + mr.addr - mr.aliasOffset;
    LookupShift(target, 0 - target.addr, a - d, mr.readonly, d);
    LookupReadOnly(target, 0 - target.addr, a - d);
  }
}

module FlatViews {
  import opened Helpers
  import opened MemoryRegions

  datatype AddrRange = AddrRange(start: int, size: int)

  /** `addrrange_end` */
  function End(r: AddrRange): int { r.start + r.size }

  /** `addrrange_contains` */
  predicate Contains(r: AddrRange, a: int) { r.start <= a < End(r) }

  /** `addrrange_intersects` looks at the start points only. */
  predicate Intersects(r1: AddrRange, r2: AddrRange) {
    Contains(r1, r2.start) || Contains(r2, r1.start)
  }

  /** `addrrange_intersection` */
  function Intersection(r1: AddrRange, r2: AddrRange): (r: AddrRange)
    requires r1.size >= 0 && r2.size >= 0
    ensures forall a :: Contains(r, a) <==> Contains(r1, a) && Contains(r2, a)
    ensures Intersects(r1, r2) ==> r.size >= 0
  {
    var start := if r1.start > r2.start then r1.start else r2.start;
    var end := if End(r1) < End(r2) then End(r1) else End(r2);
    AddrRange(start, end - start)
  }

  /** Testing the start points alone finds every common address. */
  lemma IntersectsFindsAll(r1: AddrRange, r2: AddrRange, a: int)
    requires Contains(r1, a) && Contains(r2, a)
    ensures Intersects(r1, r2)
  {
  }

  datatype FlatRange = FlatRange(
    mr: nat, offset: int, addr: AddrRange, romdMode: bool, readonly: bool, dirtyLogMask: nat)

  /** The ranges of a view lie in address order, do not overlap, and are not empty. */
  predicate Flat(view: seq<FlatRange>) {
    && (forall fr <- view :: fr.addr.size > 0)
    && (forall i, j | 0 <= i < j < |view| :: End(view[i].addr) <= view[j].addr.start)
  }

  function TargetOf(fr: FlatRange, a: int): Target {
    Target(fr.mr, fr.offset + (a - fr.addr.start), fr.readonly, fr.romdMode, fr.dirtyLogMask)
  }

  /** What the view gives at address a. */
  function At(view: seq<FlatRange>, a: int): Option<Target> {
    if view == [] then None
    else if Contains(view[0].addr, a) then Some(TargetOf(view[0], a))
    else At(view[1..], a)
  }

  function OrElse<T>(x: Option<T>, y: Option<T>): Option<T> { if x.Some? then x else y }

  lemma {:induction false} AtAppend(u: seq<FlatRange>, v: seq<FlatRange>, a: int)
    ensures At(u + v, a) == OrElse(At(u, a), At(v, a))
    decreases |u|
  {
    if u == [] {
      assert u + v == v;
    } else {
      assert (u + v)[1..] == u[1..] + v;
      AtAppend(u[1..], v, a);
    }
  }

  lemma {:induction false} AtNone(view: seq<FlatRange>, a: int)
    requires forall fr <- view :: !Contains(fr.addr, a)
    ensures At(view, a) == None
  {
    if view != [] {
      AtNone(view[1..], a);
    }
  }

  /** The view after a region has been rendered into it, address by address. */
  function Overlay(view: seq<FlatRange>, clip: AddrRange, under: Option<Target>, a: int): Option<Target> {
    OrElse(At(view, a), if Contains(clip, a) then under else None)
  }

  // ------------------------------------------- filling the gaps of a view

  /** The part [b, b + now) of the region whose range is `own`. */
  function Piece(own: FlatRange, b: int, now: int): FlatRange {
    own.(offset := own.offset + (b - own.addr.start), addr := AddrRange(b, now))
  }

  function Own(own: FlatRange, b: int, a: int): Option<Target> {
    if own.addr.start <= a < b then Some(TargetOf(own, a)) else None
  }

  /**
   The loop that renders `own` into the gaps of v0 has dealt with the first k ranges of v0 and
   with all addresses of `own` below b; the first i ranges of v are final.
   */
  ghost predicate Filling(v0: seq<FlatRange>, v: seq<FlatRange>, i: int, k: int, own: FlatRange, b: int) {
    && 0 <= i <= |v| && 0 <= k <= |v0| && v[i..] == v0[k..] && Flat(v)
    && own.addr.start <= b <= End(own.addr)
    && (b < End(own.addr) ==> Below(v[..i], b))
    && Agree(v[..i], v0[..k], own, b) && Bare(v[i..], own.addr.start, b)
  }

  /** The ranges u show what u0 shows, and `own` below b where that shows nothing. */
  ghost predicate Agree(u: seq<FlatRange>, u0: seq<FlatRange>, own: FlatRange, b: int) {
    forall a :: At(u, a) == OrElse(At(u0, a), Own(own, b, a))
  }

  ghost predicate Below(u: seq<FlatRange>, b: int) {
    forall fr <- u :: End(fr.addr) <= b
  }

  ghost predicate Bare(u: seq<FlatRange>, lo: int, hi: int) {
    forall a | lo <= a < hi :: At(u, a) == None
  }

  lemma AtNext(v: seq<FlatRange>, i: nat, a: int)
    requires i < |v|
    ensures At(v[..i + 1], a) == OrElse(At(v[..i], a), if Contains(v[i].addr, a) then Some(TargetOf(v[i], a)) else None)
    ensures At(v[i..], a) == if Contains(v[i].addr, a) then Some(TargetOf(v[i], a)) else At(v[i + 1..], a)
  {
    assert v[..i + 1] == v[..i] + [v[i]];
    AtAppend(v[..i], [v[i]], a);
    assert v[i..][1..] == v[i + 1..];
  }

  /** The view's next range is passed: what of `own` lies under it stays hidden. */
  lemma PassRange(v0: seq<FlatRange>, v: seq<FlatRange>, i: int, k: int, own: FlatRange, b: int, b': int)
    requires Filling(v0, v, i, k, own, b) && i < |v|
    requires || (b' == b && (End(v[i].addr) <= b || b == End(own.addr)))
             || (v[i].addr.start <= b < End(v[i].addr) && b' == Min(End(own.addr), End(v[i].addr)))
    ensures k < |v0| && Filling(v0, v, i + 1, k + 1, own, b')
  {
    hide At, Flat;
    assert v[i] == v0[k] by { assert v[i] == v[i..][0] && v0[k] == v0[k..][0]; }
    assert v[i + 1..] == v0[k + 1..] by { assert v[i + 1..] == v[i..][1..] && v0[k + 1..] == v0[k..][1..]; }
    var u, u0, w := v[..i + 1], v0[..k + 1], v[i + 1..];
    forall a
      ensures At(u, a) == OrElse(At(u0, a), Own(own, b', a))
      ensures own.addr.start <= a < b' ==> At(w, a) == None
    {
      AtNext(v, i, a);
      AtNext(v0, k, a);
      if a < End(v[i].addr) {
        AtAfter(v, i, a);
      }
    }
    assert u == v[..i] + [v[i]];
  }

  lemma RangePositive(v: seq<FlatRange>, i: nat)
    requires Flat(v) && i < |v|
    ensures v[i].addr.size > 0
  {
    assert v[i] in v;
  }

  lemma AtAfter(v: seq<FlatRange>, i: nat, a: int)
    requires Flat(v) && i < |v| && a < End(v[i].addr)
    ensures At(v[i + 1..], a) == None
  {
    AtNone(v[i + 1..], a);
  }

  /** A gap before the next range is filled with the part of `own` that lies in it. */
  lemma FillGap(v0: seq<FlatRange>, v: seq<FlatRange>, i: int, k: int, own: FlatRange, b: int, now: int)
    requires Filling(v0, v, i, k, own, b) && 0 < now <= End(own.addr) - b
    requires i < |v| ==> b + now <= v[i].addr.start
    ensures FitsAt(v, i, Piece(own, b, now))
    ensures Filling(v0, v[..i] + [Piece(own, b, now)] + v[i..], i + 1, k, own, b + now)
  {
    hide At, Flat;
    var fr := Piece(own, b, now);
    var w := v[..i] + [fr] + v[i..];
    assert w[..i] == v[..i] && w[i] == fr && w[i + 1..] == v[i..];
    assert w[..i + 1] == v[..i] + [fr];
    FlatInsert(v, i, fr);
    var u, rest := w[..i + 1], w[i + 1..];
    forall a
      ensures At(u, a) == OrElse(At(v0[..k], a), Own(own, b + now, a))
      ensures own.addr.start <= a < b + now ==> At(rest, a) == None
    {
      AtNext(w, i, a);
      if own.addr.start <= a < b + now {
        AtFrom(v, i, a);
      }
    }
  }

  lemma AtFrom(v: seq<FlatRange>, i: nat, a: int)
    requires Flat(v) && i <= |v| && (i < |v| ==> a < v[i].addr.start)
    ensures At(v[i..], a) == None
  {
    forall fr | fr in v[i..] ensures a < fr.addr.start {
      var j :| i <= j < |v| && v[j] == fr;
      assert i < j ==> End(v[i].addr) <= v[j].addr.start;
      assert v[i] in v;
    }
    AtNone(v[i..], a);
  }

  /** The range lies between its neighbours at this position: sorting is up to the caller. */
  predicate FitsAt(v: seq<FlatRange>, i: nat, fr: FlatRange) {
    && i <= |v| && fr.addr.size > 0
    && (forall r <- v[..i] :: End(r.addr) <= fr.addr.start)
    && (i < |v| ==> End(fr.addr) <= v[i].addr.start)
  }

  lemma FlatInsert(v: seq<FlatRange>, i: nat, fr: FlatRange)
    requires Flat(v) && FitsAt(v, i, fr)
    ensures Flat(v[..i] + [fr] + v[i..])
  {
    var w := v[..i] + [fr] + v[i..];
    forall p, q | 0 <= p < q < |w| ensures End(w[p].addr) <= w[q].addr.start {
      if q == i {
        assert w[p] in v[..i];
      } else if p == i {
        assert w[q] == v[q - 1];
        assert v[i] in v;
      }
    }
  }

  /** The view with one range more shows that range, and else what it showed. */
  lemma AtInserted(v: seq<FlatRange>, i: nat, fr: FlatRange, a: int)
    requires Flat(v) && FitsAt(v, i, fr)
    ensures At(v[..i] + [fr] + v[i..], a) == if Contains(fr.addr, a) then Some(TargetOf(fr, a)) else At(v, a)
  {
    hide Flat;
    AtAppend(v[..i] + [fr], v[i..], a);
    AtAppend(v[..i], [fr], a);
    AtAppend(v[..i], v[i..], a);
    assert v == v[..i] + v[i..];
    if Contains(fr.addr, a) {
      AtNone(v[..i], a);
    }
  }

  /** When nothing of `own` is left, the view is v0 with `own` in its gaps. */
  lemma Filled(v0: seq<FlatRange>, v: seq<FlatRange>, i: int, k: int, own: FlatRange, a: int)
    requires Filling(v0, v, i, k, own, End(own.addr))
    ensures At(v, a) == Overlay(v0, own.addr, Some(TargetOf(own, a)), a)
  {
    assert v == v[..i] + v[i..] && v0 == v0[..k] + v0[k..];
    AtAppend(v[..i], v[i..], a);
    AtAppend(v0[..k], v0[k..], a);
  }

  // ---------------------------------------------------------------- the view

  class FlatView {
    var ranges: seq<FlatRange>

    constructor ()
      ensures ranges == []
    {
      ranges := [];
    }

    /** `flatview_insert`: the view stays sorted, and shows the new range besides what it showed. */
    method Insert(pos: nat, range: FlatRange)
      requires Flat(ranges) && FitsAt(ranges, pos, range)
      modifies this
      ensures ranges == old(ranges[..pos] + [range] + ranges[pos..]) && Flat(ranges)
      ensures forall a :: At(ranges, a) == if Contains(range.addr, a) then Some(TargetOf(range, a))
              else old(At(ranges, a))
    {
      hide At, Flat;
      FlatInsert(ranges, pos, range);
      forall a
        ensures At(ranges[..pos] + [range] + ranges[pos..], a) ==
                if Contains(range.addr, a) then Some(TargetOf(range, a)) else At(ranges, a)
      {
        AtInserted(ranges, pos, range, a);
      }
      ranges := ranges[..pos] + [range] + ranges[pos..];
    }

    /** The part of `render_memory_region` that renders a region into the gaps left by the view. */
    method RenderSelf(own: FlatRange)
      requires Flat(ranges) && own.addr.size >= 0
      modifies this
      ensures Flat(ranges)
      ensures forall a :: At(ranges, a) == Overlay(old(ranges), own.addr, Some(TargetOf(own, a)), a)
    {
      hide At, Flat, Overlay, FitsAt;
      ghost var v0 := ranges;
      ghost var k := 0;
      var base, remain := own.addr.start, own.addr.size;
      var i := 0;
      FillingStart(v0, own);
      while i < |ranges| && remain != 0
        invariant base + remain == End(own.addr) && Filling(v0, ranges, i, k, own, base)
        decreases |v0| - k, remain
      {
        if base >= End(ranges[i].addr) {
          PassRange(v0, ranges, i, k, own, base, base);
          i, k := i + 1, k + 1;
          continue;
        }
        if base < ranges[i].addr.start {
          var now := Min(remain, ranges[i].addr.start - base);
          FillGap(v0, ranges, i, k, own, base, now);
          Insert(i, Piece(own, base, now));
          i := i + 1;
          base := base + now;
          remain := remain - now;
        }
        RangePositive(ranges, i);
        var now := Min(base + remain, End(ranges[i].addr)) - base;
        PassRange(v0, ranges, i, k, own, base, base + now);
        base := base + now;
        remain := remain - now;
        i, k := i + 1, k + 1;
      }
      if remain != 0 {
        FillGap(v0, ranges, i, k, own, base, remain);
        Insert(i, Piece(own, base, remain));
        i := i + 1;
      }
      forall a ensures At(ranges, a) == Overlay(v0, own.addr, Some(TargetOf(own, a)), a) {
        Filled(v0, ranges, i, k, own, a);
      }
    }

    /**
     `render_memory_region`.  Whatever the view shows already stays; elsewhere, within the clip, it
     then shows what the lookup through the region tree finds.
     */
    method Render(mr: Region, base: int, clip: AddrRange, readonly: bool)
      requires Flat(ranges) && clip.size >= 0
      modifies this
      ensures Flat(ranges)
      ensures forall a :: At(ranges, a) == Overlay(old(ranges), clip, Lookup(mr, base, a, readonly), a)
      decreases mr
    {
      hide At, Flat;
      ghost var v0 := ranges;
      if !mr.enabled {
        return;
      }
      var start := base + mr.addr;
      var ro := readonly || mr.readonly;
      var tmp := AddrRange(start, mr.size);
      if !Intersects(tmp, clip) {
        forall a ensures At(ranges, a) == Overlay(v0, clip, Lookup(mr, base, a, readonly), a) {
          if Contains(clip, a) && Contains(tmp, a) {
            IntersectsFindsAll(tmp, clip, a);
          }
        }
        return;
      }
      var inner := Intersection(tmp, clip);
      if mr.alias.Some? {
        Render(mr.alias.value, start - mr.alias.value.addr - mr.aliasOffset, inner, ro);
        return;
      }
      for n := 0 to |mr.subregions|
        invariant Flat(ranges)
        invariant forall a :: At(ranges, a) == Overlay(v0, inner, LookupIn(mr.subregions[..n], start, a, ro), a)
      {
        ghost var v1 := ranges;
        Render(mr.subregions[n], start, inner, ro);
        assert mr.subregions[..n + 1] == mr.subregions[..n] + [mr.subregions[n]];
        forall a ensures At(ranges, a) == Overlay(v0, inner, LookupIn(mr.subregions[..n + 1], start, a, ro), a) {
          LookupInAppend(mr.subregions[..n], mr.subregions[n], start, a, ro);
        }
      }
      assert mr.subregions[..|mr.subregions|] == mr.subregions;
      if !mr.terminates {
        return;
      }
      var offset := inner.start - start;
      assert 0 <= offset < TWO_64;
      RenderSelf(FlatRange(mr.id, offset, inner, mr.romdMode, ro, mr.dirtyLogMask));
    }
  }

  /** `generate_memory_topology`, before simplification: the whole 64-bit space below one root. */
  method GenerateTopology(root: Option<Region>) returns (view: seq<FlatRange>)
    ensures Flat(view)
    ensures forall a :: At(view, a) ==
                        if root.Some? && 0 <= a < TWO_64 then Lookup(root.value, 0, a, false) else None
  {
    var fv := new FlatView();
    if root.Some? {
      fv.Render(root.value, 0, AddrRange(0, TWO_64), false);
    }
    view := fv.ranges;
  }

  lemma FillingStart(v0: seq<FlatRange>, own: FlatRange)
    requires Flat(v0) && own.addr.size >= 0
    ensures Filling(v0, v0, 0, 0, own, own.addr.start)
  {
  }
}
