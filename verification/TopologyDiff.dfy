/**
 Telling a listener about a new flat view (`address_space_update_topology`, in qemu/mem.c and
 again in qemu/virtio-mem.c): two passes over the old and the new view, first deleting ranges
 that are gone or changed, then adding those that are new or changed.
 */
module TopologyDiff {
  import opened Helpers
  import opened MemoryRegions
  import opened FlatViews

  /** All that `flatrange_equal` compares: everything but the logging state. */
  function Core(fr: FlatRange): FlatRange { fr.(dirtyLogMask := 0) }

  predicate Equal(x: FlatRange, y: FlatRange) { Core(x) == Core(y) }

  function Cores(view: seq<FlatRange>): set<FlatRange> { set fr <- view :: Core(fr) }

  /**
   Ranges are equal exactly if they are in the same place and reach the same target at each of their
   addresses, whether logged or not.
   */
  lemma EqualIff(x: FlatRange, y: FlatRange)
    requires x.addr.size > 0
    ensures Equal(x, y) <==>
            x.addr == y.addr && forall a | Contains(x.addr, a) :: SameTarget(TargetOf(x, a), TargetOf(y, a))
  {
    if x.addr == y.addr && forall a | Contains(x.addr, a) :: SameTarget(TargetOf(x, a), TargetOf(y, a)) {
      assert SameTarget(TargetOf(x, x.addr.start), TargetOf(y, x.addr.start));
    }
  }

  /** The same region, offset and access rights; the log mask may differ. */
  predicate SameTarget(x: Target, y: Target) {
    x == y.(dirtyLogMask := x.dirtyLogMask)
  }

  /** A listener that holds these ranges reaches the same target as the view at address a, or both reach none. */
  ghost predicate Answers(live: set<FlatRange>, view: seq<FlatRange>, a: int) {
    match At(view, a)
    case None => forall fr <- live :: !Contains(fr.addr, a)
    case Some(target) =>
      && (exists fr :: fr in live && Contains(fr.addr, a))
      && (forall fr <- live | Contains(fr.addr, a) :: SameTarget(TargetOf(fr, a), target))
  }

  lemma CoreKeeps(fr: FlatRange, a: int)
    ensures Core(fr).addr == fr.addr && SameTarget(TargetOf(Core(fr), a), TargetOf(fr, a))
  {
  }

  /** In a flat view, the range with the address gives the answer. */
  lemma {:induction false} AtRange(view: seq<FlatRange>, fr: FlatRange, a: int)
    requires Flat(view) && fr in view && Contains(fr.addr, a)
    ensures At(view, a) == Some(TargetOf(fr, a))
    decreases |view|
  {
    if fr != view[0] {
      var k :| 0 < k < |view| && view[k] == fr;
      assert view[1..][k - 1] == fr;
      AtRange(view[1..], fr, a);
    }
  }

  lemma {:induction false} AtSome(view: seq<FlatRange>, a: int) returns (fr: FlatRange)
    requires At(view, a).Some?
    ensures fr in view && Contains(fr.addr, a)
    decreases |view|
  {
    if Contains(view[0].addr, a) {
      fr := view[0];
    } else {
      fr := AtSome(view[1..], a);
    }
  }

  /** The ranges of a view answer as the view does. */
  lemma CoresAnswer(view: seq<FlatRange>, a: int)
    requires Flat(view)
    ensures Answers(Cores(view), view, a)
  {
    hide At, Flat, TargetOf, Core;
    forall fr | fr in Cores(view) && Contains(fr.addr, a)
      ensures At(view, a).Some? && SameTarget(TargetOf(fr, a), At(view, a).value)
    {
      var k :| 0 <= k < |view| && Core(view[k]) == fr;
      CoreKeeps(view[k], a);
      AtRange(view, view[k], a);
    }
    if At(view, a).Some? {
      var fr := AtSome(view, a);
      CoreKeeps(fr, a);
      assert Core(fr) in Cores(view);
    }
  }

  predicate Disjoint(x: FlatRange, y: FlatRange) {
    End(x.addr) <= y.addr.start || End(y.addr) <= x.addr.start
  }

  /**
   A memory listener.  The preconditions of its callbacks are the protocol that listeners rely
   on: only live ranges are deleted or confirmed, and no range is added over a live one.
   */
  class Listener {
    var live: set<FlatRange>
    /** The sections announced by add and nop callbacks, in order. */
    var announced: seq<FlatRange>

    constructor ()
      ensures live == {} && announced == []
    {
      live, announced := {}, [];
    }

    method RegionDel(fr: FlatRange)
      requires Core(fr) in live
      modifies this`live
      ensures live == old(live) - {Core(fr)}
    {
      live := live - {Core(fr)};
    }

    method RegionNop(fr: FlatRange)
      requires Core(fr) in live
      modifies this`announced
      ensures announced == old(announced) + [fr]
    {
      announced := announced + [fr];
    }

    method RegionAdd(fr: FlatRange)
      requires forall other <- live :: Disjoint(other, fr)
      modifies this
      ensures live == old(live) + {Core(fr)} && announced == old(announced) + [fr]
    {
      live := live + {Core(fr)};
      announced := announced + [fr];
    }
  }

  // --------------------------------------------------------------- the merge

  /** The next ranges of both views start after everything that has been dealt with. */
  ghost predicate Aligned(o: seq<FlatRange>, n: seq<FlatRange>, i: nat, j: nat) {
    && i <= |o| && j <= |n|
    && (forall m | 0 <= m < j && i < |o| :: n[m].addr.start < o[i].addr.start)
    && (forall k | 0 <= k < i && j < |n| :: o[k].addr.start <= n[j].addr.start && !Equal(o[k], n[j]))
  }

  lemma Starts(v: seq<FlatRange>, p: nat, q: nat)
    requires Flat(v) && p < q < |v|
    ensures v[p].addr.start < v[q].addr.start
  {
    assert v[p] in v;
  }

  /** An old range is passed over: it is not in the new view. */
  lemma GoneOrChanged(o: seq<FlatRange>, n: seq<FlatRange>, i: nat, j: nat)
    requires Flat(o) && Flat(n) && Aligned(o, n, i, j) && i < |o|
    requires j == |n| || o[i].addr.start < n[j].addr.start || (o[i].addr.start == n[j].addr.start && !Equal(o[i], n[j]))
    ensures Core(o[i]) !in Cores(n) && Aligned(o, n, i + 1, j)
  {
    forall m | 0 <= m < |n| ensures Core(n[m]) != Core(o[i]) {
      assert n[m].addr == Core(n[m]).addr && o[i].addr == Core(o[i]).addr;
      if j < m {
        Starts(n, j, m);
      }
    }
    if i + 1 < |o| {
      Starts(o, i, i + 1);
    }
  }

  /** A new range is passed over: it is not in the old view. */
  lemma NewOrChanged(o: seq<FlatRange>, n: seq<FlatRange>, i: nat, j: nat)
    requires Flat(o) && Flat(n) && Aligned(o, n, i, j) && j < |n|
    requires i == |o| || n[j].addr.start < o[i].addr.start
    ensures Core(n[j]) !in Cores(o) && Aligned(o, n, i, j + 1)
  {
    forall k | 0 <= k < |o| ensures Core(o[k]) != Core(n[j]) {
      assert o[k].addr == Core(o[k]).addr && n[j].addr == Core(n[j]).addr;
      if i < k {
        Starts(o, i, k);
      }
    }
    if j + 1 < |n| {
      Starts(n, j, j + 1);
    }
  }

  /** A range that is in both views is passed over in both. */
  lemma InBoth(o: seq<FlatRange>, n: seq<FlatRange>, i: nat, j: nat)
    requires Flat(o) && Flat(n) && Aligned(o, n, i, j) && i < |o| && j < |n| && Equal(o[i], n[j])
    ensures Aligned(o, n, i + 1, j + 1)
    ensures Core(o[i]) in Cores(n) && Core(n[j]) in Cores(o)
  {
    assert o[i].addr == Core(o[i]).addr == Core(n[j]).addr == n[j].addr;
    if i + 1 < |o| {
      Starts(o, i, i + 1);
    }
    if j + 1 < |n| {
      Starts(n, j, j + 1);
    }
  }

  lemma CoresNext(v: seq<FlatRange>, i: nat)
    requires i < |v|
    ensures Cores(v[..i + 1]) == Cores(v[..i]) + {Core(v[i])}
    ensures Cores(v[i..]) == Cores(v[i + 1..]) + {Core(v[i])}
  {
    assert v[..i + 1] == v[..i] + [v[i]];
    assert v[i..] == [v[i]] + v[i + 1..];
  }

  lemma CoreUnique(v: seq<FlatRange>, i: nat)
    requires Flat(v) && i < |v|
    ensures Core(v[i]) !in Cores(v[..i]) && Core(v[i]) !in Cores(v[i + 1..])
  {
    forall k | 0 <= k < |v| && k != i ensures Core(v[k]) != Core(v[i]) {
      assert v[k].addr == Core(v[k]).addr && v[i].addr == Core(v[i]).addr;
      if k < i {
        Starts(v, k, i);
      } else {
        Starts(v, i, k);
      }
    }
  }

  /** The ranges of one view do not overlap. */
  lemma OthersDisjoint(n: seq<FlatRange>, j: nat, other: FlatRange)
    requires Flat(n) && j < |n| && other in Cores(n) && other != Core(n[j])
    ensures Disjoint(other, n[j])
  {
    var m :| 0 <= m < |n| && Core(n[m]) == other;
    assert n[m].addr == other.addr;
  }

  /**
   One pass.  The deleting pass leaves live what the views have in common; the adding pass
   makes the new view live and announces it, range by range and in order.
   */
  method UpdatePass(o: seq<FlatRange>, n: seq<FlatRange>, adding: bool, l: Listener)
    requires Flat(o) && Flat(n)
    requires l.live == if adding then Cores(o) * Cores(n) else Cores(o)
    modifies l
    ensures l.live == if adding then Cores(n) else Cores(o) * Cores(n)
    ensures l.announced == if adding then old(l.announced) + n else old(l.announced)
  {
    hide Flat, Cores;
    ghost var common := Cores(o) * Cores(n);
    var i, j := 0, 0;
    CoresSplit(o, 0);
    CoresSplit(n, 0);
    while i < |o| || j < |n|
      invariant Aligned(o, n, i, j)
      invariant !adding ==> l.live == common * Cores(o[..i]) + Cores(o[i..]) && l.announced == old(l.announced)
      invariant adding ==> l.live == common + Cores(n[..j]) && l.announced == old(l.announced) + n[..j]
      decreases |o| - i + |n| - j
    {
      if i < |o| && (j == |n| || o[i].addr.start < n[j].addr.start
                     || (o[i].addr.start == n[j].addr.start && !Equal(o[i], n[j]))) {
        GoneOrChanged(o, n, i, j);
        CoresNext(o, i);
        CoreUnique(o, i);
        if !adding {
          l.RegionDel(o[i]);
        }
        i := i + 1;
      } else if i < |o| && j < |n| && Equal(o[i], n[j]) {
        InBoth(o, n, i, j);
        CoresNext(o, i);
        CoresNext(n, j);
        if adding {
          l.RegionNop(n[j]);
        }
        i, j := i + 1, j + 1;
      } else {
        NewOrChanged(o, n, i, j);
        CoresNext(n, j);
        CoresSplit(n, j);
        if adding {
          forall other | other in l.live ensures Disjoint(other, n[j]) {
            CoreUnique(n, j);
            OthersDisjoint(n, j, other);
          }
          l.RegionAdd(n[j]);
        }
        j := j + 1;
      }
    }
    CoresSplit(o, |o|);
    CoresSplit(n, |n|);
    assert n[..j] == n;
  }

  lemma CoresSplit(v: seq<FlatRange>, i: nat)
    requires i <= |v|
    ensures Cores(v) == Cores(v[..i]) + Cores(v[i..])
    ensures i == 0 ==> Cores(v[..i]) == {} && Cores(v[i..]) == Cores(v)
    ensures i == |v| ==> Cores(v[i..]) == {} && Cores(v[..i]) == Cores(v)
  {
    assert v == v[..i] + v[i..];
  }

  /**
   The two passes turn a listener that holds exactly the old view into one that holds exactly
   the new view, never adding over a live range, and announce the new view in order.  The listener
   then reaches what the new view reaches, at every address.
   */
  method UpdateTopology(o: seq<FlatRange>, n: seq<FlatRange>, l: Listener)
    requires Flat(o) && Flat(n) && l.live == Cores(o)
    modifies l
    ensures l.live == Cores(n) && l.announced == old(l.announced) + n
    ensures forall a :: Answers(l.live, n, a)
  {
    hide Flat, Cores, Answers;
    UpdatePass(o, n, false, l);
    UpdatePass(o, n, true, l);
    forall a ensures Answers(l.live, n, a) {
      CoresAnswer(n, a);
    }
  }
}
