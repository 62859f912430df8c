/**
 The subregion list of a container (qemu/virtio-mem.c): priority-ordered insertion, and which
 subregion wins at an address once any number of subregions has been added.
 */
module Subregions {
  import opened Helpers
  import opened MemoryRegions

  /** Where `memory_region_update_container_subregions` puts a new subregion. */
  function Position(list: seq<Region>, priority: int): (pos: nat)
    ensures pos <= |list|
    ensures forall i | 0 <= i < pos :: priority < list[i].priority
    ensures pos < |list| ==> list[pos].priority <= priority
  {
    if list == [] || list[0].priority <= priority then 0 else 1 + Position(list[1..], priority)
  }

  function Inserted(list: seq<Region>, r: Region): seq<Region> {
    var pos := Position(list, r.priority);
    list[..pos] + [r] + list[pos..]
  }

  class Container {
    var subregions: seq<Region>

    constructor ()
      ensures subregions == []
    {
      subregions := [];
    }

    /** The insertion loop of `memory_region_update_container_subregions`. */
    method AddSubregion(subregion: Region)
      modifies this
      ensures subregions == Inserted(old(subregions), subregion)
    {
      ghost var pos := Position(subregions, subregion.priority);
      for i := 0 to |subregions|
        invariant i <= pos
        invariant subregions == old(subregions)
      {
        if subregion.priority >= subregions[i].priority {
          subregions := subregions[..i] + [subregion] + subregions[i..];
          return;
        }
      }
      assert subregions[..pos] == subregions && subregions[pos..] == [];
      subregions := subregions + [subregion];
    }
  }

  // -------------------------------------------------- many insertions, oldest first

  /** The list after the regions of `added` have been added, oldest first. */
  function Built(added: seq<Region>): seq<Region> {
    if added == [] then [] else Inserted(Built(added[..|added| - 1]), added[|added| - 1])
  }

  ghost predicate Within(order: seq<nat>, n: nat) {
    forall k | 0 <= k < |order| :: order[k] < n
  }

  /** The same list as positions in `added`. */
  ghost function Order(added: seq<Region>): (order: seq<nat>)
    ensures |order| == |added|
    ensures Within(order, |added|)
  {
    if added == [] then []
    else
      var n := |added| - 1;
      var rest := Order(added[..n]);
      var pos := Position(Named(added[..n], rest), added[n].priority);
      rest[..pos] + [n] + rest[pos..]
  }

  ghost function Named(added: seq<Region>, order: seq<nat>): (list: seq<Region>)
    requires Within(order, |added|)
    ensures |list| == |order| && forall k | 0 <= k < |list| :: list[k] == added[order[k]]
  {
    seq(|order|, k requires 0 <= k < |order| => added[order[k]])
  }

  /** i goes before j: higher priority, or the same priority and added later. */
  predicate Outranks(added: seq<Region>, i: nat, j: nat)
    requires i < |added| && j < |added|
  {
    added[i].priority > added[j].priority || (added[i].priority == added[j].priority && i > j)
  }

  ghost predicate Ranked(added: seq<Region>, order: seq<nat>) {
    && Within(order, |added|)
    && (forall p, q | 0 <= p < q < |order| :: Outranks(added, order[p], order[q]))
  }

  lemma NamedInsert(added: seq<Region>, rest: seq<nat>, pos: nat)
    requires added != [] && Within(rest, |added| - 1) && pos <= |rest|
    ensures var n := |added| - 1;
            var list := Named(added[..n], rest);
            Within(rest[..pos] + [n] + rest[pos..], |added|)
            && Named(added, rest[..pos] + [n] + rest[pos..]) == list[..pos] + [added[n]] + list[pos..]
  {
  }

  lemma {:induction false} OrderBuilt(added: seq<Region>)
    ensures Built(added) == Named(added, Order(added))
  {
    if added != [] {
      var n := |added| - 1;
      var rest := Order(added[..n]);
      OrderBuilt(added[..n]);
      NamedInsert(added, rest, Position(Named(added[..n], rest), added[n].priority));
    }
  }

  lemma InsertRanked(added: seq<Region>, rest: seq<nat>, pos: nat)
    requires added != [] && Ranked(added[..|added| - 1], rest) && pos <= |rest|
    requires var n := |added| - 1;
             && (forall p | 0 <= p < pos :: added[rest[p]].priority > added[n].priority)
             && (pos < |rest| ==> added[rest[pos]].priority <= added[n].priority)
    ensures Ranked(added, rest[..pos] + [|added| - 1] + rest[pos..])
  {
    var n := |added| - 1;
    var was := added[..n];
    var order := rest[..pos] + [n] + rest[pos..];
    assert Within(order, |added|);
    forall p, q | 0 <= p < q < |order| ensures Outranks(added, order[p], order[q]) {
      var p', q' := if p < pos then p else p - 1, if q < pos then q else q - 1;
      if p != pos && q != pos {
        assert order[p] == rest[p'] && order[q] == rest[q'];
        assert Outranks(was, rest[p'], rest[q']);
      } else if p == pos {
        assert order[q] == rest[q'];
        if pos < q' {
          assert Outranks(was, rest[pos], rest[q']);
        }
      } else {
        assert order[p] == rest[p];
      }
    }
  }

  lemma InsertKeeps(rest: seq<nat>, pos: nat, n: nat, i: nat)
    requires pos <= |rest| && (i in rest || i == n)
    ensures i in rest[..pos] + [n] + rest[pos..]
  {
    var order := rest[..pos] + [n] + rest[pos..];
    if i == n {
      assert order[pos] == n;
    } else {
      var k :| 0 <= k < |rest| && rest[k] == i;
      assert order[if k < pos then k else k + 1] == i;
    }
  }

  /** Insertion keeps the list in order of rank, and no addition is lost. */
  lemma {:induction false} OrderRanked(added: seq<Region>)
    ensures Ranked(added, Order(added))
    ensures forall i | 0 <= i < |added| :: i in Order(added)
  {
    hide Ranked, Outranks;
    if added == [] {
      RankedEmpty();
    } else {
      var n := |added| - 1;
      var rest := Order(added[..n]);
      OrderRanked(added[..n]);
      var list := Named(added[..n], rest);
      var pos := Position(list, added[n].priority);
      assert forall p | 0 <= p < |rest| :: list[p] == added[rest[p]];
      InsertRanked(added, rest, pos);
      forall i | 0 <= i < |added| ensures i in Order(added) {
        InsertKeeps(rest, pos, n, i);
      }
    }
  }

  lemma RankedEmpty()
    ensures Ranked([], [])
  {
  }

  predicate Maps(added: seq<Region>, i: nat, base: int, a: int, readonly: bool)
    requires i < |added|
  {
    Lookup(added[i], base, a, readonly).Some?
  }

  /** Of all additions that answer at a, i has the highest priority, and is the newest of those. */
  ghost predicate Wins(added: seq<Region>, i: nat, base: int, a: int, readonly: bool) {
    && i < |added| && Maps(added, i, base, a, readonly)
    && forall j | 0 <= j < |added| && j != i && Maps(added, j, base, a, readonly) :: Outranks(added, i, j)
  }

  lemma {:induction false} FirstOf(added: seq<Region>, order: seq<nat>, base: int, a: int, readonly: bool)
    requires Ranked(added, order)
    ensures match LookupIn(Named(added, order), base, a, readonly)
            case None => forall k | 0 <= k < |order| :: !Maps(added, order[k], base, a, readonly)
            case Some(t) => exists k :: 0 <= k < |order| && Lookup(added[order[k]], base, a, readonly) == Some(t)
                                        && forall m | 0 <= m < k :: !Maps(added, order[m], base, a, readonly)
    decreases |order|
  {
    if order != [] {
      var rest := order[1..];
      assert Named(added, order)[1..] == Named(added, rest);
      FirstOf(added, rest, base, a, readonly);
      if !Maps(added, order[0], base, a, readonly) && LookupIn(Named(added, rest), base, a, readonly).Some? {
        var k :| 0 <= k < |rest|
          && Lookup(added[rest[k]], base, a, readonly) == LookupIn(Named(added, rest), base, a, readonly)
                 && forall m | 0 <= m < k :: !Maps(added, rest[m], base, a, readonly);
        assert order[k + 1] == rest[k];
        forall m | 0 <= m < k + 1 ensures !Maps(added, order[m], base, a, readonly) {
          if m > 0 {
            assert order[m] == rest[m - 1];
          }
        }
      }
    }
  }

  /**
   However the subregions of a container were added, the lookup at an address is answered by
   the winner among those that map it, and by none exactly when none maps it.
   */
  lemma WinnerAnswers(added: seq<Region>, base: int, a: int, readonly: bool)
    ensures match LookupIn(Built(added), base, a, readonly)
            case None => forall i | 0 <= i < |added| :: !Maps(added, i, base, a, readonly)
            case Some(t) =>
              exists i: nat :: Wins(added, i, base, a, readonly) && Lookup(added[i], base, a, readonly) == Some(t)
  {
    hide Order, Built, LookupIn, Lookup;
    OrderBuilt(added);
    OrderRanked(added);
    FirstOf(added, Order(added), base, a, readonly);
    var order := Order(added);
    match LookupIn(Built(added), base, a, readonly)
    case None =>
      forall i | 0 <= i < |added| ensures !Maps(added, i, base, a, readonly) {
        assert i in order;
      }
    case Some(t) =>
      var k :| 0 <= k < |order| && Lookup(added[order[k]], base, a, readonly) == Some(t)
               && forall m | 0 <= m < k :: !Maps(added, order[m], base, a, readonly);
      forall j | 0 <= j < |added| && j != order[k] && Maps(added, j, base, a, readonly)
        ensures Outranks(added, order[k], j)
      {
        assert j in order;
        var m :| 0 <= m < |order| && order[m] == j;
        assert k < m;
      }
      assert Wins(added, order[k], base, a, readonly);
  }
}
