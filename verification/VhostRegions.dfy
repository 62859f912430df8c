/**
 The region table that a vhost device is given (qemu/vhost-user-blk.c): a range of guest memory is
 assigned in place, merged with every region that continues it both in guest and in user space.
 */
module VhostRegions {
  import opened Helpers

  /** A `vhost_memory_region`: guest addresses from `guest` on lie at `user` in this process. */
  datatype Reg = Reg(guest: nat, size: nat, user: nat)

  function End(r: Reg): nat { r.guest + r.size }

  predicate Backs(r: Reg, g: int, u: int) {
    r.guest <= g < End(r) && u == r.user + (g - r.guest)
  }

  /** Guest address g is at address u of this process. */
  predicate Maps(rs: seq<Reg>, g: int, u: int) {
    exists i :: 0 <= i < |rs| && Backs(rs[i], g, u)
  }

  predicate Apart(x: Reg, y: Reg) { End(x) <= y.guest || End(y) <= x.guest }

  predicate Disjoint(rs: seq<Reg>) {
    && (forall i | 0 <= i < |rs| :: rs[i].size > 0)
    && (forall i, j | 0 <= i < j < |rs| :: Apart(rs[i], rs[j]))
  }

  /** One range continues the other, in guest and in user space. */
  predicate Adjoins(cur: Reg, r: Reg) {
    (End(r) == cur.guest && r.user + r.size == cur.user) || (End(cur) == r.guest && cur.user + cur.size == r.user)
  }

  /** The merged range, as computed from the lower starts and the higher last address. */
  function Joined(cur: Reg, r: Reg): Reg
    requires cur.size > 0 && r.size > 0
  {
    var s := Min(cur.guest, r.guest);
    var e := Max(End(cur) - 1, End(r) - 1);
    Reg(s, e - s + 1, Min(cur.user, r.user))
  }

  lemma JoinedBacks(cur: Reg, r: Reg)
    requires cur.size > 0 && r.size > 0 && Adjoins(cur, r)
    ensures forall g, u :: Backs(Joined(cur, r), g, u) <==> Backs(cur, g, u) || Backs(r, g, u)
    ensures forall x: Reg :: x.size > 0 && Apart(cur, x) && Apart(r, x) ==> Apart(Joined(cur, r), x)
    ensures Joined(cur, r).size == cur.size + r.size
  {
  }

  /** Whether the back end lets two ranges of user memory be merged. */
  type MergeRule = (nat, nat, nat, nat) -> bool

  /** The range is merged with the region when it comes to it. */
  predicate Joins(rule: MergeRule, cur: Reg, r: Reg) {
    Adjoins(cur, r) && rule(cur.user, cur.size, r.user, r.size)
  }

  /** No region continues another one. */
  predicate Tight(rs: seq<Reg>) {
    forall i, j | 0 <= i < j < |rs| :: !Adjoins(rs[i], rs[j])
  }

  ghost predicate Always(rule: MergeRule) {
    forall uaddr, size, uaddr', size' :: rule(uaddr, size, uaddr', size')
  }

  /** What continues a merged range continues one of its parts. */
  lemma JoinedAdjoins(cur: Reg, r: Reg, x: Reg)
    requires cur.size > 0 && r.size > 0 && Adjoins(cur, r) && Adjoins(Joined(cur, r), x)
    ensures Adjoins(cur, x) || Adjoins(r, x)
  {
  }

  // ------------------------------------------------------------- list lemmas

  lemma MapsAppend(rs: seq<Reg>, r: Reg, g: int, u: int)
    ensures Maps(rs + [r], g, u) <==> Maps(rs, g, u) || Backs(r, g, u)
  {
    var t := rs + [r];
    if Maps(rs, g, u) {
      var i :| 0 <= i < |rs| && Backs(rs[i], g, u);
      assert Backs(t[i], g, u);
    }
    if Backs(r, g, u) {
      assert Backs(t[|rs|], g, u);
    }
    if Maps(t, g, u) {
      var i :| 0 <= i < |t| && Backs(t[i], g, u);
      assert i < |rs| ==> Backs(rs[i], g, u);
    }
  }

  lemma MapsSet(rs: seq<Reg>, i: nat, r: Reg, g: int, u: int)
    requires i < |rs| && (Backs(rs[i], g, u) ==> Backs(r, g, u))
    ensures Maps(rs[i := r], g, u) <==> Maps(rs, g, u) || Backs(r, g, u)
  {
    var t := rs[i := r];
    if Maps(rs, g, u) {
      var k :| 0 <= k < |rs| && Backs(rs[k], g, u);
      assert Backs(t[k], g, u);
    }
    if Backs(r, g, u) {
      assert Backs(t[i], g, u);
    }
    if Maps(t, g, u) {
      var k :| 0 <= k < |t| && Backs(t[k], g, u);
      assert k != i ==> Backs(rs[k], g, u);
    }
  }

  // ---------------------------------------------------------------- the loop

  /**
   The first `from` regions of rs0 have been looked at and compacted into `kept`; `cur` is the
   range to be assigned, grown by what it was merged with, and stored in kept[merged] once there
   has been a merge.
   */
  ghost predicate Assigning(rs0: seq<Reg>, orig: Reg, from: nat, kept: seq<Reg>, cur: Reg, merged: int) {
    && from <= |rs0| && |kept| <= from && -1 <= merged < |kept| && cur.size > 0
    && Disjoint(kept)
    && (merged >= 0 ==> kept[merged] == cur)
    && (forall k | 0 <= k < |kept| && k != merged :: Apart(cur, kept[k]))
    && (forall k, m | 0 <= k < |kept| && from <= m < |rs0| :: Apart(kept[k], rs0[m]))
    && (forall m | from <= m < |rs0| :: Apart(cur, rs0[m]))
    && (forall g, u :: Maps(kept, g, u) || Backs(cur, g, u) <==> Maps(rs0[..from], g, u) || Backs(orig, g, u))
  }

  lemma AssignStart(rs0: seq<Reg>, orig: Reg)
    requires Disjoint(rs0) && orig.size > 0 && forall m | 0 <= m < |rs0| :: Apart(orig, rs0[m])
    ensures Assigning(rs0, orig, 0, [], orig, -1)
  {
  }

  /** A region that is not merged is kept as it is. */
  lemma AssignKeep(rs0: seq<Reg>, orig: Reg, from: nat, kept: seq<Reg>, cur: Reg, merged: int)
    requires Disjoint(rs0) && Assigning(rs0, orig, from, kept, cur, merged) && from < |rs0|
    ensures Assigning(rs0, orig, from + 1, kept + [rs0[from]], cur, merged)
  {
    hide Maps;
    var t := kept + [rs0[from]];
    assert rs0[..from + 1] == rs0[..from] + [rs0[from]];
    forall g, u ensures Maps(t, g, u) || Backs(cur, g, u) <==> Maps(rs0[..from + 1], g, u) || Backs(orig, g, u) {
      MapsAppend(kept, rs0[from], g, u);
      MapsAppend(rs0[..from], rs0[from], g, u);
    }
  }

  /** The first region that is merged gives its place to the grown range. */
  lemma AssignFirst(rs0: seq<Reg>, orig: Reg, from: nat, kept: seq<Reg>, cur: Reg)
    requires Disjoint(rs0) && Assigning(rs0, orig, from, kept, cur, -1) && from < |rs0| && Adjoins(cur, rs0[from])
    ensures Assigning(rs0, orig, from + 1, kept + [Joined(cur, rs0[from])], Joined(cur, rs0[from]), |kept|)
  {
    hide Maps, Joined;
    var r := rs0[from];
    var j := Joined(cur, r);
    JoinedBacks(cur, r);
    assert rs0[..from + 1] == rs0[..from] + [r];
    forall g, u ensures Maps(kept + [j], g, u) || Backs(j, g, u) <==> Maps(rs0[..from + 1], g, u) || Backs(orig, g, u) {
      MapsAppend(kept, j, g, u);
      MapsAppend(rs0[..from], r, g, u);
    }
  }

  /** A further region that is merged disappears into the grown range. */
  lemma AssignAgain(rs0: seq<Reg>, orig: Reg, from: nat, kept: seq<Reg>, cur: Reg, merged: int)
    requires Disjoint(rs0) && Assigning(rs0, orig, from, kept, cur, merged) && merged >= 0
    requires from < |rs0| && Adjoins(cur, rs0[from])
    ensures Assigning(rs0, orig, from + 1, kept[merged := Joined(cur, rs0[from])], Joined(cur, rs0[from]), merged)
  {
    hide Maps, Joined;
    var r := rs0[from];
    var j := Joined(cur, r);
    JoinedBacks(cur, r);
    assert rs0[..from + 1] == rs0[..from] + [r];
    forall g, u
      ensures Maps(kept[merged := j], g, u) || Backs(j, g, u) <==> Maps(rs0[..from + 1], g, u) || Backs(orig, g, u)
    {
      MapsSet(kept, merged, j, g, u);
      MapsAppend(rs0[..from], r, g, u);
    }
  }

  lemma AssignDone(rs0: seq<Reg>, orig: Reg, kept: seq<Reg>, cur: Reg, merged: int)
    requires Disjoint(rs0) && Assigning(rs0, orig, |rs0|, kept, cur, merged)
    ensures var t := if merged >= 0 then kept else kept + [cur];
            && Disjoint(t) && |t| <= |rs0| + 1
            && forall g, u :: Maps(t, g, u) <==> Maps(rs0, g, u) || Backs(orig, g, u)
  {
    hide Maps;
    assert rs0[..|rs0|] == rs0;
    forall g, u
      ensures Maps(if merged >= 0 then kept else kept + [cur], g, u) <==> Maps(rs0, g, u) || Backs(orig, g, u)
    {
      if merged >= 0 {
        MapsMember(kept, merged, g, u);
      } else {
        MapsAppend(kept, cur, g, u);
      }
    }
  }

  // ------------------------------------------------------- what gets merged

  /** The table that results from looking at the regions rs, one after the other. */
  function Assigned(rs: seq<Reg>, kept: seq<Reg>, cur: Reg, merged: int, rule: MergeRule): seq<Reg>
    requires cur.size > 0 && (forall r <- rs :: r.size > 0) && -1 <= merged < |kept|
    decreases |rs|
  {
    if rs == [] then (if merged >= 0 then kept else kept + [cur])
    else if !Joins(rule, cur, rs[0]) then Assigned(rs[1..], kept + [rs[0]], cur, merged, rule)
    else
      var j := Joined(cur, rs[0]);
      if merged >= 0 then Assigned(rs[1..], kept[merged := j], j, merged, rule)
      else Assigned(rs[1..], kept + [j], j, |kept|, rule)
  }

  ghost predicate Sized(rs: seq<Reg>) { forall r <- rs :: r.size > 0 }

  /** What is still to come leads from here to the same table. */
  ghost predicate OnCourse(rs0: seq<Reg>, orig: Reg, from: nat, kept: seq<Reg>, cur: Reg, merged: int,
                           rule: MergeRule)
  {
    && Sized(rs0) && from <= |rs0| && -1 <= merged < |kept| && cur.size > 0 && orig.size > 0
    && Sized(rs0[from..])
    && Assigned(rs0[from..], kept, cur, merged, rule) == Assigned(rs0, [], orig, -1, rule)
  }

  lemma CourseStart(rs0: seq<Reg>, orig: Reg, rule: MergeRule)
    requires Disjoint(rs0) && orig.size > 0
    ensures OnCourse(rs0, orig, 0, [], orig, -1, rule)
  {
    assert rs0[0..] == rs0;
  }

  lemma CourseNext(rs0: seq<Reg>, orig: Reg, from: nat, kept: seq<Reg>, cur: Reg, merged: int, rule: MergeRule)
    requires OnCourse(rs0, orig, from, kept, cur, merged, rule) && from < |rs0|
    ensures rs0[from].size > 0
    ensures var r := rs0[from];
            if !Joins(rule, cur, r) then OnCourse(rs0, orig, from + 1, kept + [r], cur, merged, rule)
            else
              var j := Joined(cur, r);
              if merged >= 0 then OnCourse(rs0, orig, from + 1, kept[merged := j], j, merged, rule)
              else OnCourse(rs0, orig, from + 1, kept + [j], j, |kept|, rule)
  {
    hide Joins;
    assert rs0[from..][0] == rs0[from] && rs0[from..][1..] == rs0[from + 1..];
    assert rs0[from] in rs0;
    JoinedSize(cur, rs0[from]);
  }

  lemma JoinedSize(cur: Reg, r: Reg)
    requires cur.size > 0 && r.size > 0
    ensures Joined(cur, r).size > 0
  {
  }

  lemma CourseEnd(rs0: seq<Reg>, orig: Reg, kept: seq<Reg>, cur: Reg, merged: int, rule: MergeRule)
    requires OnCourse(rs0, orig, |rs0|, kept, cur, merged, rule)
    ensures Assigned(rs0, [], orig, -1, rule) == if merged >= 0 then kept else kept + [cur]
  {
  }

  /**
   Until something is merged, all regions are kept, and none of them joins the range; then one did.
   If the rule allows everything, what has been kept stays tight.
   */
  ghost predicate Merging(rs0: seq<Reg>, orig: Reg, from: nat, kept: seq<Reg>, cur: Reg, merged: int, rule: MergeRule) {
    && from <= |rs0| && |kept| <= from && -1 <= merged < |kept|
    && (merged >= 0 ==> kept[merged] == cur && exists m :: 0 <= m < from && Joins(rule, orig, rs0[m]))
    && (merged < 0 ==> cur == orig && |kept| == from && forall m | 0 <= m < from :: !Joins(rule, orig, rs0[m]))
    && (Tight(rs0) && Always(rule) ==> TightSoFar(rs0, from, kept, cur, merged))
  }

  ghost predicate TightSoFar(rs0: seq<Reg>, from: nat, kept: seq<Reg>, cur: Reg, merged: int)
    requires from <= |rs0|
  {
    && Tight(kept)
    && (forall k | 0 <= k < |kept| && k != merged :: !Adjoins(cur, kept[k]))
    && (forall k, m | 0 <= k < |kept| && k != merged && from <= m < |rs0| :: !Adjoins(kept[k], rs0[m]))
  }

  lemma AdjoinsBack(x: Reg, y: Reg)
    ensures Adjoins(x, y) <==> Adjoins(y, x)
  {
  }

  lemma MergeStart(rs0: seq<Reg>, orig: Reg, rule: MergeRule)
    ensures Merging(rs0, orig, 0, [], orig, -1, rule)
  {
  }

  lemma MergeKeep(rs0: seq<Reg>, orig: Reg, from: nat, kept: seq<Reg>, cur: Reg, merged: int, rule: MergeRule)
    requires Merging(rs0, orig, from, kept, cur, merged, rule) && from < |rs0| && !Joins(rule, cur, rs0[from])
    ensures Merging(rs0, orig, from + 1, kept + [rs0[from]], cur, merged, rule)
  {
    hide Adjoins;
    var t := kept + [rs0[from]];
    if Tight(rs0) && Always(rule) {
      AdjoinsBack(cur, rs0[from]);
      assert Tight(t);
      assert TightSoFar(rs0, from + 1, t, cur, merged);
    }
  }

  lemma MergeFirst(rs0: seq<Reg>, orig: Reg, from: nat, kept: seq<Reg>, cur: Reg, rule: MergeRule)
    requires Merging(rs0, orig, from, kept, cur, -1, rule) && from < |rs0| && Joins(rule, cur, rs0[from])
    requires cur.size > 0 && rs0[from].size > 0
    ensures var j := Joined(cur, rs0[from]); Merging(rs0, orig, from + 1, kept + [j], j, |kept|, rule)
  {
    hide Adjoins, Joined;
    var r := rs0[from];
    var j := Joined(cur, r);
    if Tight(rs0) && Always(rule) {
      forall k | 0 <= k < |kept| ensures !Adjoins(j, kept[k]) && !Adjoins(kept[k], j) {
        JoinedApart(cur, r, kept[k]);
      }
      assert Tight(kept + [j]);
      assert TightSoFar(rs0, from + 1, kept + [j], j, |kept|);
    }
  }

  lemma MergeAgain(rs0: seq<Reg>, orig: Reg, from: nat, kept: seq<Reg>, cur: Reg, merged: int, rule: MergeRule)
    requires Merging(rs0, orig, from, kept, cur, merged, rule) && from < |rs0| && Joins(rule, cur, rs0[from])
    requires merged >= 0 && cur.size > 0 && rs0[from].size > 0
    ensures var j := Joined(cur, rs0[from]); Merging(rs0, orig, from + 1, kept[merged := j], j, merged, rule)
  {
    hide Adjoins, Joined;
    var r := rs0[from];
    var j := Joined(cur, r);
    if Tight(rs0) && Always(rule) {
      forall k | 0 <= k < |kept| && k != merged ensures !Adjoins(j, kept[k]) && !Adjoins(kept[k], j) {
        JoinedApart(cur, r, kept[k]);
      }
      assert Tight(kept[merged := j]);
      assert TightSoFar(rs0, from + 1, kept[merged := j], j, merged);
    }
  }

  lemma JoinedApart(cur: Reg, r: Reg, x: Reg)
    requires cur.size > 0 && r.size > 0 && Adjoins(cur, r) && !Adjoins(cur, x) && !Adjoins(x, r)
    ensures !Adjoins(Joined(cur, r), x) && !Adjoins(x, Joined(cur, r))
  {
    hide Adjoins, Joined;
    AdjoinsBack(x, r);
    AdjoinsBack(x, Joined(cur, r));
    if Adjoins(Joined(cur, r), x) {
      JoinedAdjoins(cur, r, x);
    }
  }

  /** The table grows exactly if the range joins no region. */
  lemma MergeDone(rs0: seq<Reg>, orig: Reg, kept: seq<Reg>, cur: Reg, merged: int, rule: MergeRule)
    requires Merging(rs0, orig, |rs0|, kept, cur, merged, rule)
    ensures var t := if merged >= 0 then kept else kept + [cur];
            && (|t| == |rs0| + 1 <==> forall m | 0 <= m < |rs0| :: !Joins(rule, orig, rs0[m]))
            && (Tight(rs0) && Always(rule) ==> Tight(t))
  {
    hide Adjoins;
    if Tight(rs0) && Always(rule) && merged < 0 {
      forall k | 0 <= k < |kept| ensures !Adjoins(kept[k], cur) {
        AdjoinsBack(kept[k], cur);
      }
    }
  }

  lemma {:induction false} MergeFrom(rs0: seq<Reg>, orig: Reg, from: nat, kept: seq<Reg>, cur: Reg, merged: int,
                                     rule: MergeRule)
    requires Merging(rs0, orig, from, kept, cur, merged, rule)
    requires OnCourse(rs0, orig, from, kept, cur, merged, rule)
    ensures var t := Assigned(rs0, [], orig, -1, rule);
            && (|t| == |rs0| + 1 <==> forall m | 0 <= m < |rs0| :: !Joins(rule, orig, rs0[m]))
            && (Tight(rs0) && Always(rule) ==> Tight(t))
    decreases |rs0| - from
  {
    hide Merging, OnCourse, Assigned, Joined, Joins, Tight, Always;
    CourseFacts(rs0, orig, from, kept, cur, merged, rule);
    if from == |rs0| {
      MergeDone(rs0, orig, kept, cur, merged, rule);
      CourseEnd(rs0, orig, kept, cur, merged, rule);
    } else {
      CourseNext(rs0, orig, from, kept, cur, merged, rule);
      var r := rs0[from];
      if !Joins(rule, cur, r) {
        MergeKeep(rs0, orig, from, kept, cur, merged, rule);
        MergeFrom(rs0, orig, from + 1, kept + [r], cur, merged, rule);
      } else if merged >= 0 {
        MergeAgain(rs0, orig, from, kept, cur, merged, rule);
        MergeFrom(rs0, orig, from + 1, kept[merged := Joined(cur, r)], Joined(cur, r), merged, rule);
      } else {
        MergeFirst(rs0, orig, from, kept, cur, rule);
        MergeFrom(rs0, orig, from + 1, kept + [Joined(cur, r)], Joined(cur, r), |kept|, rule);
      }
    }
  }

  lemma CourseFacts(rs0: seq<Reg>, orig: Reg, from: nat, kept: seq<Reg>, cur: Reg, merged: int, rule: MergeRule)
    requires OnCourse(rs0, orig, from, kept, cur, merged, rule)
    ensures from <= |rs0| && -1 <= merged < |kept| && cur.size > 0 && orig.size > 0 && Sized(rs0)
  {
  }

  /**
   The table grows exactly if the range joins none of its regions.  If everything may be merged, a
   table in which no region continues another stays one.
   */
  lemma AssignedMerges(rs0: seq<Reg>, orig: Reg, rule: MergeRule)
    requires Disjoint(rs0) && orig.size > 0
    ensures Sized(rs0)
    ensures var t := Assigned(rs0, [], orig, -1, rule);
            && (|t| == |rs0| + 1 <==> forall m | 0 <= m < |rs0| :: !Joins(rule, orig, rs0[m]))
            && (Tight(rs0) && Always(rule) ==> Tight(t))
  {
    MergeStart(rs0, orig, rule);
    CourseStart(rs0, orig, rule);
    MergeFrom(rs0, orig, 0, [], orig, -1, rule);
  }

  // ------------------------------------------------------------ the whole loop

  ghost predicate Looking(rs0: seq<Reg>, orig: Reg, from: nat, kept: seq<Reg>, cur: Reg, merged: int, rule: MergeRule) {
    && Disjoint(rs0) && Assigning(rs0, orig, from, kept, cur, merged)
    && OnCourse(rs0, orig, from, kept, cur, merged, rule)
  }

  lemma LookFacts(rs0: seq<Reg>, orig: Reg, from: nat, kept: seq<Reg>, cur: Reg, merged: int, rule: MergeRule)
    requires Looking(rs0, orig, from, kept, cur, merged, rule)
    ensures from <= |rs0| && -1 <= merged < |kept| && cur.size > 0
    ensures from < |rs0| ==> Apart(cur, rs0[from]) && rs0[from].size > 0
  {
  }

  lemma LookStart(rs0: seq<Reg>, orig: Reg, rule: MergeRule)
    requires Disjoint(rs0) && orig.size > 0 && forall m | 0 <= m < |rs0| :: Apart(orig, rs0[m])
    ensures Looking(rs0, orig, 0, [], orig, -1, rule)
  {
    AssignStart(rs0, orig);
    CourseStart(rs0, orig, rule);
  }

  lemma LookKeep(rs0: seq<Reg>, orig: Reg, from: nat, kept: seq<Reg>, cur: Reg, merged: int, rule: MergeRule)
    requires Looking(rs0, orig, from, kept, cur, merged, rule) && from < |rs0| && !Joins(rule, cur, rs0[from])
    ensures Looking(rs0, orig, from + 1, kept + [rs0[from]], cur, merged, rule)
  {
    hide Disjoint, Assigning, OnCourse, Joins;
    AssignKeep(rs0, orig, from, kept, cur, merged);
    CourseFacts(rs0, orig, from, kept, cur, merged, rule);
    CourseNext(rs0, orig, from, kept, cur, merged, rule);
  }

  /** The region is merged into the range, which takes its place or keeps its own. */
  lemma LookJoin(rs0: seq<Reg>, orig: Reg, from: nat, kept: seq<Reg>, cur: Reg, merged: int, rule: MergeRule)
    requires Looking(rs0, orig, from, kept, cur, merged, rule) && from < |rs0| && Joins(rule, cur, rs0[from])
    ensures cur.size > 0 && rs0[from].size > 0 && -1 <= merged < |kept|
    ensures var j := Joined(cur, rs0[from]);
            if merged >= 0 then Looking(rs0, orig, from + 1, kept[merged := j], j, merged, rule)
            else Looking(rs0, orig, from + 1, kept + [j], j, |kept|, rule)
  {
    hide Disjoint, Assigning, OnCourse, Joined, Adjoins;
    CourseFacts(rs0, orig, from, kept, cur, merged, rule);
    CourseNext(rs0, orig, from, kept, cur, merged, rule);
    if merged >= 0 {
      AssignAgain(rs0, orig, from, kept, cur, merged);
    } else {
      AssignFirst(rs0, orig, from, kept, cur);
    }
  }

  lemma LookEnd(rs0: seq<Reg>, orig: Reg, kept: seq<Reg>, cur: Reg, merged: int, rule: MergeRule)
    requires Looking(rs0, orig, |rs0|, kept, cur, merged, rule)
    ensures Sized(rs0) && orig.size > 0
    ensures var t := if merged >= 0 then kept else kept + [cur];
            && t == Assigned(rs0, [], orig, -1, rule) && Disjoint(t) && |t| <= |rs0| + 1
            && forall g, u :: Maps(t, g, u) <==> Maps(rs0, g, u) || Backs(orig, g, u)
  {
    hide Maps, Disjoint, Assigning, OnCourse, Backs;
    AssignDone(rs0, orig, kept, cur, merged);
    CourseFacts(rs0, orig, |rs0|, kept, cur, merged, rule);
    CourseEnd(rs0, orig, kept, cur, merged, rule);
  }

  lemma MapsMember(rs: seq<Reg>, i: nat, g: int, u: int)
    requires i < |rs|
    ensures Backs(rs[i], g, u) ==> Maps(rs, g, u)
  {
  }

  class VhostMemory {
    var regions: array<Reg>
    var nregions: nat

    ghost predicate Valid()
      reads this, regions
    {
      nregions <= regions.Length && Disjoint(regions[..nregions])
    }

    constructor ()
      ensures Valid() && nregions == 0 && fresh(regions)
    {
      regions := new Reg[0];
      nregions := 0;
    }

    /** The regions up to `to` are those kept, and those from `from` on are still in place. */
    ghost predicate Holds(rs0: seq<Reg>, from: nat, to: nat, kept: seq<Reg>)
      reads this, regions
    {
      && |kept| == to <= from <= |rs0| == nregions <= regions.Length
      && (forall k | 0 <= k < to :: regions[k] == kept[k])
      && (forall m | from <= m < nregions :: regions[m] == rs0[m])
    }

    /** The body of the loop: region `from` is copied down and merged with the range if they join. */
    method Look(from: nat, to0: nat, start0: nat, size0: nat, uaddr0: nat, merged0: int, canMerge: MergeRule,
                ghost rs0: seq<Reg>, ghost orig: Reg, ghost kept0: seq<Reg>)
      returns (to: nat, start: nat, size: nat, uaddr: nat, merged: int, ghost kept: seq<Reg>)
      requires Holds(rs0, from, to0, kept0) && from < nregions
      requires Looking(rs0, orig, from, kept0, Reg(start0, size0, uaddr0), merged0, canMerge)
      modifies regions
      ensures Holds(rs0, from + 1, to, kept)
      ensures Looking(rs0, orig, from + 1, kept, Reg(start, size, uaddr), merged, canMerge)
    {
      hide Disjoint, Joined, Adjoins, Looking;
      to, start, size, uaddr, merged, kept := to0, start0, size0, uaddr0, merged0, kept0;
      ghost var cur := Reg(start, size, uaddr);
      LookFacts(rs0, orig, from, kept, cur, merged, canMerge);
      if to != from {
        regions[to] := regions[from];
      }
      var reg := regions[to];
      var prlast, pmlast := reg.guest + reg.size - 1, start + size - 1;
      var urlast, umlast := reg.user + reg.size - 1, uaddr + size - 1;
      assert prlast < start || pmlast < reg.guest;
      AdjoinsByLast(cur, reg);
      if (prlast + 1 != start || urlast + 1 != uaddr) && (pmlast + 1 != reg.guest || umlast + 1 != reg.user) {
        LookKeep(rs0, orig, from, kept, cur, merged, canMerge);
        kept := kept + [reg];
        to := to + 1;
        return;
      }
      if !canMerge(uaddr, size, reg.user, reg.size) {
        LookKeep(rs0, orig, from, kept, cur, merged, canMerge);
        kept := kept + [reg];
        to := to + 1;
        return;
      }
      LookJoin(rs0, orig, from, kept, cur, merged, canMerge);
      JoinedFields(cur, reg);
      if merged >= 0 {
        kept := kept[merged := Joined(cur, reg)];
        to := to - 1;
      } else {
        kept := kept + [Joined(cur, reg)];
        merged := to;
      }
      var s := Min(start, reg.guest);
      uaddr := Min(uaddr, reg.user);
      start := s;
      size := Max(pmlast, prlast) - s + 1;
      regions[merged] := Reg(start, size, uaddr);
      to := to + 1;
    }

    /**
     `vhost_dev_assign_memory` for a range that no region overlaps, with room for one more region:
     the map becomes the union of the old map and the new range, whatever is merged on the way;
     the regions stay apart and there is at most one more, which there is exactly if no region joins
     the range.  If everything that can be merged may be, no two regions continue each other.
     */
    method AssignMemory(startAddr: nat, size0: nat, uaddr0: nat, canMerge: MergeRule)
      requires Valid() && nregions < regions.Length && size0 > 0
      requires forall m | 0 <= m < nregions :: Apart(Reg(startAddr, size0, uaddr0), regions[m])
      modifies this`nregions, regions
      ensures Valid() && nregions <= old(nregions) + 1
      ensures old(Sized(regions[..nregions])) && regions[..nregions] ==
                                                 Assigned(old(regions[..nregions]), [],
                                                          Reg(startAddr, size0, uaddr0), -1, canMerge)
      ensures nregions == old(nregions) + 1 <==>
              forall m | 0 <= m < old(nregions) :: !Joins(canMerge, Reg(startAddr, size0, uaddr0), old(regions[m]))
      ensures old(Tight(regions[..nregions])) && Always(canMerge) ==> Tight(regions[..nregions])
      ensures forall g, u :: Maps(regions[..nregions], g, u) <==>
                             old(Maps(regions[..nregions], g, u)) || Backs(Reg(startAddr, size0, uaddr0), g, u)
    {
      hide Maps, Disjoint, Joined, Backs, Adjoins, Tight, Always, Looking, Assigned, Sized;
      ghost var rs0 := regions[..nregions];
      ghost var orig := Reg(startAddr, size0, uaddr0);
      var start: nat, size: nat, uaddr: nat := startAddr, size0, uaddr0;
      var merged: int, to: nat := -1, 0;
      LookStart(rs0, orig, canMerge);
      AssignedMerges(rs0, orig, canMerge);
      ghost var kept: seq<Reg> := [];
      for from := 0 to nregions
        invariant nregions == old(nregions) && Holds(rs0, from, to, kept)
        invariant Looking(rs0, orig, from, kept, Reg(start, size, uaddr), merged, canMerge)
      {
        to, start, size, uaddr, merged, kept := Look(from, to, start, size, uaddr, merged, canMerge, rs0, orig, kept);
      }
      LookFacts(rs0, orig, nregions, kept, Reg(start, size, uaddr), merged, canMerge);
      LookEnd(rs0, orig, kept, Reg(start, size, uaddr), merged, canMerge);
      if merged < 0 {
        regions[to] := Reg(start, size, uaddr);
        kept := kept + [Reg(start, size, uaddr)];
        to := to + 1;
      }
      nregions := to;
      assert regions[..nregions] == kept;
    }
  }

  /** The source's test, on the last addresses. */
  lemma AdjoinsByLast(cur: Reg, r: Reg)
    requires cur.size > 0 && r.size > 0
    ensures var prlast, pmlast := r.guest + r.size - 1, cur.guest + cur.size - 1;
            var urlast, umlast := r.user + r.size - 1, cur.user + cur.size - 1;
            Adjoins(cur, r) <==>
            !((prlast + 1 != cur.guest || urlast + 1 != cur.user) && (pmlast + 1 != r.guest || umlast + 1 != r.user))
  {
  }

  lemma JoinedFields(cur: Reg, r: Reg)
    requires cur.size > 0 && r.size > 0
    ensures Joined(cur, r) == Reg(Min(cur.guest, r.guest),
                                  Max(End(cur) - 1, End(r) - 1) - Min(cur.guest, r.guest) + 1, Min(cur.user, r.user))
  {
  }
}
