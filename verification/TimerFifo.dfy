/**
 Timers are first in, first out within a bucket: of two timers that wait in the same bucket of tv1,
 or with the same expiry in the same bucket of any level, the one that was linked first is run first,
 unless one of them is modified or deleted.
 */
module TimerFifo {
  import opened TimerWheel
  import opened TimerRun

  /** t comes before u in the list. */
  predicate Ahead(s: seq<Timer>, t: Timer, u: Timer) {
    exists p, q :: 0 <= p < q < |s| && s[p] == t && s[q] == u
  }

  lemma AheadAppend(s: seq<Timer>, tail: seq<Timer>, t: Timer, u: Timer)
    requires Ahead(s, t, u)
    ensures Ahead(s + tail, t, u)
  {
    var p, q :| 0 <= p < q < |s| && s[p] == t && s[q] == u;
    assert (s + tail)[p] == t && (s + tail)[q] == u;
  }

  lemma LastIsBehind(s: seq<Timer>, t: Timer, u: Timer)
    requires t in s
    ensures Ahead(s + [u], t, u)
  {
    var p :| 0 <= p < |s| && s[p] == t;
    assert (s + [u])[p] == t && (s + [u])[|s|] == u;
  }

  lemma {:induction false} AheadRemove(s: seq<Timer>, x: Timer, t: Timer, u: Timer)
    requires Ahead(s, t, u) && x != t && x != u
    ensures Ahead(Remove(s, x), t, u)
    decreases |s|
  {
    var p, q :| 0 <= p < q < |s| && s[p] == t && s[q] == u;
    var rest := s[1..];
    if p == 0 {
      assert u == rest[q - 1];
      assert u in Remove(rest, x);
      var k :| 0 <= k < |Remove(rest, x)| && Remove(rest, x)[k] == u;
      assert Remove(s, x) == [t] + Remove(rest, x);
      assert Remove(s, x)[0] == t && Remove(s, x)[k + 1] == u;
    } else {
      assert rest[p - 1] == t && rest[q - 1] == u;
      AheadRemove(rest, x, t, u);
      if s[0] != x {
        var r := Remove(rest, x);
        var i, j :| 0 <= i < j < |r| && r[i] == t && r[j] == u;
        assert Remove(s, x)[i + 1] == t && Remove(s, x)[j + 1] == u;
      }
    }
  }

  /** Nothing but additions at the tail has happened to the list. */
  ghost predicate Extends(s: seq<Timer>, s': seq<Timer>) {
    |s| <= |s'| && s'[..|s|] == s
  }

  lemma AheadExtends(s: seq<Timer>, s': seq<Timer>, t: Timer, u: Timer)
    requires Extends(s, s') && Ahead(s, t, u)
    ensures Ahead(s', t, u)
  {
    assert s' == s + s'[|s|..];
    AheadAppend(s, s'[|s|..], t, u);
  }

  lemma LinkExtends(b: Base, timer: Timer, i: nat)
    requires |b.vec| == WORK + 1 && timer in b.expires && i <= WORK
    ensures Extends(b.vec[i], Link(b, timer).vec[i])
  {
    hide Slot;
  }

  lemma {:induction false} LinkAllExtends(b: Base, timers: seq<Timer>, i: nat)
    requires |b.vec| == WORK + 1 && (forall t <- timers :: t in b.expires) && i <= WORK
    ensures var c := LinkAll(b, timers); |c.vec| == WORK + 1 && Extends(b.vec[i], c.vec[i])
    decreases |timers|
  {
    hide Slot;
    if timers != [] {
      LinkExtends(b, timers[0], i);
      LinkAllExtends(Link(b, timers[0]), timers[1..], i);
    }
  }

  /** A timer that is re-inserted goes behind those that are in its bucket already. */
  lemma {:induction false} LinkAllBehind(b: Base, timers: seq<Timer>, t: Timer, u: Timer)
    requires |b.vec| == WORK + 1 && (forall x <- timers :: x in b.expires) && u in timers
    requires t in b.vec[Slot(b.expires[u], b.timerJiffies)]
    ensures var c := LinkAll(b, timers);
            |c.vec| == WORK + 1 && Ahead(c.vec[Slot(b.expires[u], b.timerJiffies)], t, u)
    decreases |timers|
  {
    hide Slot, Ahead;
    var s := Slot(b.expires[u], b.timerJiffies);
    var first, rest := timers[0], timers[1..];
    var c := Link(b, first);
    LinkAllExtends(c, rest, s);
    if first == u {
      LastIsBehind(b.vec[s], t, u);
      AheadExtends(c.vec[s], LinkAll(c, rest).vec[s], t, u);
    } else {
      LinkExtends(b, first, s);
      InExtends(b.vec[s], c.vec[s], t);
      LinkAllBehind(c, rest, t, u);
    }
  }

  lemma InExtends(s: seq<Timer>, s': seq<Timer>, t: Timer)
    requires Extends(s, s') && t in s
    ensures t in s'
  {
    assert s' == s + s'[|s|..];
  }

  /** Two timers with the same expiry are re-inserted in their order. */
  lemma {:induction false} LinkAllOrders(b: Base, timers: seq<Timer>, t: Timer, u: Timer)
    requires |b.vec| == WORK + 1 && (forall x <- timers :: x in b.expires) && Ahead(timers, t, u)
    requires t in b.expires && u in b.expires && b.expires[t] == b.expires[u]
    ensures var c := LinkAll(b, timers);
            |c.vec| == WORK + 1 && Ahead(c.vec[Slot(b.expires[u], b.timerJiffies)], t, u)
    decreases |timers|
  {
    hide Slot;
    var p, q :| 0 <= p < q < |timers| && timers[p] == t && timers[q] == u;
    var rest := timers[1..];
    var c := Link(b, timers[0]);
    assert rest[q - 1] == u;
    if p == 0 {
      LinkAllBehind(c, rest, t, u);
    } else {
      assert rest[p - 1] == t;
      LinkAllOrders(c, rest, t, u);
    }
  }

  // ------------------------------------------------------------------- queues

  /** Both timers are in one bucket, or on the work list, where their order counts, and t comes first. */
  predicate Queued(b: Base, t: Timer, u: Timer) {
    && |b.vec| == WORK + 1 && t in b.entry && u in b.entry && b.entry[t] == b.entry[u] <= WORK
    && (b.entry[t] < TVR_SIZE || b.entry[t] == WORK || SameExpiry(b, t, u))
    && Ahead(b.vec[b.entry[t]], t, u)
  }

  predicate SameExpiry(b: Base, t: Timer, u: Timer) {
    t in b.expires && u in b.expires && b.expires[t] == b.expires[u]
  }

  lemma CascadeFifo(b: Base, k: nat, t: Timer, u: Timer)
    requires Linked(b) && 1 <= k <= 4 && Queued(b, t, u) && b.entry[t] != WORK
    ensures Linked(Cascade(b, k)) && Queued(Cascade(b, k), t, u) && Cascade(b, k).entry[t] != WORK
    ensures Cascade(b, k).timerJiffies == b.timerJiffies
  {
    hide Slot, Linked, Ahead;
    LinkedBounds(b);
    var slot := LevelSlot(k, b.timerJiffies);
    var i := b.entry[t];
    var c := Cascade(b, k);
    CutListed(b, slot);
    CascadeLinked(b, k);
    LinkedBounds(c);
    if i == slot {
      LinkAllOrders(Cut(b, slot), b.vec[slot], t, u);
      BothLinked(c, Slot(b.expires[u], b.timerJiffies), t, u);
    } else {
      LinkAllExtends(Cut(b, slot), b.vec[slot], i);
      AheadExtends(b.vec[i], c.vec[i], t, u);
      BothLinked(c, i, t, u);
    }
  }

  lemma {:induction false} CascadeFromFifo(b: Base, k: nat, t: Timer, u: Timer)
    requires Linked(b) && 1 <= k <= 4 && Queued(b, t, u) && b.entry[t] != WORK
    ensures Queued(CascadeFrom(b, k), t, u) && CascadeFrom(b, k).entry[t] != WORK
    decreases 4 - k
  {
    hide Linked, Ahead, Cascade, Queued;
    CascadeFifo(b, k, t, u);
    if k < 4 && Index(k, b.timerJiffies) == 0 {
      CascadeFromFifo(Cascade(b, k), k + 1, t, u);
    }
  }

  // -------------------------------------------------------------------- runs

  lemma DelFifo(b: Base, x: Timer, jiffies: nat, t: Timer, u: Timer)
    requires Inv(b) && Queued(b, t, u) && x != t && x != u
    ensures Queued(DetachIfPending(b, x, jiffies), t, u)
  {
    hide Linked, Timely, Counted, NextOk, Remove, Ahead;
    LinkedBounds(b);
    if x in b.entry && b.entry[x] == b.entry[t] {
      AheadRemove(b.vec[b.entry[t]], x, t, u);
    }
  }

  lemma AddFifo(b: Base, x: Timer, jiffies: nat, t: Timer, u: Timer)
    requires Linked(b) && Queued(b, t, u) && x != t && x != u && x in b.expires
    ensures Queued(InternalAdd(b, x, jiffies), t, u)
  {
    hide Linked, Slot, Ahead;
    LinkedBounds(b);
    var c := CatchUp(b, jiffies);
    LinkExtends(c, x, b.entry[t]);
    AheadExtends(b.vec[b.entry[t]], Link(c, x).vec[b.entry[t]], t, u);
  }

  lemma ModFifo(b: Base, x: Timer, e: nat, jiffies: nat, t: Timer, u: Timer)
    requires Inv(b) && Queued(b, t, u) && x != t && x != u
    ensures Queued(ModTimer(b, x, e, jiffies), t, u)
  {
    hide Linked, Timely, Counted, NextOk, DetachIfPending, InternalAdd, Ahead;
    LinkedBounds(b);
    DelFifo(b, x, jiffies, t, u);
    DetachInv(b, x, jiffies);
    var c := DetachIfPending(b, x, jiffies);
    LinkedBounds(c);
    var d := c.(expires := c.expires[x := e]);
    SameLists(c, d);
    AddFifo(d, x, jiffies, t, u);
  }

  lemma TickFifo(b: Base, t: Timer, u: Timer)
    requires Inv(b) && b.vec[WORK] == [] && Queued(b, t, u)
    ensures Queued(Tick(b), t, u)
  {
    hide Linked, Timely, Counted, NextOk, CascadeFrom;
    LinkedBounds(b);
    var index := b.timerJiffies % TVR_SIZE;
    if index == 0 {
      CascadeFromFifo(b, 1, t, u);
      LinkedBounds(CascadeFrom(b, 1));
    }
  }

  lemma BothLinked(b: Base, i: nat, t: Timer, u: Timer)
    requires Linked(b) && i <= WORK && Ahead(b.vec[i], t, u)
    ensures t in b.entry && u in b.entry && b.entry[t] == i && b.entry[u] == i
  {
  }

  lemma RunFifo(b: Base, jiffies: nat, t: Timer, u: Timer)
    requires Inv(b) && b.vec[WORK] != [] && Queued(b, t, u)
    ensures var c := Expire(b, jiffies); t !in c.entry || Queued(c, t, u)
  {
    hide Linked, Timely, Counted, NextOk, Remove, Ahead;
    LinkedBounds(b);
    var first := b.vec[WORK][0];
    NotFirst(b, t, u);
    if first != t && b.entry[t] == WORK {
      AheadRemove(b.vec[WORK], first, t, u);
    }
  }

  lemma NotFirst(b: Base, t: Timer, u: Timer)
    requires Linked(b) && Queued(b, t, u) && b.vec[WORK] != []
    ensures b.vec[WORK][0] != u
  {
    assert b.vec[WORK][0] in b.vec[WORK];
  }

  lemma StepFifo(s: State, ev: Event, t: Timer, u: Timer)
    requires Good(s) && Enabled(s, ev) && !Touches(ev, t) && !Touches(ev, u) && Queued(s.base, t, u)
    ensures var r := Next(s, ev); t !in r.base.entry || Queued(r.base, t, u)
  {
    hide Linked, Timely, Counted, NextOk, Queued, ModTimer, DetachIfPending, Tick, Expire;
    match ev
    case Advance(_) =>
    case Mod(x, e) => ModFifo(s.base, x, e, s.jiffies, t, u);
    case Del(x) => DelFifo(s.base, x, s.jiffies, t, u);
    case TurnOfJiffy => LinkedBounds(s.base); TickFifo(s.base, t, u);
    case RunFirst => LinkedBounds(s.base); RunFifo(s.base, s.jiffies, t, u);
    case Idle => IdleFifo(s.base, s.jiffies, t, u);
  }

  lemma IdleFifo(b: Base, jiffies: nat, t: Timer, u: Timer)
    requires Queued(b, t, u)
    ensures Queued(CatchUp(b, jiffies), t, u)
  {
  }

  /**
   In every run, of two timers in the same bucket of tv1, or with the same expiry in any bucket, the
   one that came first is run first: as long as neither is modified or deleted, t stays ahead of u
   until t has been run.
   */
  lemma {:induction false} FirstInFirstOut(ss: seq<State>, evs: seq<Event>, i: nat, j: nat, t: Timer, u: Timer)
    requires Run(ss, evs) && i <= j <= |evs| && Queued(ss[i].base, t, u)
    requires forall k | i <= k < j :: !Touches(evs[k], t) && !Touches(evs[k], u)
    ensures Queued(ss[j].base, t, u) || exists k :: i < k <= j && t !in ss[k].base.entry
    decreases j
  {
    hide Good, Next, Enabled, Queued, Linked;
    if i < j {
      FirstInFirstOut(ss, evs, i, j - 1, t, u);
      RunGood(ss, evs, j - 1);
      assert Transition(ss[j - 1], evs[j - 1], ss[j]);
      if Queued(ss[j - 1].base, t, u) {
        StepFifo(ss[j - 1], evs[j - 1], t, u);
      }
    }
  }

  /** A timer that is linked goes behind all timers of its bucket. */
  lemma LinkedLast(b: Base, x: Timer, t: Timer)
    requires |b.vec| == WORK + 1 && x in b.expires && t in b.vec[Slot(b.expires[x], b.timerJiffies)]
    ensures Ahead(Link(b, x).vec[Link(b, x).entry[x]], t, x)
  {
    hide Slot;
    LastIsBehind(b.vec[Slot(b.expires[x], b.timerJiffies)], t, x);
  }
}
