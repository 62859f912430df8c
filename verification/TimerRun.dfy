/**
 Whole runs of the timer wheel, and the simple specification that they refine: a bag of timers
 with expiry jiffies, from which the turn for jiffy `now` takes every timer that has expired.

 A run interleaves, in any order: timer modification and deletion (also from callbacks, in the
 middle of the run loop), turns of the outer and inner loop of `__run_timers`, catching up, and
 the advance of jiffies.
 */
module TimerRun {
  import opened Helpers
  import opened TimerWheel

  datatype Event =
    | Advance(delta: nat)
    | Mod(timer: Timer, expires: nat)
    | Del(timer: Timer)
    | TurnOfJiffy
    | RunFirst
    | Idle

  // ------------------------------------------------------------- the wheel

  datatype State = State(base: Base, jiffies: nat)

  predicate Init(s: State) {
    && s.base.timerJiffies == s.jiffies == s.base.nextTimer
    && s.base.activeTimers == 0 && s.base.allTimers == 0
    && s.base.vec == seq(WORK + 1, _ => []) && s.base.entry == map[]
  }

  predicate Enabled(s: State, ev: Event)
    requires Linked(s.base)
  {
    match ev
    case TurnOfJiffy => s.base.timerJiffies <= s.jiffies && s.base.vec[WORK] == []
    case RunFirst => s.base.vec[WORK] != []
    case _ => true
  }

  function Next(s: State, ev: Event): State
    requires Linked(s.base) && Enabled(s, ev)
  {
    match ev
    case Advance(delta) => s.(jiffies := s.jiffies + delta)
    case Mod(t, e) => s.(base := ModTimer(s.base, t, e, s.jiffies))
    case Del(t) => s.(base := DetachIfPending(s.base, t, s.jiffies))
    case TurnOfJiffy => s.(base := Tick(s.base))
    case RunFirst => s.(base := Expire(s.base, s.jiffies))
    case Idle => s.(base := CatchUp(s.base, s.jiffies))
  }

  predicate Good(s: State) {
    Inv(s.base) && s.base.timerJiffies <= s.jiffies + 1
  }

  // ------------------------------------------------------ the specification

  /** The pending timers with their expiry, and which of them wait for their callback. */
  datatype Bag = Bag(now: nat, pending: map<Timer, nat>, running: set<Timer>, jiffies: nat)

  function BagCatchUp(s: Bag): Bag {
    if s.pending == map[] then s.(now := s.jiffies) else s
  }

  function BagRemove(s: Bag, t: Timer): Bag {
    if t in s.pending then BagCatchUp(s.(pending := s.pending - {t}, running := s.running - {t})) else s
  }

  function BagMod(s: Bag, t: Timer, e: nat): Bag {
    if t in s.pending && s.pending[t] == e then s else
    var r := BagCatchUp(BagRemove(s, t));
    r.(pending := r.pending[t := e])
  }

  predicate BagEnabled(s: Bag, ev: Event, first: Timer) {
    match ev
    case TurnOfJiffy => s.now <= s.jiffies && s.running == {}
    case RunFirst => first in s.running
    case _ => true
  }

  /** One step of the specification; `first` is the timer whose callback runs next. */
  function BagNext(s: Bag, ev: Event, first: Timer): Bag {
    match ev
    case Advance(delta) => s.(jiffies := s.jiffies + delta)
    case Mod(t, e) => BagMod(s, t, e)
    case Del(t) => BagRemove(s, t)
    case TurnOfJiffy => s.(now := s.now + 1, running := set t <- s.pending | s.pending[t] <= s.now)
    case RunFirst => BagRemove(s, first)
    case Idle => BagCatchUp(s)
  }

  function Abs(s: State): Bag
    requires Linked(s.base)
  {
    Bag(s.base.timerJiffies,
        map t <- s.base.entry :: s.base.expires[t],
        (set t <- s.base.entry | s.base.entry[t] == WORK),
        s.jiffies)
  }

  function First(s: State): Timer
    requires |s.base.vec| == WORK + 1
  {
    if s.base.vec[WORK] == [] then 0 else s.base.vec[WORK][0]
  }

  // ------------------------------------------------------------- refinement

  lemma RunningIsWork(b: Base)
    requires Linked(b)
    ensures (set t <- b.entry | b.entry[t] == WORK) == (set t <- b.vec[WORK])
    ensures b.vec[WORK] == [] <==> (set t <- b.entry | b.entry[t] == WORK) == {}
  {
    var running := set t <- b.entry | b.entry[t] == WORK;
    if b.vec[WORK] != [] {
      assert b.vec[WORK][0] in b.vec[WORK];
      assert b.vec[WORK][0] in running;
    } else {
      assert running == {};
    }
  }

  lemma AbsCatchUp(s: State)
    requires Good(s)
    ensures var r := s.(base := CatchUp(s.base, s.jiffies));
            Good(r) && Abs(r) == BagCatchUp(Abs(s))
  {
    CatchUpInv(s.base, s.jiffies);
    hide Timely, NextOk;
    if s.base.allTimers == 0 {
      assert s.base.entry.Keys == {};
      assert Abs(s).pending == map[];
    } else {
      assert Abs(s).pending.Keys == s.base.entry.Keys;
    }
  }

  lemma AbsDetached(s: State, t: Timer, next: nat)
    requires Good(s) && t in s.base.entry && (next == s.base.nextTimer || next == s.base.timerJiffies)
    ensures var r := s.(base := CatchUp(Detached(s.base, t, next), s.jiffies));
            Good(r) && Abs(r) == BagRemove(Abs(s), t)
  {
    hide Linked, Timely, NextOk, Active, Remove, Abs, BagRemove;
    LinkedBounds(s.base);
    var c := Detached(s.base, t, next);
    DetachedInv(s.base, t, next, s.jiffies);
    assert c.entry.Keys == s.base.entry.Keys - {t};
    AbsRemoved(s, t, c);
  }

  lemma AbsRemoved(s: State, t: Timer, c: Base)
    requires Linked(s.base) && Linked(c) && t in s.base.entry && c.entry == s.base.entry - {t}
    requires c.expires == s.base.expires && c.timerJiffies == s.base.timerJiffies && c.allTimers == |c.entry.Keys|
    requires Linked(CatchUp(c, s.jiffies))
    ensures Abs(s.(base := CatchUp(c, s.jiffies))) == BagRemove(Abs(s), t)
  {
    hide Linked;
    LinkedBounds(s.base);
    LinkedBounds(c);
    var r := s.(base := c);
    assert Abs(r).pending == Abs(s).pending - {t};
    assert Abs(r).running == Abs(s).running - {t};
    assert Abs(r).pending.Keys == c.entry.Keys;
    assert Abs(r).pending == map[] <==> c.allTimers == 0;
  }

  lemma AbsDel(s: State, t: Timer)
    requires Good(s)
    ensures var r := s.(base := DetachIfPending(s.base, t, s.jiffies));
            Good(r) && Abs(r) == BagRemove(Abs(s), t)
  {
    hide Linked, Timely, Detached;
    LinkedBounds(s.base);
    if t in s.base.entry {
      AbsDetached(s, t, NextAfter(s.base, t));
    }
  }

  lemma AbsRunFirst(s: State)
    requires Good(s) && s.base.vec[WORK] != []
    ensures var r := s.(base := Expire(s.base, s.jiffies));
            Good(r) && Abs(r) == BagRemove(Abs(s), s.base.vec[WORK][0])
  {
    hide Timely, Detached, Linked, Abs, BagRemove;
    LinkedBounds(s.base);
    AbsDetached(s, s.base.vec[WORK][0], s.base.nextTimer);
  }

  lemma AbsLinked(c: State, r: State, t: Timer)
    requires Linked(c.base) && Linked(r.base) && t !in c.base.entry && c.jiffies == r.jiffies
    requires r.base.entry.Keys == c.base.entry.Keys + {t}
    requires r.base.entry[t] != WORK && forall u <- c.base.entry :: r.base.entry[u] == c.base.entry[u]
    requires r.base.expires == c.base.expires && r.base.timerJiffies == c.base.timerJiffies
    ensures Abs(r) == Abs(c).(pending := Abs(c).pending[t := r.base.expires[t]])
  {
    hide Linked;
    LinkedBounds(r.base);
    LinkedBounds(c.base);
    var p := Abs(r).pending;
    var q := Abs(c).pending[t := r.base.expires[t]];
    assert p.Keys == q.Keys;
    assert p == q;
    assert Abs(r).running == Abs(c).running;
  }

  lemma AbsAdd(s: State, t: Timer)
    requires Good(s) && t in s.base.expires && t !in s.base.entry
    ensures var r := s.(base := InternalAdd(s.base, t, s.jiffies));
            var a := BagCatchUp(Abs(s));
            Good(r) && Abs(r) == a.(pending := a.pending[t := s.base.expires[t]])
  {
    InternalAddInv(s.base, t, s.jiffies);
    AbsCatchUp(s);
    var r := s.(base := InternalAdd(s.base, t, s.jiffies));
    var c := s.(base := CatchUp(s.base, s.jiffies));
    assert r.base.timerJiffies == c.base.timerJiffies;
    hide Linked, Timely, NextOk, Counted, InternalAdd, Abs, BagCatchUp;
    AbsLinked(c, r, t);
  }

  lemma AbsMod(s: State, t: Timer, e: nat)
    requires Good(s)
    ensures var r := s.(base := ModTimer(s.base, t, e, s.jiffies));
            Good(r) && Abs(r) == BagMod(Abs(s), t, e)
  {
    var same := t in s.base.entry && s.base.expires[t] == e;
    assert same <==> t in Abs(s).pending && Abs(s).pending[t] == e;
    DetachInv(s.base, t, s.jiffies);
    if !same {
      AbsDel(s, t);
      var c := DetachIfPending(s.base, t, s.jiffies);
      SetExpiry(c, t, e);
      AbsSetExpiry(s.(base := c), t, e);
      hide Linked, Timely, NextOk, Counted, InternalAdd, DetachIfPending, Abs, BagRemove, BagCatchUp;
      AbsAdd(s.(base := c.(expires := c.expires[t := e])), t);
    }
  }

  lemma AbsSetExpiry(s: State, t: Timer, e: nat)
    requires Linked(s.base) && t !in s.base.entry
    ensures var d := s.base.(expires := s.base.expires[t := e]);
            Linked(d) && Abs(s.(base := d)) == Abs(s)
  {
    var d := s.base.(expires := s.base.expires[t := e]);
    SameLists(s.base, d);
    assert Abs(s.(base := d)).pending == Abs(s).pending;
  }

  lemma AbsTaken(s: State, c: Base)
    requires Linked(s.base) && Linked(c) && c.entry.Keys == s.base.entry.Keys
    requires c == s.base.(timerJiffies := s.base.timerJiffies + 1, vec := c.vec, entry := c.entry)
    requires forall t <- s.base.entry :: c.entry[t] == WORK <==> s.base.expires[t] <= s.base.timerJiffies
    ensures Abs(s.(base := c)) == BagNext(Abs(s), TurnOfJiffy, 0)
  {
    hide Linked;
    LinkedBounds(s.base);
    LinkedBounds(c);
    var r := s.(base := c);
    assert Abs(r).pending == Abs(s).pending;
    assert Abs(r).running == set t <- Abs(s).pending | Abs(s).pending[t] <= s.base.timerJiffies;
  }

  lemma AbsTick(s: State)
    requires Good(s) && s.base.vec[WORK] == [] && s.base.timerJiffies <= s.jiffies
    ensures var r := s.(base := Tick(s.base));
            Good(r) && Abs(r) == BagNext(Abs(s), TurnOfJiffy, 0)
  {
    hide Linked, Timely, NextOk, Counted, Tick, Abs, BagNext;
    TickInv(s.base);
    TickCorrect(s.base);
    var c := Tick(s.base);
    AbsTaken(s, c);
  }

  /** Every step of the wheel is the corresponding step of the bag, and keeps the invariant. */
  lemma StepRefines(s: State, ev: Event)
    requires Good(s) && Enabled(s, ev)
    ensures Good(Next(s, ev))
    ensures BagEnabled(Abs(s), ev, First(s))
    ensures Abs(Next(s, ev)) == BagNext(Abs(s), ev, First(s))
  {
    RunningIsWork(s.base);
    match ev
    case Advance(_) =>
    case Mod(t, e) => AbsMod(s, t, e);
    case Del(t) => AbsDel(s, t);
    case TurnOfJiffy => AbsTick(s);
    case RunFirst => AbsRunFirst(s);
    case Idle => AbsCatchUp(s);
  }

  lemma InitGood(s: State)
    requires Init(s)
    ensures Good(s) && Abs(s) == Bag(s.jiffies, map[], {}, s.jiffies)
  {
  }

  // ------------------------------------------------------------------- runs

  ghost predicate Run(ss: seq<State>, evs: seq<Event>) {
    && |ss| == |evs| + 1 && Init(ss[0])
    && forall k | 0 <= k < |evs| :: Transition(ss[k], evs[k], ss[k + 1])
  }

  ghost predicate Transition(s: State, ev: Event, s': State) {
    Linked(s.base) && Enabled(s, ev) && s' == Next(s, ev)
  }

  /** The invariant holds at every point of every run. */
  lemma {:induction false} RunGood(ss: seq<State>, evs: seq<Event>, k: nat)
    requires Run(ss, evs) && k < |ss|
    ensures Good(ss[k])
  {
    hide Init, Good, Next, Enabled, Linked;
    if k == 0 {
      InitGood(ss[0]);
    } else {
      RunGood(ss, evs, k - 1);
      assert Transition(ss[k - 1], evs[k - 1], ss[k]);
      StepRefines(ss[k - 1], evs[k - 1]);
    }
  }

  predicate CountersExact(s: State) {
    var b := s.base;
    && b.allTimers == |b.entry.Keys|
    && b.activeTimers == |Active(b)|
    && forall t <- b.entry :: t !in b.deferrable ==> t in b.expires && b.nextTimer <= Due(s, t)
  }

  lemma GoodCounters(s: State)
    requires Counted(s.base) && NextOk(s.base)
    ensures CountersExact(s)
  {
    forall t | t in s.base.entry && t !in s.base.deferrable
      ensures t in s.base.expires && s.base.nextTimer <= Due(s, t)
    {
      assert t in Active(s.base);
    }
  }

  /**
   At every point of every run `all_timers` and `active_timers` count the pending and the
   pending non-deferrable timers, and `next_timer` is no later than the jiffy at which any
   pending non-deferrable timer is due.
   */
  lemma RunCounters(ss: seq<State>, evs: seq<Event>, k: nat)
    requires Run(ss, evs) && k < |ss|
    ensures CountersExact(ss[k])
  {
    RunGood(ss, evs, k);
    hide Linked, Timely, Run, CountersExact, Counted, NextOk;
    GoodCounters(ss[k]);
  }

  /** Every run of the wheel is, step by step, a run of the bag of timers from the empty bag. */
  lemma RunRefines(ss: seq<State>, evs: seq<Event>, k: nat)
    requires Run(ss, evs) && k < |evs|
    ensures Linked(ss[0].base) && Abs(ss[0]) == Bag(ss[0].jiffies, map[], {}, ss[0].jiffies)
    ensures Linked(ss[k].base) && Linked(ss[k + 1].base)
    ensures BagEnabled(Abs(ss[k]), evs[k], First(ss[k]))
    ensures Abs(ss[k + 1]) == BagNext(Abs(ss[k]), evs[k], First(ss[k]))
  {
    hide BagNext, BagEnabled, Enabled, Next, Linked;
    InitGood(ss[0]);
    RunGood(ss, evs, k);
    assert Transition(ss[k], evs[k], ss[k + 1]);
    StepRefines(ss[k], evs[k]);
  }

  predicate Waiting(s: State, t: Timer) {
    t in s.base.entry && t in s.base.expires && s.base.entry[t] != WORK
  }

  /** The jiffy whose turn must take the timer: its expiry, or the next jiffy if that has passed. */
  function Due(s: State, t: Timer): nat
    requires t in s.base.expires
  {
    Max(s.base.expires[t], s.base.timerJiffies)
  }

  predicate Touches(ev: Event, t: Timer) {
    (ev.Mod? || ev.Del?) && ev.timer == t
  }

  /** Step k is the turn for jiffy `due`, that jiffy has come, and it moves t to the work list. */
  predicate TakenBy(ss: seq<State>, evs: seq<Event>, k: nat, t: Timer, due: nat)
    requires k < |evs| && |ss| == |evs| + 1
  {
    && evs[k].TurnOfJiffy? && ss[k].base.timerJiffies == due <= ss[k].jiffies
    && Waiting(ss[k], t) && t in ss[k + 1].base.entry && ss[k + 1].base.entry[t] == WORK
  }

  lemma BagStep(s: Bag, ev: Event, first: Timer, t: Timer)
    requires BagEnabled(s, ev, first) && !Touches(ev, t)
    ensures var r := BagNext(s, ev, first);
            && (t in s.pending && t !in s.running ==>
                  && t in r.pending && r.pending[t] == s.pending[t]
                  && r.now == s.now + (if ev.TurnOfJiffy? then 1 else 0)
                  && (t in r.running <==> ev.TurnOfJiffy? && s.pending[t] <= s.now))
            && (t !in s.pending || t in s.running ==> t !in r.pending || t in r.running)
  {
  }

  lemma StepWaiting(s: State, ev: Event, t: Timer)
    requires Good(s) && Enabled(s, ev) && !Touches(ev, t)
    ensures var r := Next(s, ev);
            if !Waiting(s, t) then !Waiting(r, t)
            else if ev.TurnOfJiffy? && Due(s, t) == s.base.timerJiffies
            then t in r.base.entry && r.base.entry[t] == WORK
            else Waiting(r, t) && Due(r, t) == Due(s, t)
  {
    hide Next, Enabled, Timely, NextOk, Counted, Linked, Abs, Waiting, BagNext;
    StepRefines(s, ev);
    LinkedBounds(s.base);
    BagStep(Abs(s), ev, First(s), t);
    AbsWaiting(s, t);
    AbsWaiting(Next(s, ev), t);
  }

  lemma AbsWaiting(s: State, t: Timer)
    requires Linked(s.base)
    ensures Waiting(s, t) <==> t in Abs(s).pending && t !in Abs(s).running
    ensures t in Abs(s).pending ==> t in s.base.entry && t in s.base.expires && Abs(s).pending[t] == s.base.expires[t]
    ensures t in Abs(s).running ==> t in s.base.entry && s.base.entry[t] == WORK
    ensures Abs(s).now == s.base.timerJiffies
  {
  }

  /**
   In every run, a timer that waits at point i and is neither modified nor deleted before point
   j is still waiting at j only if the turn of its due jiffy has not come; otherwise it was moved
   to the work list by the turn of exactly that jiffy, and not before jiffies had reached it.
   */
  lemma {:induction false} FiresOnTime(ss: seq<State>, evs: seq<Event>, i: nat, j: nat, t: Timer)
    requires Run(ss, evs) && i <= j <= |evs| && Waiting(ss[i], t)
    requires forall k | i <= k < j :: !Touches(evs[k], t)
    ensures Waiting(ss[j], t) ==> Due(ss[j], t) == Due(ss[i], t) && ss[j].base.timerJiffies <= Due(ss[i], t)
    ensures !Waiting(ss[j], t) ==> exists k :: i <= k < j && TakenBy(ss, evs, k, t, Due(ss[i], t))
    decreases j
  {
    if i < j {
      var k := j - 1;
      FiresOnTime(ss, evs, i, k, t);
      RunGood(ss, evs, k);
      assert Transition(ss[k], evs[k], ss[j]);
      hide Good, Next;
      StepWaiting(ss[k], evs[k], t);
      if Waiting(ss[k], t) && !Waiting(ss[j], t) {
        assert TakenBy(ss, evs, k, t, Due(ss[i], t));
      }
    }
  }

  predicate OnWorkList(s: State, t: Timer) {
    t in s.base.entry && s.base.entry[t] == WORK
  }

  /** Step k is the one that takes t off the work list and runs it. */
  predicate RunBy(ss: seq<State>, evs: seq<Event>, k: nat, t: Timer)
    requires k < |evs| && |ss| == |evs| + 1
  {
    && evs[k].RunFirst? && |ss[k].base.vec| == WORK + 1 && First(ss[k]) == t
    && OnWorkList(ss[k], t) && t !in ss[k + 1].base.entry
  }

  lemma BagRunning(s: Bag, ev: Event, first: Timer, t: Timer)
    requires BagEnabled(s, ev, first) && !Touches(ev, t) && t in s.running && t in s.pending
    ensures !ev.TurnOfJiffy?
    ensures var r := BagNext(s, ev, first);
            if ev.RunFirst? && first == t then t !in r.pending else t in r.running
  {
  }

  lemma StepOnWorkList(s: State, ev: Event, t: Timer)
    requires Good(s) && Enabled(s, ev) && !Touches(ev, t) && OnWorkList(s, t)
    ensures !ev.TurnOfJiffy?
    ensures if ev.RunFirst? && First(s) == t then t !in Next(s, ev).base.entry else OnWorkList(Next(s, ev), t)
  {
    hide Next, Enabled, Timely, NextOk, Counted, Linked, Abs, BagNext;
    StepRefines(s, ev);
    LinkedBounds(s.base);
    AbsRunning(s, t);
    BagRunning(Abs(s), ev, First(s), t);
    AbsRunning(Next(s, ev), t);
  }

  lemma AbsRunning(s: State, t: Timer)
    requires Linked(s.base)
    ensures OnWorkList(s, t) <==> t in Abs(s).running
    ensures t in s.base.entry <==> t in Abs(s).pending
  {
  }

  /**
   In every run, a timer on the work list that is neither modified nor deleted is run from there, and
   no further turn of the wheel comes before that.
   */
  lemma {:induction false} TakenIsRun(ss: seq<State>, evs: seq<Event>, i: nat, j: nat, t: Timer)
    requires Run(ss, evs) && i <= j <= |evs| && OnWorkList(ss[i], t)
    requires forall k | i <= k < j :: !Touches(evs[k], t)
    ensures || (OnWorkList(ss[j], t) && forall k | i <= k < j :: !evs[k].TurnOfJiffy?)
            || exists k :: i <= k < j && RunBy(ss, evs, k, t) && forall m | i <= m <= k :: !evs[m].TurnOfJiffy?
    decreases j
  {
    hide Good, Next, Linked, Enabled, Init, OnWorkList;
    if i < j {
      var k := j - 1;
      TakenIsRun(ss, evs, i, k, t);
      if OnWorkList(ss[k], t) && forall m | i <= m < k :: !evs[m].TurnOfJiffy? {
        RunGood(ss, evs, k);
        assert Transition(ss[k], evs[k], ss[j]);
        WorkSize(ss[k]);
        StepOnWorkList(ss[k], evs[k], t);
        if evs[k].RunFirst? && First(ss[k]) == t {
          assert RunBy(ss, evs, k, t);
        }
      }
    }
  }

  lemma WorkSize(s: State)
    requires Good(s)
    ensures Linked(s.base) && |s.base.vec| == WORK + 1
  {
  }

  /**
   From waiting to running: a timer that waits at point i and that nobody touches before point j is
   still waiting for its due jiffy, or the turn of that jiffy has taken it at some step m; then it
   has been run since, or waits for that without another turn.
   */
  lemma RunsOnTime(ss: seq<State>, evs: seq<Event>, i: nat, j: nat, t: Timer)
    requires Run(ss, evs) && i <= j <= |evs| && Waiting(ss[i], t)
    requires forall k | i <= k < j :: !Touches(evs[k], t)
    ensures || (Waiting(ss[j], t) && ss[j].base.timerJiffies <= Due(ss[i], t))
            || exists m :: i <= m < j && TakenBy(ss, evs, m, t, Due(ss[i], t)) &&
                           (|| (OnWorkList(ss[j], t) && forall k | m < k < j :: !evs[k].TurnOfJiffy?)
                            || exists k :: m < k < j && RunBy(ss, evs, k, t) &&
                                           forall n | m < n <= k :: !evs[n].TurnOfJiffy?)
  {
    hide Run, RunBy;
    RunLength(ss, evs);
    FiresOnTime(ss, evs, i, j, t);
    if !Waiting(ss[j], t) {
      var m :| i <= m < j && TakenBy(ss, evs, m, t, Due(ss[i], t));
      TakenIsRun(ss, evs, m + 1, j, t);
    }
  }

  lemma RunLength(ss: seq<State>, evs: seq<Event>)
    requires Run(ss, evs)
    ensures |ss| == |evs| + 1
  {
  }

  // ------------------------------------------------------ how long a run lasts

  /** The number of turns between two points of a run. */
  function Turns(evs: seq<Event>, i: nat, j: nat): nat
    requires i <= j <= |evs|
  {
    if i == j then 0 else Turns(evs, i, j - 1) + if evs[j - 1].TurnOfJiffy? then 1 else 0
  }

  lemma StepClock(s: State, ev: Event, w: Timer)
    requires Good(s) && Enabled(s, ev) && !Touches(ev, w) && Waiting(s, w) && s.base.expires[w] > s.jiffies
    requires !ev.Advance?
    ensures var r := Next(s, ev);
            && r.jiffies == s.jiffies && Waiting(r, w) && r.base.expires[w] == s.base.expires[w]
            && r.base.timerJiffies == s.base.timerJiffies + (if ev.TurnOfJiffy? then 1 else 0)
  {
    hide Enabled, Timely, NextOk, Counted, Linked, Abs, Waiting, BagNext, ModTimer, DetachIfPending, Tick, Expire;
    StepRefines(s, ev);
    LinkedBounds(s.base);
    BagStep(Abs(s), ev, First(s), w);
    AbsWaiting(s, w);
    AbsWaiting(Next(s, ev), w);
    TurnNotAhead(s, ev);
  }

  lemma TurnNotAhead(s: State, ev: Event)
    requires Linked(s.base) && Enabled(s, ev)
    ensures ev.TurnOfJiffy? ==> s.base.timerJiffies <= s.jiffies
  {
  }

  /**
   While jiffies stand still, one timer that waits for later and that nobody touches bounds the number
   of turns, whatever the callbacks arm: as the base never empties, it never falls back.
   */
  lemma {:induction false} TurnsBounded(ss: seq<State>, evs: seq<Event>, i: nat, j: nat, w: Timer)
    requires Run(ss, evs) && i <= j <= |evs| && Waiting(ss[i], w) && ss[i].base.expires[w] > ss[i].jiffies
    requires forall k | i <= k < j :: !evs[k].Advance? && !Touches(evs[k], w)
    ensures ss[j].jiffies == ss[i].jiffies && Waiting(ss[j], w) && ss[j].base.expires[w] > ss[j].jiffies
    ensures Turns(evs, i, j) == ss[j].base.timerJiffies - ss[i].base.timerJiffies
    ensures Turns(evs, i, j) <= ss[i].jiffies + 1 - ss[i].base.timerJiffies
    decreases j
  {
    hide Next, Enabled, Linked, Timely, Counted, NextOk, Waiting, Init;
    RunGood(ss, evs, j);
    if i < j {
      TurnsBounded(ss, evs, i, j - 1, w);
      RunGood(ss, evs, j - 1);
      assert Transition(ss[j - 1], evs[j - 1], ss[j]);
      WaitingIn(ss[j - 1], w);
      StepClock(ss[j - 1], evs[j - 1], w);
    }
  }

  lemma WaitingIn(s: State, w: Timer)
    requires Waiting(s, w)
    ensures w in s.base.expires
  {
  }

  /** A base with at most one timer, in the bucket given or nowhere. */
  function Lone(jiffies: nat, now: nat, t: Timer, slot: nat, pending: bool, known: bool): State {
    var n := if pending then 1 else 0;
    State(Base(now, jiffies, n, n, seq(WORK + 1, i => if pending && i == slot then [t] else []),
               if pending then map[t := slot] else map[], if known then map[t := jiffies] else map[], {}), jiffies)
  }

  lemma LoneLinked(jiffies: nat, now: nat, t: Timer, slot: nat, pending: bool, known: bool)
    requires slot <= WORK && (pending ==> known)
    ensures Linked(Lone(jiffies, now, t, slot, pending, known).base)
  {
  }

  lemma LoneSet(jiffies: nat, t: Timer, known: bool)
    ensures Linked(Lone(jiffies, jiffies, t, 0, false, known).base)
    ensures Next(Lone(jiffies, jiffies, t, 0, false, known), Mod(t, jiffies)) ==
            Lone(jiffies, jiffies, t, jiffies % TVR_SIZE, true, true)
  {
    var s := Lone(jiffies, jiffies, t, 0, false, known);
    LoneLinked(jiffies, jiffies, t, 0, false, known);
    var r := Next(s, Mod(t, jiffies));
    var slot := jiffies % TVR_SIZE;
    var want := Lone(jiffies, jiffies, t, slot, true, true);
    assert s.base.vec[slot] + [t] == [t];
    assert r.base.vec == s.base.vec[slot := [t]];
    forall i | 0 <= i <= WORK ensures r.base.vec[i] == want.base.vec[i] {
    }
    assert r.base.expires == want.base.expires;
  }

  lemma LoneTurn(jiffies: nat, t: Timer)
    requires jiffies % TVR_SIZE != 0
    ensures var s := Lone(jiffies, jiffies, t, jiffies % TVR_SIZE, true, true);
            && Linked(s.base) && Enabled(s, TurnOfJiffy)
            && Next(s, TurnOfJiffy) == Lone(jiffies, jiffies + 1, t, WORK, true, true)
  {
    hide Linked;
    var s := Lone(jiffies, jiffies, t, jiffies % TVR_SIZE, true, true);
    LoneLinked(jiffies, jiffies, t, jiffies % TVR_SIZE, true, true);
    var r := Next(s, TurnOfJiffy);
    var want := Lone(jiffies, jiffies + 1, t, WORK, true, true);
    assert r.base.vec == want.base.vec;
    assert r.base.entry == want.base.entry;
  }

  lemma LoneRun(jiffies: nat, t: Timer)
    ensures var s := Lone(jiffies, jiffies + 1, t, WORK, true, true);
            && Linked(s.base) && Enabled(s, RunFirst)
            && Next(s, RunFirst) == Lone(jiffies, jiffies, t, 0, false, true)
  {
    hide Linked;
    var s := Lone(jiffies, jiffies + 1, t, WORK, true, true);
    LoneLinked(jiffies, jiffies + 1, t, WORK, true, true);
    var r := Next(s, RunFirst);
    var want := Lone(jiffies, jiffies, t, 0, false, true);
    assert Remove([t], t) == [];
    assert r.base.vec == want.base.vec;
    assert r.base.entry == want.base.entry;
  }

  /**
   A callback that arms its own timer for the current jiffy can keep the loop going for ever: when the
   only timer is taken off, the base falls back to the current jiffy, and after three steps it is in
   the very same state.  There are runs with any number of such rounds.
   */
  lemma {:induction false} EndlessRounds(jiffies: nat, t: Timer, rounds: nat) returns (ss: seq<State>, evs: seq<Event>)
    requires jiffies % TVR_SIZE != 0
    ensures Run(ss, evs) && |evs| == 3 * rounds + 1
    ensures ss[|evs|] == Lone(jiffies, jiffies, t, jiffies % TVR_SIZE, true, true)
    ensures Turns(evs, 0, |evs|) == rounds && forall k | 0 <= k < |evs| :: !evs[k].Advance?
    decreases rounds
  {
    hide Linked, Next, Enabled, Lone;
    if rounds == 0 {
      ss, evs := FirstRound(jiffies, t);
    } else {
      ss, evs := EndlessRounds(jiffies, t, rounds - 1);
      LoneTurn(jiffies, t);
      LoneRun(jiffies, t);
      LoneSet(jiffies, t, true);
      ss, evs := OneMore(ss, evs, TurnOfJiffy);
      ss, evs := OneMore(ss, evs, RunFirst);
      ModEnabled(ss[|evs|], t, jiffies);
      ss, evs := OneMore(ss, evs, Mod(t, jiffies));
    }
  }

  lemma ModEnabled(s: State, t: Timer, e: nat)
    requires Linked(s.base)
    ensures Enabled(s, Mod(t, e))
  {
  }

  lemma FirstRound(jiffies: nat, t: Timer) returns (ss: seq<State>, evs: seq<Event>)
    ensures Run(ss, evs) && evs == [Mod(t, jiffies)] && Turns(evs, 0, |evs|) == 0
    ensures ss[1] == Lone(jiffies, jiffies, t, jiffies % TVR_SIZE, true, true)
  {
    hide Linked, Next;
    var s := Lone(jiffies, jiffies, t, 0, false, false);
    LoneSet(jiffies, t, false);
    ss, evs := [s, Next(s, Mod(t, jiffies))], [Mod(t, jiffies)];
    assert Init(s);
    assert Transition(ss[0], evs[0], ss[1]);
    assert Turns(evs, 0, 0) == 0;
  }

  /** A run with one step more. */
  lemma OneMore(ss: seq<State>, evs: seq<Event>, ev: Event) returns (ss': seq<State>, evs': seq<Event>)
    requires Run(ss, evs) && Linked(ss[|evs|].base) && Enabled(ss[|evs|], ev)
    ensures Run(ss', evs') && evs' == evs + [ev] && ss' == ss + [Next(ss[|evs|], ev)]
    ensures Turns(evs', 0, |evs'|) == Turns(evs, 0, |evs|) + if ev.TurnOfJiffy? then 1 else 0
  {
    hide Linked, Next, Enabled, Init;
    ss', evs' := ss + [Next(ss[|evs|], ev)], evs + [ev];
    forall k | 0 <= k < |evs'| ensures Transition(ss'[k], evs'[k], ss'[k + 1]) {
      if k < |evs| {
        assert Transition(ss[k], evs[k], ss[k + 1]);
      }
    }
    TurnsPrefix(evs, evs', 0, |evs|);
  }

  lemma {:induction false} TurnsPrefix(evs: seq<Event>, evs': seq<Event>, i: nat, j: nat)
    requires i <= j <= |evs| <= |evs'| && evs'[..|evs|] == evs
    ensures Turns(evs', i, j) == Turns(evs, i, j)
    decreases j
  {
    if i < j {
      assert evs'[j - 1] == evs'[..|evs|][j - 1];
      TurnsPrefix(evs, evs', i, j - 1);
    }
  }

  // -------------------------------------------------------------------- paths

  /** The steps lead from s to s', and `fired` lists the timers that they run. */
  ghost predicate Path(s: State, evs: seq<Event>, fired: seq<Timer>, s': State)
    decreases |evs|
  {
    if evs == [] then fired == [] && s == s'
    else
      && Linked(s.base) && Enabled(s, evs[0])
      && if evs[0].RunFirst?
         then fired != [] && fired[0] == First(s) && Path(Next(s, evs[0]), evs[1..], fired[1..], s')
         else Path(Next(s, evs[0]), evs[1..], fired, s')
  }

  function Ran(s: State, ev: Event): seq<Timer>
    requires |s.base.vec| == WORK + 1
  {
    if ev.RunFirst? then [First(s)] else []
  }

  lemma {:induction false} PathOn(s: State, evs: seq<Event>, fired: seq<Timer>, s': State, ev: Event)
    requires Path(s, evs, fired, s') && Linked(s'.base) && Enabled(s', ev) && |s'.base.vec| == WORK + 1
    ensures Path(s, evs + [ev], fired + Ran(s', ev), Next(s', ev))
    decreases |evs|
  {
    hide Linked, Next, Enabled;
    if evs == [] {
      PathOne(s, ev);
      assert [] + [ev] == [ev] && [] + Ran(s', ev) == Ran(s', ev);
    } else {
      var r := Next(s, evs[0]);
      assert (evs + [ev])[1..] == evs[1..] + [ev];
      if evs[0].RunFirst? {
        PathOn(r, evs[1..], fired[1..], s', ev);
        assert (fired + Ran(s', ev))[1..] == fired[1..] + Ran(s', ev);
      } else {
        PathOn(r, evs[1..], fired, s', ev);
      }
    }
  }

  lemma PathOne(s: State, ev: Event)
    requires Linked(s.base) && Enabled(s, ev) && |s.base.vec| == WORK + 1
    ensures Path(s, [ev], Ran(s, ev), Next(s, ev))
  {
    hide Linked, Next, Enabled;
    assert [ev][1..] == [];
    assert Path(Next(s, ev), [], [], Next(s, ev));
    assert ev.RunFirst? ==> Ran(s, ev)[1..] == [];
  }

  /** A run that goes on along a path is a run, so that all that holds of runs holds of it. */
  lemma {:induction false} RunOn(ss: seq<State>, evs: seq<Event>, more: seq<Event>, fired: seq<Timer>, s': State)
    returns (ss': seq<State>)
    requires Run(ss, evs) && Path(ss[|evs|], more, fired, s')
    ensures Run(ss', evs + more) && ss'[..|ss|] == ss && ss'[|evs + more|] == s'
    decreases |more|
  {
    hide Linked, Next, Enabled, Init;
    if more == [] {
      ss' := ss;
      assert evs + more == evs;
    } else {
      var ss1, evs1 := OneMore(ss, evs, more[0]);
      ss' := RunOn(ss1, evs1, more[1..], if more[0].RunFirst? then fired[1..] else fired, s');
      assert evs1 + more[1..] == evs + more;
      assert ss'[..|ss|] == ss'[..|ss1|][..|ss|] == ss;
    }
  }
}
