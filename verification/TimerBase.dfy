/**
 `struct tvec_base` as it is updated in place, each method proved against `TimerWheel`, and the
 run loop `__run_timers` with callbacks that delete and arm timers.
 */
module TimerBase {
  import opened Helpers
  import opened TimerWheel
  import opened TimerRun

  datatype Action = Delete(timer: Timer) | Arm(timer: Timer, expires: nat)

  /** What each callback does to timers, its own included. */
  type Callbacks = Timer -> seq<Action>

  /** No callback arms a timer that is already due. */
  ghost predicate ArmsLater(cb: Callbacks, jiffies: nat) {
    forall u: Timer, a: Action | a in cb(u) && a.Arm? :: a.expires > jiffies
  }

  // ------------------------------------------------ progress of the run loop

  /** The jiffy whose turn takes the timer, seen from the start of the run. */
  ghost function DueFrom(b0: Base, t: Timer): nat {
    if t in b0.expires then Max(b0.expires[t], b0.timerJiffies) else 0
  }

  /** The jiffy whose turn takes a timer that is now pending. */
  ghost function DueIn(b0: Base, b: Base, t: Timer): nat {
    if t in b.expires then Max(b.expires[t], b0.timerJiffies) else 0
  }

  /** A callback that has run has deleted or armed the timer. */
  ghost predicate Touched(fired: seq<Timer>, cb: Callbacks, t: Timer) {
    exists u, a :: u in fired && a in cb(u) && a.timer == t
  }

  ghost predicate Unchanged(b0: Base, b: Base, t: Timer) {
    t in b0.entry && t in b0.expires && t in b.entry && t in b.expires && b.expires[t] == b0.expires[t]
  }

  ghost predicate Later(b: Base, jiffies: nat, t: Timer) {
    t in b.expires && b.expires[t] > jiffies
  }

  /** What holds throughout: no timer is lost, none fires twice, and they fire in order of due jiffy. */
  ghost predicate Sound(b0: Base, b: Base, jiffies: nat, fired: seq<Timer>, cb: Callbacks) {
    && Inv(b) && NoDup(fired)
    && (forall u <- fired :: u in b0.entry && DueFrom(b0, u) <= jiffies && (u in b.entry ==> Later(b, jiffies, u)))
    && (forall p, q | 0 <= p < q < |fired| :: DueFrom(b0, fired[p]) <= DueFrom(b0, fired[q]))
    && (forall t <- b.entry :: Unchanged(b0, b, t) || (Later(b, jiffies, t) && Touched(fired, cb, t)))
    && (forall t <- b0.entry :: Unchanged(b0, b, t) || t in fired || Touched(fired, cb, t))
  }

  /** Nothing that is pending is due, and the base has caught up. */
  ghost predicate Settled(b: Base, jiffies: nat) {
    && jiffies <= b.timerJiffies <= jiffies + 1
    && forall t <- b.entry :: Later(b, jiffies, t) && b.entry[t] != WORK
  }

  /** Before the turn of the next jiffy. */
  ghost predicate Between(b0: Base, b: Base, jiffies: nat, fired: seq<Timer>) {
    && |b.vec| == WORK + 1 && b.vec[WORK] == []
    && (Settled(b, jiffies)
        || (&& b0.timerJiffies <= b.timerJiffies <= jiffies + 1
            && (forall t <- b.entry :: b.timerJiffies <= DueIn(b0, b, t))
            && (forall u <- fired :: DueFrom(b0, u) < b.timerJiffies)))
  }

  /** While the timers due at jiffy j are on the work list. */
  ghost predicate During(b0: Base, b: Base, jiffies: nat, fired: seq<Timer>, j: nat) {
    && j <= jiffies && (forall u <- fired :: DueFrom(b0, u) <= j)
    && (Settled(b, jiffies)
        || (&& b.timerJiffies == j + 1 && b0.timerJiffies <= j
            && forall t <- b.entry :: j <= DueIn(b0, b, t) && (b.entry[t] == WORK <==> DueIn(b0, b, t) == j)))
  }

  /** The timers that are pending and due by `jiffies`; their number bounds the callbacks to come. */
  ghost function Soon(b: Base, jiffies: nat): set<Timer> {
    set t <- b.entry.Keys | t in b.expires && b.expires[t] <= jiffies
  }

  lemma SameSoon(b: Base, c: Base, jiffies: nat)
    requires c.entry.Keys == b.entry.Keys && c.expires == b.expires
    ensures Soon(c, jiffies) == Soon(b, jiffies)
  {
  }

  lemma SmallerSoon(s: set<Timer>, r: set<Timer>)
    requires r <= s
    ensures |r| <= |s| && (r != s ==> |r| < |s|)
  {
    assert s == r + (s - r);
    assert |s| == |r| + |s - r|;
  }

  lemma TurnProgress(b0: Base, b: Base, jiffies: nat, fired: seq<Timer>, cb: Callbacks)
    requires Sound(b0, b, jiffies, fired, cb) && Between(b0, b, jiffies, fired) && b.timerJiffies <= jiffies
    ensures Sound(b0, Tick(b), jiffies, fired, cb) && During(b0, Tick(b), jiffies, fired, b.timerJiffies)
    ensures Tick(b).timerJiffies == b.timerJiffies + 1 && Soon(Tick(b), jiffies) == Soon(b, jiffies)
  {
    hide Linked, Timely, NextOk, Counted, Tick, NoDup, Touched;
    LinkedBounds(b);
    TickInv(b);
    TickCorrect(b);
    SameSoon(b, Tick(b), jiffies);
    TurnDuring(b0, b, Tick(b), jiffies, fired);
  }

  lemma TurnDuring(b0: Base, b: Base, c: Base, jiffies: nat, fired: seq<Timer>)
    requires Between(b0, b, jiffies, fired) && b.timerJiffies <= jiffies && b.entry.Keys <= b.expires.Keys
    requires forall u <- fired :: DueFrom(b0, u) <= jiffies
    requires c.timerJiffies == b.timerJiffies + 1 && c.expires == b.expires && c.entry.Keys == b.entry.Keys
    requires forall t <- b.entry :: c.entry[t] == WORK <==> b.expires[t] <= b.timerJiffies
    ensures During(b0, c, jiffies, fired, b.timerJiffies)
  {
    hide DueFrom;
    assert forall t <- c.entry :: t in b.entry;
  }

  /** One timer fewer: the others stay as they are, and if none is left the base catches up. */
  lemma LessTimers(b0: Base, b: Base, t: Timer, c: Base, jiffies: nat, fired: seq<Timer>, j: nat)
    requires During(b0, b, jiffies, fired, j) && c.expires == b.expires
    requires t in b.entry && c.entry == b.entry - {t} && c.timerJiffies == b.timerJiffies
             && c.allTimers == |c.entry.Keys|
    ensures During(b0, CatchUp(c, jiffies), jiffies, fired, j)
  {
    hide DueFrom;
    assert forall u <- c.entry :: u in b.entry && c.entry[u] == b.entry[u];
  }

  lemma DetachedFields(b: Base, timer: Timer, next: nat)
    requires Inv(b) && timer in b.entry && (next == b.nextTimer || next == b.timerJiffies)
    ensures var c := Detached(b, timer, next);
            && c.entry.Keys == b.entry.Keys - {timer} && c.entry == b.entry - {timer}
            && c.allTimers == |c.entry.Keys|
            && c.timerJiffies == b.timerJiffies && c.expires == b.expires
  {
    hide Linked, Timely, NextOk, Active, Remove;
    LinkedBounds(b);
  }

  lemma TouchedGrows(fired: seq<Timer>, u: Timer, cb: Callbacks)
    ensures forall t | Touched(fired, cb, t) :: Touched(fired + [u], cb, t)
  {
    forall t | Touched(fired, cb, t) ensures Touched(fired + [u], cb, t) {
      var v, a :| v in fired && a in cb(v) && a.timer == t;
      assert v in fired + [u];
    }
  }

  lemma SoundExpire(b0: Base, b: Base, jiffies: nat, fired: seq<Timer>, cb: Callbacks, j: nat, t: Timer, c: Base)
    requires Sound(b0, b, jiffies, fired, cb) && t in b.entry && t in b.expires && DueIn(b0, b, t) == j <= jiffies
    requires forall u <- fired :: DueFrom(b0, u) <= j
    requires Inv(c) && c.entry == b.entry - {t} && c.expires == b.expires
    ensures Sound(b0, c, jiffies, fired + [t], cb)
  {
    hide Inv, Touched;
    TouchedGrows(fired, t, cb);
    assert Unchanged(b0, b, t) && t !in fired && DueFrom(b0, t) == j;
    NoDupAppend(fired, t);
    forall u | u in c.entry ensures Unchanged(b0, c, u) || (Later(c, jiffies, u) && Touched(fired + [t], cb, u)) {
      assert u in b.entry;
    }
    forall u | u in b0.entry ensures Unchanged(b0, c, u) || u in fired + [t] || Touched(fired + [t], cb, u) {
      assert u != t ==> (Unchanged(b0, b, u) ==> Unchanged(b0, c, u));
    }
  }

  lemma NoDupAppend(s: seq<Timer>, t: Timer)
    requires NoDup(s) && t !in s
    ensures NoDup(s + [t])
  {
  }

  lemma ExpireProgress(b0: Base, b: Base, jiffies: nat, fired: seq<Timer>, cb: Callbacks, j: nat)
    requires Sound(b0, b, jiffies, fired, cb) && During(b0, b, jiffies, fired, j) && b.vec[WORK] != []
    ensures var c := Expire(b, jiffies);
            var f := fired + [b.vec[WORK][0]];
            && Sound(b0, c, jiffies, f, cb) && During(b0, c, jiffies, f, j)
            && |Soon(c, jiffies)| < |Soon(b, jiffies)|
  {
    hide Linked, Timely, NextOk, Counted, Detached, NoDup, DueFrom, Sound, Later;
    SoundInv(b0, b, jiffies, fired, cb);
    LinkedBounds(b);
    var t := b.vec[WORK][0];
    var c := Expire(b, jiffies);
    ExpireInv(b, jiffies);
    DetachedFields(b, t, b.nextTimer);
    LessTimers(b0, b, t, Detached(b, t, b.nextTimer), jiffies, fired, j);
    SoundExpire(b0, b, jiffies, fired, cb, j, t, c);
    SoundDue(b0, b, jiffies, fired, cb, t);
    assert Soon(c, jiffies) == Soon(b, jiffies) - {t};
    assert t in Soon(b, jiffies);
    SmallerSoon(Soon(b, jiffies), Soon(c, jiffies));
  }

  lemma SoundInv(b0: Base, b: Base, jiffies: nat, fired: seq<Timer>, cb: Callbacks)
    requires Sound(b0, b, jiffies, fired, cb)
    ensures Inv(b)
  {
  }

  /** A pending timer that is due has its expiry from the start of the run. */
  lemma SoundDue(b0: Base, b: Base, jiffies: nat, fired: seq<Timer>, cb: Callbacks, t: Timer)
    requires Sound(b0, b, jiffies, fired, cb) && t in b.entry && DueIn(b0, b, t) <= jiffies
    ensures DueFrom(b0, t) == DueIn(b0, b, t) && t in b.expires && b.expires[t] <= jiffies
  {
    hide Inv, NoDup, Touched;
  }

  lemma SoundDelete(b0: Base, b: Base, jiffies: nat, fired: seq<Timer>, cb: Callbacks, t: Timer, c: Base)
    requires Sound(b0, b, jiffies, fired, cb) && Touched(fired, cb, t)
    requires Inv(c) && c.entry == b.entry - {t} && c.expires == b.expires
    ensures Sound(b0, c, jiffies, fired, cb)
  {
    hide Inv, Touched, NoDup, DueFrom;
    assert forall u <- c.entry :: u in b.entry;
    assert forall u | u != t && u in b.entry :: u in c.entry;
  }

  lemma DeleteProgress(b0: Base, b: Base, jiffies: nat, fired: seq<Timer>, cb: Callbacks, j: nat, t: Timer)
    requires Sound(b0, b, jiffies, fired, cb) && During(b0, b, jiffies, fired, j) && Touched(fired, cb, t)
    ensures var c := DetachIfPending(b, t, jiffies);
            && Sound(b0, c, jiffies, fired, cb) && During(b0, c, jiffies, fired, j)
            && |Soon(c, jiffies)| <= |Soon(b, jiffies)| && t !in c.entry && c.allTimers == |c.entry.Keys|
  {
    hide Linked, Timely, NextOk, Detached, Touched, Sound, During, Later;
    SoundInv(b0, b, jiffies, fired, cb);
    LinkedBounds(b);
    DetachInv(b, t, jiffies);
    var c := DetachIfPending(b, t, jiffies);
    SoundDelete(b0, b, jiffies, fired, cb, t, c);
    if t in b.entry {
      DetachedFields(b, t, NextAfter(b, t));
      LessTimers(b0, b, t, Detached(b, t, NextAfter(b, t)), jiffies, fired, j);
    }
    SmallerSoon(Soon(b, jiffies), Soon(c, jiffies));
  }

  lemma SoundArm(b0: Base, b: Base, jiffies: nat, fired: seq<Timer>, cb: Callbacks, t: Timer, c: Base)
    requires Sound(b0, b, jiffies, fired, cb) && Touched(fired, cb, t) && t !in b.entry
    requires Inv(c) && c.entry.Keys == b.entry.Keys + {t}
    requires forall u <- b.entry :: u in b.expires && u in c.expires && c.expires[u] == b.expires[u]
    requires Later(c, jiffies, t)
    ensures Sound(b0, c, jiffies, fired, cb)
  {
    hide Inv, Touched, NoDup, DueFrom;
    forall u | u in c.entry ensures Unchanged(b0, c, u) || (Later(c, jiffies, u) && Touched(fired, cb, u)) {
      assert u == t || u in b.entry;
    }
  }

  lemma MoreTimers(b0: Base, b: Base, t: Timer, c: Base, jiffies: nat, fired: seq<Timer>, j: nat)
    requires During(b0, b, jiffies, fired, j) && t !in b.entry && Later(c, jiffies, t)
    requires c.entry.Keys == b.entry.Keys + {t} && c.entry[t] < WORK
    requires forall u <- b.entry :: c.entry[u] == b.entry[u]
    requires forall u <- b.entry :: u in b.expires && u in c.expires && c.expires[u] == b.expires[u]
    requires c.timerJiffies == if b.entry.Keys == {} then jiffies else b.timerJiffies
    ensures During(b0, c, jiffies, fired, j)
  {
    hide DueFrom;
    assert forall u <- c.entry :: u == t || u in b.entry;
  }

  lemma AddProgress(b0: Base, d: Base, jiffies: nat, fired: seq<Timer>, cb: Callbacks, j: nat, t: Timer, e: nat)
    requires Sound(b0, d, jiffies, fired, cb) && During(b0, d, jiffies, fired, j) && Touched(fired, cb, t)
             && e > jiffies
    requires t !in d.entry && d.allTimers == |d.entry.Keys| && |d.vec| == WORK + 1
    ensures var c := InternalAdd(d.(expires := d.expires[t := e]), t, jiffies);
            && Sound(b0, c, jiffies, fired, cb) && During(b0, c, jiffies, fired, j)
            && Soon(c, jiffies) == Soon(d, jiffies)
  {
    hide Linked, Timely, NextOk, Counted, Touched, Sound, During, InternalAdd;
    SoundInv(b0, d, jiffies, fired, cb);
    LinkedBounds(d);
    SetExpiry(d, t, e);
    var d' := d.(expires := d.expires[t := e]);
    InternalAddInv(d', t, jiffies);
    AddedJiffies(d', t, jiffies);
    var c := InternalAdd(d', t, jiffies);
    MoreTimers(b0, d, t, c, jiffies, fired, j);
    SoundArm(b0, d, jiffies, fired, cb, t, c);
  }

  lemma ArmProgress(b0: Base, b: Base, jiffies: nat, fired: seq<Timer>, cb: Callbacks, j: nat, t: Timer, e: nat)
    requires Sound(b0, b, jiffies, fired, cb) && During(b0, b, jiffies, fired, j) && Touched(fired, cb, t)
             && e > jiffies
    ensures var c := ModTimer(b, t, e, jiffies);
            && Sound(b0, c, jiffies, fired, cb) && During(b0, c, jiffies, fired, j)
            && |Soon(c, jiffies)| <= |Soon(b, jiffies)|
  {
    hide Linked, Timely, NextOk, Counted, Touched, Sound, During, DetachIfPending, InternalAdd, Soon;
    SoundInv(b0, b, jiffies, fired, cb);
    LinkedBounds(b);
    DetachInv(b, t, jiffies);
    DeleteProgress(b0, b, jiffies, fired, cb, j, t);
    var d := DetachIfPending(b, t, jiffies);
    LinkedBounds(d);
    AddProgress(b0, d, jiffies, fired, cb, j, t, e);
  }

  lemma AddedJiffies(b: Base, t: Timer, jiffies: nat)
    requires |b.vec| == WORK + 1 && t in b.expires && b.allTimers == |b.entry.Keys|
    ensures InternalAdd(b, t, jiffies).timerJiffies == if b.entry.Keys == {} then jiffies else b.timerJiffies
  {
  }

  lemma DoneProgress(b0: Base, b: Base, jiffies: nat, fired: seq<Timer>, j: nat)
    requires Linked(b) && During(b0, b, jiffies, fired, j) && b.vec[WORK] == []
    ensures Between(b0, b, jiffies, fired)
  {
    hide DueFrom;
    assert forall t <- b.entry :: b.entry[t] != WORK;
  }

  lemma StartProgress(b0: Base, jiffies: nat, cb: Callbacks)
    requires Inv(b0) && b0.timerJiffies <= jiffies && b0.vec[WORK] == []
    ensures var b := CatchUp(b0, jiffies); Sound(b0, b, jiffies, [], cb) && Between(b0, b, jiffies, [])
  {
    hide Linked, Timely, NextOk;
    LinkedBounds(b0);
    CatchUpInv(b0, jiffies);
  }

  /** When the turn of `jiffies` is over, nothing that is due is pending. */
  lemma EndProgress(b0: Base, b: Base, jiffies: nat, fired: seq<Timer>)
    requires Between(b0, b, jiffies, fired) && b.timerJiffies > jiffies >= b0.timerJiffies
             && b.entry.Keys <= b.expires.Keys
    ensures b.timerJiffies == jiffies + 1 && forall t <- b.entry :: b.expires[t] > jiffies
  {
  }

  lemma EmptyDone(b: Base)
    requires Counted(b) && b.allTimers == 0
    ensures b.entry == map[]
  {
  }

  // ----------------------------------- callbacks that arm timers already due

  /** No callback touches this timer. */
  ghost predicate Spares(cb: Callbacks, w: Timer) {
    forall u: Timer, a: Action | a in cb(u) :: a.timer != w
  }

  /** A timer that waits for later is left alone, so that the base is never empty. */
  ghost predicate Guarded(b0: Base, b: Base, jiffies: nat, w: Timer) {
    && Inv(b) && Unchanged(b0, b, w) && Later(b, jiffies, w) && b.entry[w] != WORK
    && b0.timerJiffies <= b.timerJiffies <= jiffies + 1
  }

  lemma GuardedStep(b0: Base, s: State, ev: Event, w: Timer)
    requires Guarded(b0, s.base, s.jiffies, w) && Enabled(s, ev) && !Touches(ev, w) && !ev.Advance?
    ensures Guarded(b0, Next(s, ev).base, s.jiffies, w)
    ensures Next(s, ev).base.timerJiffies == s.base.timerJiffies + if ev.TurnOfJiffy? then 1 else 0
  {
    hide Linked, Timely, Counted, NextOk, Next, Enabled;
    StepRefines(s, ev);
    StepClock(s, ev, w);
  }

  /** The steps without those of the outer loop: the timers run and what callbacks did. */
  function Inner(evs: seq<Event>): seq<Event> {
    if evs == [] then []
    else
      var ev := evs[|evs| - 1];
      Inner(evs[..|evs| - 1]) + if ev.Idle? || ev.TurnOfJiffy? then [] else [ev]
  }

  /** The steps of a callback. */
  function Acts(script: seq<Action>): seq<Event> {
    if script == [] then [] else Acts(script[..|script| - 1]) + [ActEvent(script[|script| - 1])]
  }

  /** Each timer that is run has its callback called, and then the next one is run. */
  ghost function Calls(fired: seq<Timer>, cb: Callbacks): seq<Event> {
    if fired == [] then []
    else Calls(fired[..|fired| - 1], cb) + [RunFirst] + Acts(cb(fired[|fired| - 1]))
  }

  lemma InnerNext(evs: seq<Event>, ev: Event)
    ensures Inner(evs + [ev]) == Inner(evs) + if ev.Idle? || ev.TurnOfJiffy? then [] else [ev]
  {
    assert (evs + [ev])[..|evs|] == evs;
  }

  lemma ActsNext(script: seq<Action>, n: nat)
    requires n < |script|
    ensures Acts(script[..n + 1]) == Acts(script[..n]) + [ActEvent(script[n])]
  {
    assert script[..n + 1][..n] == script[..n];
  }

  lemma CallsNext(fired: seq<Timer>, t: Timer, cb: Callbacks, evs: seq<Event>)
    requires Inner(evs) == Calls(fired, cb) + [RunFirst] + Acts(cb(t))
    ensures Inner(evs) == Calls(fired + [t], cb)
  {
    assert (fired + [t])[..|fired|] == fired;
  }

  /** The step that an action of a callback is. */
  function ActEvent(a: Action): Event {
    match a
    case Delete(t) => Del(t)
    case Arm(t, e) => Mod(t, e)
  }

  /** What the callbacks may do for the loop to end: arm for later only, or leave a waiting timer alone. */
  ghost predicate Allowed(fired: seq<Timer>, cb: Callbacks, jiffies: nat, guard: Option<Timer>, a: Action) {
    match guard
    case None => Touched(fired, cb, a.timer) && (a.Arm? ==> a.expires > jiffies)
    case Some(w) => a.timer != w
  }

  /** While the timers due at jiffy j are on the work list, in either case. */
  ghost predicate Mid(b0: Base, b: Base, jiffies: nat, fired: seq<Timer>, cb: Callbacks, j: nat, guard: Option<Timer>) {
    match guard
    case None => Sound(b0, b, jiffies, fired, cb) && During(b0, b, jiffies, fired, j)
    case Some(w) => Guarded(b0, b, jiffies, w) && b.timerJiffies == j + 1
  }

  /** Between two turns, in either case. */
  ghost predicate Gap(b0: Base, b: Base, jiffies: nat, fired: seq<Timer>, cb: Callbacks, guard: Option<Timer>) {
    && |b.vec| == WORK + 1 && b.vec[WORK] == []
    && match guard
       case None => Sound(b0, b, jiffies, fired, cb) && Between(b0, b, jiffies, fired)
       case Some(w) => Guarded(b0, b, jiffies, w)
  }

  lemma MidInv(b0: Base, b: Base, jiffies: nat, fired: seq<Timer>, cb: Callbacks, j: nat, guard: Option<Timer>)
    requires Mid(b0, b, jiffies, fired, cb, j, guard)
    ensures Inv(b) && Linked(b) && |b.vec| == WORK + 1
  {
    hide Timely, Counted, NextOk, Linked;
    LinkedBounds(b);
  }

  lemma MidAct(b0: Base, b: Base, jiffies: nat, fired: seq<Timer>, cb: Callbacks, j: nat, guard: Option<Timer>,
               a: Action)
    requires Mid(b0, b, jiffies, fired, cb, j, guard) && Allowed(fired, cb, jiffies, guard, a)
    ensures Inv(b) && Enabled(State(b, jiffies), ActEvent(a))
    ensures var c := Next(State(b, jiffies), ActEvent(a)).base;
            && Mid(b0, c, jiffies, fired, cb, j, guard) && |c.vec| == |b.vec| == WORK + 1
            && |c.vec[WORK]| <= |b.vec[WORK]|
            && (guard.None? ==> |Soon(c, jiffies)| <= |Soon(b, jiffies)|)
  {
    hide Inv, Sound, During, Guarded, Soon, Touched, ModTimer, DetachIfPending;
    MidInv(b0, b, jiffies, fired, cb, j, guard);
    ActWork(b, a, jiffies);
    match guard
    case None =>
      match a {
        case Delete(t) => DeleteProgress(b0, b, jiffies, fired, cb, j, t);
        case Arm(t, e) => ArmProgress(b0, b, jiffies, fired, cb, j, t, e);
      }
    case Some(w) =>
      GuardedStep(b0, State(b, jiffies), ActEvent(a), w);
  }

  lemma {:induction false} RemoveShorter(s: seq<Timer>, x: Timer)
    ensures |Remove(s, x)| <= |s| && (x in s ==> |Remove(s, x)| < |s|)
    decreases |s|
  {
    if s != [] {
      RemoveShorter(s[1..], x);
      assert s == [s[0]] + s[1..];
    }
  }

  lemma DetachWork(b: Base, t: Timer, jiffies: nat)
    requires Linked(b)
    ensures var c := DetachIfPending(b, t, jiffies); |c.vec| == WORK + 1 && |c.vec[WORK]| <= |b.vec[WORK]|
  {
    hide Linked, Remove;
    LinkedBounds(b);
    RemoveShorter(b.vec[WORK], t);
  }

  /** A callback puts nothing on the work list. */
  lemma ActWork(b: Base, a: Action, jiffies: nat)
    requires Inv(b)
    ensures var c := Next(State(b, jiffies), ActEvent(a)).base;
            |b.vec| == |c.vec| == WORK + 1 && |c.vec[WORK]| <= |b.vec[WORK]|
  {
    hide Timely, Counted, NextOk, Linked, DetachIfPending;
    LinkedBounds(b);
    DetachWork(b, a.timer, jiffies);
    DetachInv(b, a.timer, jiffies);
    LinkedBounds(DetachIfPending(b, a.timer, jiffies));
  }

  lemma MidExpire(b0: Base, b: Base, jiffies: nat, fired: seq<Timer>, cb: Callbacks, j: nat, guard: Option<Timer>)
    requires Mid(b0, b, jiffies, fired, cb, j, guard) && |b.vec| == WORK + 1 && b.vec[WORK] != []
    ensures Inv(b)
    ensures var c := Expire(b, jiffies);
            && Mid(b0, c, jiffies, fired + [b.vec[WORK][0]], cb, j, guard) && |c.vec| == WORK + 1
            && |c.vec[WORK]| < |b.vec[WORK]|
            && (guard.None? ==> |Soon(c, jiffies)| < |Soon(b, jiffies)|)
  {
    hide Inv, Sound, During, Guarded, Soon, Expire;
    MidInv(b0, b, jiffies, fired, cb, j, guard);
    ExpireWork(b, jiffies);
    match guard
    case None => ExpireProgress(b0, b, jiffies, fired, cb, j);
    case Some(w) => GuardedStep(b0, State(b, jiffies), RunFirst, w);
  }

  lemma ExpireWork(b: Base, jiffies: nat)
    requires Linked(b) && b.vec[WORK] != []
    ensures var c := Expire(b, jiffies); |c.vec| == WORK + 1 && |c.vec[WORK]| < |b.vec[WORK]|
  {
    hide Linked, Remove;
    LinkedBounds(b);
    RemoveShorter(b.vec[WORK], b.vec[WORK][0]);
  }

  lemma MidTurn(b0: Base, b: Base, jiffies: nat, fired: seq<Timer>, cb: Callbacks, guard: Option<Timer>)
    requires Gap(b0, b, jiffies, fired, cb, guard) && b.timerJiffies <= jiffies
    ensures Inv(b) && Mid(b0, Tick(b), jiffies, fired, cb, b.timerJiffies, guard)
    ensures Tick(b).timerJiffies == b.timerJiffies + 1 && (guard.None? ==> Soon(Tick(b), jiffies) == Soon(b, jiffies))
  {
    hide Inv, Sound, During, Between, Guarded, Soon, Tick;
    match guard
    case None =>
      SoundInv(b0, b, jiffies, fired, cb);
      TurnProgress(b0, b, jiffies, fired, cb);
    case Some(w) =>
      GuardedInv(b0, b, jiffies, w);
      GuardedStep(b0, State(b, jiffies), TurnOfJiffy, w);
  }

  lemma GuardedInv(b0: Base, b: Base, jiffies: nat, w: Timer)
    requires Guarded(b0, b, jiffies, w)
    ensures Inv(b)
  {
  }

  lemma GapDone(b0: Base, b: Base, jiffies: nat, fired: seq<Timer>, cb: Callbacks, j: nat, guard: Option<Timer>)
    requires Mid(b0, b, jiffies, fired, cb, j, guard) && |b.vec| == WORK + 1 && b.vec[WORK] == []
    ensures Gap(b0, b, jiffies, fired, cb, guard)
  {
    hide Timely, Counted, NextOk, Linked, Sound, During, Between, Guarded;
    MidInv(b0, b, jiffies, fired, cb, j, guard);
    if guard.None? {
      DoneProgress(b0, b, jiffies, fired, j);
    }
  }

  lemma AllAllowed(fired: seq<Timer>, cb: Callbacks, jiffies: nat, guard: Option<Timer>, u: Timer)
    requires u in fired && Permits(cb, jiffies, guard)
    ensures forall a <- cb(u) :: Allowed(fired, cb, jiffies, guard, a)
  {
    hide Touched;
    forall a | a in cb(u) ensures Allowed(fired, cb, jiffies, guard, a) {
      IsTouched(fired, cb, u, a);
    }
  }

  /** The loop ends with these callbacks. */
  ghost predicate Permits(cb: Callbacks, jiffies: nat, guard: Option<Timer>) {
    match guard
    case None => ArmsLater(cb, jiffies)
    case Some(w) => Spares(cb, w)
  }

  lemma IsTouched(fired: seq<Timer>, cb: Callbacks, u: Timer, a: Action)
    requires u in fired && a in cb(u)
    ensures Touched(fired, cb, a.timer)
  {
  }

  lemma CascadeStep(b: Base, k: nat)
    requires Linked(b) && 1 <= k <= 4
    ensures Linked(Cascade(b, k)) && Cascade(b, k).timerJiffies == b.timerJiffies
    ensures CascadeFrom(b, k) ==
            if k == 4 || Index(k, b.timerJiffies) != 0 then Cascade(b, k) else CascadeFrom(Cascade(b, k), k + 1)
  {
    hide Linked, Cascade, Index;
    CascadeLinked(b, k);
  }

  class TvecBase {
    var timerJiffies: nat
    var nextTimer: nat
    var activeTimers: int
    var allTimers: int
    const vec: array<seq<Timer>>
    var entry: map<Timer, nat>
    var expires: map<Timer, nat>
    const deferrable: set<Timer>

    function View(): Base
      reads this, vec
    {
      Base(timerJiffies, nextTimer, activeTimers, allTimers, vec[..], entry, expires, deferrable)
    }

    /** `init_timers_cpu` */
    constructor (jiffies: nat, deferrable: set<Timer>)
      ensures fresh(vec) && Inv(View()) && entry == map[] && timerJiffies == jiffies && vec[WORK] == []
      ensures this.deferrable == deferrable && Init(State(View(), jiffies))
    {
      vec := new seq<Timer>[WORK + 1](_ => []);
      timerJiffies, nextTimer, activeTimers, allTimers := jiffies, jiffies, 0, 0;
      entry, expires, this.deferrable := map[], map[], deferrable;
    }

    /** `catchup_timer_jiffies` */
    method CatchUpJiffies(jiffies: nat) returns (empty: bool)
      modifies this`timerJiffies
      ensures empty == (allTimers == 0) && View() == CatchUp(old(View()), jiffies)
    {
      if allTimers == 0 {
        timerJiffies := jiffies;
        return true;
      }
      return false;
    }

    /** `__internal_add_timer` */
    method LinkTimer(timer: Timer)
      requires vec.Length == WORK + 1 && timer in expires
      modifies this`entry, vec
      ensures View() == Link(old(View()), timer)
    {
      var slot := Slot(expires[timer], timerJiffies);
      vec[slot] := vec[slot] + [timer];
      entry := entry[timer := slot];
    }

    /** `internal_add_timer` */
    method InternalAddTimer(timer: Timer, jiffies: nat)
      requires vec.Length == WORK + 1 && timer in expires
      modifies this, vec
      ensures View() == InternalAdd(old(View()), timer, jiffies)
    {
      var _ := CatchUpJiffies(jiffies);
      LinkTimer(timer);
      if timer !in deferrable {
        if activeTimers == 0 || expires[timer] < nextTimer {
          nextTimer := expires[timer];
        }
        activeTimers := activeTimers + 1;
      }
      allTimers := allTimers + 1;
    }

    /** `detach_timer` */
    method DetachTimer(timer: Timer)
      requires timer in entry && entry[timer] < vec.Length
      modifies this`entry, vec
      ensures View() == Unlink(old(View()), timer)
    {
      var i := entry[timer];
      vec[i] := Remove(vec[i], timer);
      entry := entry - {timer};
    }

    /** `detach_if_pending` */
    method DetachPending(timer: Timer, jiffies: nat) returns (wasPending: bool)
      requires Linked(View())
      modifies this, vec
      ensures wasPending == (timer in old(entry)) && View() == DetachIfPending(old(View()), timer, jiffies)
    {
      if timer !in entry {
        return false;
      }
      DetachTimer(timer);
      if timer !in deferrable {
        activeTimers := activeTimers - 1;
        if expires[timer] == nextTimer {
          nextTimer := timerJiffies;
        }
      }
      allTimers := allTimers - 1;
      var _ := CatchUpJiffies(jiffies);
      return true;
    }

    /** `mod_timer`: afterwards the timer is pending with the new expiry, and no other timer is touched. */
    method Modify(timer: Timer, newExpires: nat, jiffies: nat) returns (wasPending: bool)
      requires Inv(View())
      modifies this, vec
      ensures wasPending == (timer in old(entry)) && View() == ModTimer(old(View()), timer, newExpires, jiffies)
      ensures Inv(View()) && entry.Keys == old(entry).Keys + {timer} && expires == old(expires)[timer := newExpires]
    {
      hide Linked, Timely, Counted, NextOk, Active, DetachIfPending, InternalAdd;
      LinkedBounds(View());
      ModTimerInv(View(), timer, newExpires, jiffies);
      DetachInv(View(), timer, jiffies);
      LinkedBounds(DetachIfPending(View(), timer, jiffies));
      if timer in entry && expires[timer] == newExpires {
        return true;
      }
      wasPending := DetachPending(timer, jiffies);
      expires := expires[timer := newExpires];
      InternalAddTimer(timer, jiffies);
    }

    /** `cascade` of level k */
    method CascadeLevel(k: nat) returns (index: nat)
      requires Linked(View()) && 1 <= k <= 4
      modifies this`entry, vec
      ensures index == Index(k, timerJiffies)
      ensures Linked(View()) && View() == Cascade(old(View()), k)
    {
      hide Linked, Link, Slot;
      ghost var was := View();
      LinkedBounds(was);
      CascadeLinked(was, k);
      CutListed(was, LevelSlot(k, timerJiffies));
      index := Index(k, timerJiffies);
      var slot := LevelSlot(k, timerJiffies);
      var list := vec[slot];
      vec[slot] := [];
      entry := map t | t in entry && entry[t] != slot :: entry[t];
      assert View() == Cut(was, slot);
      assert list[0..] == list;
      var n := 0;
      while n < |list|
        invariant n <= |list| && timerJiffies == old(timerJiffies) && expires == old(expires)
        invariant LinkAll(View(), list[n..]) == Cascade(was, k)
      {
        assert list[n] in list;
        LinkTimer(list[n]);
        assert list[n..][1..] == list[n + 1..];
        n := n + 1;
      }
      assert list[n..] == [];
    }

    /** The cascades of one turn: each further level only if the index of the one before is 0. */
    method CascadeAll()
      requires Linked(View())
      modifies this`entry, vec
      ensures Linked(View()) && View() == CascadeFrom(old(View()), 1)
    {
      hide Linked, Cascade, CascadeFrom, Index;
      ghost var b1 := View();
      CascadeStep(b1, 1);
      var i := CascadeLevel(1);
      if i == 0 {
        ghost var b2 := View();
        CascadeStep(b2, 2);
        i := CascadeLevel(2);
        if i == 0 {
          ghost var b3 := View();
          CascadeStep(b3, 3);
          i := CascadeLevel(3);
          if i == 0 {
            CascadeStep(View(), 4);
            i := CascadeLevel(4);
          }
        }
      }
    }

    /** The outer loop's body up to the inner loop: cascades, next jiffy, work list. */
    method TurnOfJiffy()
      requires Linked(View()) && vec[WORK] == []
      modifies this, vec
      ensures View() == Tick(old(View()))
    {
      hide Linked, Cascade, CascadeFrom;
      ghost var was := View();
      LinkedBounds(was);
      var index := timerJiffies % TVR_SIZE;
      if index == 0 {
        CascadeAll();
      }
      LinkedBounds(View());
      timerJiffies := timerJiffies + 1;
      vec[WORK] := vec[index];
      vec[index] := [];
      entry := map t | t in entry :: if entry[t] == index then WORK else entry[t];
    }

    /** The inner loop's body up to the callback: the first timer of the work list is detached. */
    method ExpireFirst(jiffies: nat) returns (timer: Timer)
      requires Linked(View()) && vec[WORK] != []
      modifies this, vec
      ensures timer == old(vec[WORK][0]) && View() == Expire(old(View()), jiffies)
    {
      hide Linked;
      LinkedBounds(View());
      timer := vec[WORK][0];
      DetachTimer(timer);
      if timer !in deferrable {
        activeTimers := activeTimers - 1;
      }
      allTimers := allTimers - 1;
      var _ := CatchUpJiffies(jiffies);
    }

    /** What a callback does: deletions and (re-)arming, one after the other. */
    method RunScript(script: seq<Action>, jiffies: nat, ghost b0: Base, ghost fired: seq<Timer>, ghost cb: Callbacks,
                     ghost j: nat, ghost guard: Option<Timer>, ghost s0: State, ghost evs0: seq<Event>)
      returns (ghost evs: seq<Event>)
      requires Mid(b0, View(), jiffies, fired, cb, j, guard) && vec.Length == WORK + 1
      requires forall a <- script :: Allowed(fired, cb, jiffies, guard, a)
      requires Path(s0, evs0, fired, State(View(), jiffies))
      modifies this, vec
      ensures Mid(b0, View(), jiffies, fired, cb, j, guard) && |vec[WORK]| <= old(|vec[WORK]|)
      ensures guard.None? ==> |Soon(View(), jiffies)| <= old(|Soon(View(), jiffies)|)
      ensures Path(s0, evs, fired, State(View(), jiffies)) && Inner(evs) == Inner(evs0) + Acts(script)
    {
      hide Inv, Mid, Allowed, DetachIfPending, ModTimer, Soon, Path, Inner, Acts;
      evs := evs0;
      ActsNone(script[..0]);
      for n := 0 to |script|
        invariant Mid(b0, View(), jiffies, fired, cb, j, guard) && |vec[WORK]| <= old(|vec[WORK]|)
        invariant guard.None? ==> |Soon(View(), jiffies)| <= old(|Soon(View(), jiffies)|)
        invariant Path(s0, evs, fired, State(View(), jiffies)) && Inner(evs) == Inner(evs0) + Acts(script[..n])
      {
        var a := script[n];
        assert a in script;
        ActsNext(script, n);
        InnerNext(evs, ActEvent(a));
        ghost var s := State(View(), jiffies);
        MidInv(b0, View(), jiffies, fired, cb, j, guard);
        MidAct(b0, View(), jiffies, fired, cb, j, guard, a);
        PathOn(s0, evs, fired, s, ActEvent(a));
        assert fired + Ran(s, ActEvent(a)) == fired;
        match a {
          case Delete(t) =>
            var _ := DetachPending(t, jiffies);
          case Arm(t, e) =>
            var _ := Modify(t, e, jiffies);
        }
        evs := evs + [ActEvent(a)];
      }
      assert script[..|script|] == script;
    }

    /** The inner loop: the timers on the work list are run one by one. */
    method RunWork(jiffies: nat, callbacks: Callbacks, ghost b0: Base, fired0: seq<Timer>, ghost j: nat,
                   ghost guard: Option<Timer>, ghost s0: State, ghost evs0: seq<Event>)
      returns (fired: seq<Timer>, ghost evs: seq<Event>)
      requires Mid(b0, View(), jiffies, fired0, callbacks, j, guard) && Permits(callbacks, jiffies, guard)
      requires Path(s0, evs0, fired0, State(View(), jiffies)) && Inner(evs0) == Calls(fired0, callbacks)
      modifies this, vec
      ensures Gap(b0, View(), jiffies, fired, callbacks, guard)
      ensures guard.None? ==> |Soon(View(), jiffies)| < old(|Soon(View(), jiffies)|) || View() == old(View())
      ensures guard.Some? ==> timerJiffies == old(timerJiffies)
      ensures Path(s0, evs, fired, State(View(), jiffies)) && Inner(evs) == Calls(fired, callbacks)
    {
      hide Inv, Expire, Soon, Gap, Permits, Allowed, Path, Sound, During, Guarded, Inner, Acts, Calls;
      fired, evs := fired0, evs0;
      MidInv(b0, View(), jiffies, fired, callbacks, j, guard);
      while vec[WORK] != []
        invariant Mid(b0, View(), jiffies, fired, callbacks, j, guard) && vec.Length == WORK + 1
        invariant guard.None? ==> |Soon(View(), jiffies)| < old(|Soon(View(), jiffies)|) || View() == old(View())
        invariant Path(s0, evs, fired, State(View(), jiffies)) && Inner(evs) == Calls(fired, callbacks)
        decreases |vec[WORK]|
      {
        ghost var s := State(View(), jiffies);
        MidInv(b0, View(), jiffies, fired, callbacks, j, guard);
        MidExpire(b0, View(), jiffies, fired, callbacks, j, guard);
        PathOn(s0, evs, fired, s, RunFirst);
        InnerNext(evs, RunFirst);
        ghost var before := fired;
        var timer := ExpireFirst(jiffies);
        fired, evs := fired + [timer], evs + [RunFirst];
        AllAllowed(fired, callbacks, jiffies, guard, timer);
        evs := RunScript(callbacks(timer), jiffies, b0, fired, callbacks, j, guard, s0, evs);
        CallsNext(before, timer, callbacks, evs);
      }
      GapDone(b0, View(), jiffies, fired, callbacks, j, guard);
    }

    /**
     `__run_timers` for frozen jiffies.  It terminates for callbacks that delete any timers and arm any
     timers, their own included, for later than now; and for callbacks that arm whatever they like, if
     they leave alone one timer that waits for later (`guard`).  In both cases it is a path of the
     step machine, with the turn of each jiffy in it, and the whole callback of each timer that is run.

     In the first case, every timer that was due is run, exactly once and in order of its due jiffy,
     unless a callback that ran deleted or armed it; no other timer is run, lost or changed.  In the
     second case, the turn of every jiffy up to now takes place once.
     */
    method RunTimers(jiffies: nat, callbacks: Callbacks, ghost guard: Option<Timer>)
      returns (fired: seq<Timer>, ghost evs: seq<Event>)
      requires Inv(View()) && vec[WORK] == [] && timerJiffies <= jiffies && Permits(callbacks, jiffies, guard)
      requires guard.Some? ==> guard.value in entry && guard.value in expires && expires[guard.value] > jiffies
      modifies this, vec
      ensures Inv(View()) && vec[WORK] == [] && entry.Keys <= expires.Keys
      ensures timerJiffies == if old(allTimers) == 0 then jiffies else jiffies + 1
      ensures Path(State(old(View()), jiffies), evs, fired, State(View(), jiffies))
      ensures Inner(evs) == Calls(fired, callbacks)
      ensures guard.Some? ==> Unchanged(old(View()), View(), guard.value)
      ensures guard.None? ==>
                && NoDup(fired)
                && (forall t <- fired :: t in old(entry) && DueFrom(old(View()), t) <= jiffies)
                && (forall p, q | 0 <= p < q < |fired| ::
                      DueFrom(old(View()), fired[p]) <= DueFrom(old(View()), fired[q]))
                && (forall t <- entry :: expires[t] > jiffies)
                && (forall t <- entry :: Unchanged(old(View()), View(), t) || Touched(fired, callbacks, t))
                && (forall t <- old(entry) ::
                      Unchanged(old(View()), View(), t) || t in fired || Touched(fired, callbacks, t))
    {
      hide Inv, Tick, Soon, Gap, Permits, Path, Sound, DueFrom, Unchanged, Touched, NoDup, Mid, Inner, Calls;
      ghost var b0 := View();
      InvBounds(b0);
      ghost var s0 := State(b0, jiffies);
      PathStart(s0);
      fired, evs := [], [Event.Idle];
      CallsNone(callbacks);
      var empty := CatchUpJiffies(jiffies);
      CatchUpInv(b0, jiffies);
      InvBounds(View());
      GapStart(b0, jiffies, callbacks, guard);
      if empty {
        EmptyDone(b0);
        GapEnd(b0, View(), jiffies, fired, callbacks, guard);
        return;
      }
      while timerJiffies <= jiffies
        invariant Gap(b0, View(), jiffies, fired, callbacks, guard) && vec.Length == WORK + 1 && vec[WORK] == []
        invariant Path(s0, evs, fired, State(View(), jiffies)) && Inner(evs) == Calls(fired, callbacks)
        decreases if guard.None? then |Soon(View(), jiffies)| else 0, jiffies + 1 - timerJiffies
      {
        ghost var j := timerJiffies;
        ghost var s := State(View(), jiffies);
        MidTurn(b0, View(), jiffies, fired, callbacks, guard);
        InvBounds(View());
        PathOn(s0, evs, fired, s, Event.TurnOfJiffy);
        assert fired + Ran(s, Event.TurnOfJiffy) == fired;
        InnerNext(evs, Event.TurnOfJiffy);
        TurnOfJiffy();
        fired, evs := RunWork(jiffies, callbacks, b0, fired, j, guard, s0, evs + [Event.TurnOfJiffy]);
        GapBounds(b0, View(), jiffies, fired, callbacks, guard);
      }
      GapEnd(b0, View(), jiffies, fired, callbacks, guard);
    }
  }

  lemma ActsNone(script: seq<Action>)
    requires script == []
    ensures Acts(script) == []
  {
  }

  lemma CallsNone(cb: Callbacks)
    ensures Inner([Event.Idle]) == Calls([], cb)
  {
    InnerNext([], Event.Idle);
  }

  lemma InvBounds(b: Base)
    requires Inv(b)
    ensures Linked(b) && |b.vec| == WORK + 1 && b.entry.Keys <= b.expires.Keys && Counted(b)
  {
    LinkedBounds(b);
  }

  lemma PathStart(s: State)
    requires Linked(s.base)
    ensures Path(s, [Event.Idle], [], State(CatchUp(s.base, s.jiffies), s.jiffies))
  {
    hide Linked;
    LinkedBounds(s.base);
    PathOne(s, Event.Idle);
  }

  lemma GapStart(b0: Base, jiffies: nat, cb: Callbacks, guard: Option<Timer>)
    requires Inv(b0) && b0.timerJiffies <= jiffies && |b0.vec| == WORK + 1 && b0.vec[WORK] == []
    requires guard.Some? ==> guard.value in b0.entry && Later(b0, jiffies, guard.value)
    ensures Gap(b0, CatchUp(b0, jiffies), jiffies, [], cb, guard)
  {
    hide Timely, NextOk, Linked, Sound, Between;
    LinkedBounds(b0);
    CatchUpInv(b0, jiffies);
    match guard
    case None => StartProgress(b0, jiffies, cb);
    case Some(w) => assert b0.entry[w] != WORK by { NotOnWork(b0, w); } assert w in b0.entry.Keys;
  }

  lemma NotOnWork(b: Base, w: Timer)
    requires Linked(b) && b.vec[WORK] == [] && w in b.entry
    ensures b.entry[w] != WORK
  {
  }

  lemma GapBounds(b0: Base, b: Base, jiffies: nat, fired: seq<Timer>, cb: Callbacks, guard: Option<Timer>)
    requires Gap(b0, b, jiffies, fired, cb, guard)
    ensures |b.vec| == WORK + 1 && b.vec[WORK] == []
  {
  }

  /** What holds when the loop has ended. */
  lemma GapEnd(b0: Base, b: Base, jiffies: nat, fired: seq<Timer>, cb: Callbacks, guard: Option<Timer>)
    requires Gap(b0, b, jiffies, fired, cb, guard) && b0.timerJiffies <= jiffies
    ensures Inv(b) && b.entry.Keys <= b.expires.Keys
    ensures b.timerJiffies > jiffies ==> b.timerJiffies == jiffies + 1
    ensures guard.Some? ==> Unchanged(b0, b, guard.value)
    ensures guard.None? ==>
              && NoDup(fired)
              && (forall t <- fired :: t in b0.entry && DueFrom(b0, t) <= jiffies)
              && (forall p, q | 0 <= p < q < |fired| :: DueFrom(b0, fired[p]) <= DueFrom(b0, fired[q]))
              && (b.timerJiffies > jiffies || b.entry == map[] ==> forall t <- b.entry :: b.expires[t] > jiffies)
              && (forall t <- b.entry :: Unchanged(b0, b, t) || Touched(fired, cb, t))
              && (forall t <- b0.entry :: Unchanged(b0, b, t) || t in fired || Touched(fired, cb, t))
  {
    hide Linked, Timely, Counted, NextOk, NoDup, Touched, DueFrom;
    LinkedBounds(b);
    if guard.None? && b.timerJiffies > jiffies {
      EndProgress(b0, b, jiffies, fired);
    }
  }
}
