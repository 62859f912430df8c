/**
 The hierarchical timer wheel of timer/timer_list.c, on values.

 A `Base` is a `struct tvec_base`.  Its 512 buckets (tv1: 256, tv2..tv5: 64 each) are one
 sequence of lists, and list number `WORK` is the work list of `__run_timers`.  A timer is
 pending exactly when `entry` says which list its list entry is linked into.

 Jiffies are unbounded; `TimerWord` relates them to 64-bit words.
 */
module TimerWheel {
  import opened Helpers

  type Timer = nat

  const TVR_SIZE: nat := 256
  const TVN_SIZE: nat := 64
  const MAX_TVAL: nat := 0xFFFF_FFFF

  /** The list that holds the timers being run. */
  const WORK: nat := 512

  datatype Base = Base(
    timerJiffies: nat,
    nextTimer: nat,
    activeTimers: int,
    allTimers: int,
    vec: seq<seq<Timer>>,
    entry: map<Timer, nat>,
    expires: map<Timer, nat>,
    deferrable: set<Timer>)

  // ---------------------------------------------------------------- geometry

  /** The number of jiffies covered by one bucket of level k (tv2 is level 1). */
  function Span(k: nat): nat
    requires 1 <= k <= 4
  {
    if k == 1 then 0x100 else if k == 2 then 0x4000 else if k == 3 then 0x10_0000 else 0x400_0000
  }

  /** The bucket of level k that covers the jiffy t. */
  function LevelSlot(k: nat, t: nat): (slot: nat)
    requires 1 <= k <= 4
    ensures TVR_SIZE + TVN_SIZE * (k - 1) <= slot < TVR_SIZE + TVN_SIZE * k
  {
    TVR_SIZE + TVN_SIZE * (k - 1) + (t / Span(k)) % TVN_SIZE
  }

  /** The bucket chosen by `__internal_add_timer`. */
  function Slot(expires: nat, now: nat): (slot: nat)
    ensures slot < WORK
  {
    var idx := expires - now;
    if 0 <= idx < TVR_SIZE then
      expires % TVR_SIZE
    else if 0 <= idx < Span(2) then
      LevelSlot(1, expires)
    else if 0 <= idx < Span(3) then
      LevelSlot(2, expires)
    else if 0 <= idx < Span(4) then
      LevelSlot(3, expires)
    else if idx < 0 then
      now % TVR_SIZE
    else
      LevelSlot(4, if idx > MAX_TVAL then MAX_TVAL + now else expires)
  }

  /** The first block of level k that starts at or after the jiffy t. */
  function FirstBlock(k: nat, t: nat): nat
    requires 1 <= k <= 4
  {
    (t + Span(k) - 1) / Span(k)
  }

  /** The block of level k that bucket `slot` stands for when the level starts at block `lo`. */
  function BlockOf(slot: nat, lo: nat): (b: nat)
    ensures lo <= b < lo + TVN_SIZE && b % TVN_SIZE == slot % TVN_SIZE
  {
    lo + (slot - lo) % TVN_SIZE
  }

  /**
   May a timer with this expiry sit in this bucket?  Levels 1..m have been cascaded for the
   jiffy `now`: they start one block later.  A bucket of tv1 holds timers that are due at
   exactly one jiffy; a bucket of a higher level holds timers that are due no earlier than
   the jiffy at which it is cascaded.
   */
  predicate Placed(slot: nat, expires: nat, now: nat, m: nat)
    requires slot < WORK
  {
    if slot < TVR_SIZE then
      Max(expires, now) < now + TVR_SIZE && Max(expires, now) % TVR_SIZE == slot
    else
      var k := (slot - TVR_SIZE) / TVN_SIZE + 1;
      var lo := FirstBlock(k, if k <= m then now + 1 else now);
      BlockOf(slot, lo) * Span(k) <= expires
  }

  lemma BlockUnique(slot: nat, lo: nat, b: nat)
    requires lo <= b < lo + TVN_SIZE && b % TVN_SIZE == slot % TVN_SIZE
    ensures BlockOf(slot, lo) == b
  {
  }

  lemma FirstBlockStep(k: nat, now: nat)
    requires 1 <= k <= 4
    ensures FirstBlock(k, now + 1) == now / Span(k) + 1
    ensures FirstBlock(k, now) == if now % Span(k) == 0 then now / Span(k) else now / Span(k) + 1
  {
  }

  /** The blocks of level k in which a timer at that level's distance can fall. */
  lemma BlockRange(k: nat, e: nat, now: nat)
    requires 1 <= k <= 4
    requires now + Span(k) <= e < now + Span(k) * TVN_SIZE
    ensures now / Span(k) < e / Span(k) <= now / Span(k) + TVN_SIZE
    ensures now % Span(k) == 0 ==> e / Span(k) < now / Span(k) + TVN_SIZE
  {
  }

  lemma LevelOfSlot(k: nat, e: nat)
    requires 1 <= k <= 4
    ensures (LevelSlot(k, e) - TVR_SIZE) / TVN_SIZE + 1 == k && LevelSlot(k, e) % TVN_SIZE == (e / Span(k)) % TVN_SIZE
  {
    hide Span;
  }

  lemma BlockStart(k: nat, e: nat)
    requires 1 <= k <= 4
    ensures e / Span(k) * Span(k) <= e
  {
  }

  lemma LevelPlaced(k: nat, e: nat, expires: nat, now: nat, m: nat)
    requires 1 <= k <= 4
    requires now + Span(k) <= e <= expires
    requires e < now + Span(k) * TVN_SIZE
    ensures Placed(LevelSlot(k, e), expires, now, m)
  {
    hide Span, FirstBlock, BlockOf, LevelSlot;
    LevelOfSlot(k, e);
    BlockStart(k, e);
    FirstBlockStep(k, now);
    BlockRange(k, e, now);
    BlockUnique(LevelSlot(k, e), FirstBlock(k, if k <= m then now + 1 else now), e / Span(k));
  }

  /** Whatever has been cascaded, insertion by distance picks a bucket the timer may sit in. */
  lemma SlotPlaced(expires: nat, now: nat, m: nat)
    ensures Placed(Slot(expires, now), expires, now, m)
  {
    var idx := expires - now;
    if TVR_SIZE <= idx < Span(2) {
      LevelPlaced(1, expires, expires, now, m);
    } else if Span(2) <= idx < Span(3) {
      LevelPlaced(2, expires, expires, now, m);
    } else if Span(3) <= idx < Span(4) {
      LevelPlaced(3, expires, expires, now, m);
    } else if Span(4) <= idx {
      LevelPlaced(4, if idx > MAX_TVAL then MAX_TVAL + now else expires, expires, now, m);
    }
  }

  /** A timer is re-inserted into tv1 exactly when it is due within 256 jiffies. */
  lemma ReinsertedIntoFirst(expires: nat, now: nat)
    ensures Slot(expires, now) < TVR_SIZE <==> expires < now + TVR_SIZE
  {
  }

  /**
   A cascade does not fill tv1 alone: a timer inserted at jiffy 0 sits in the bucket of tv3 that
   is emptied at jiffy 0x4000, and goes into tv2 from there.
   */
  lemma CascadeRefillsSecond()
    ensures Slot(0x4100, 0) == LevelSlot(2, 0x4000)
    ensures Slot(0x4100, 0x4000) == LevelSlot(1, 0x4100)
  {
  }

  /** A block that a timer at a whole level's distance falls into is not the current one. */
  lemma FarBlock(k: nat, e: nat, now: nat)
    requires 1 <= k <= 4 && now % Span(k) == 0
    requires now + Span(k) <= e < now + Span(k) * TVN_SIZE
    ensures LevelSlot(k, e) != LevelSlot(k, now)
  {
    BlockRange(k, e, now);
    hide Span;
  }

  /** Re-insertion during a cascade never lands in the bucket that the cascade empties. */
  lemma SlotAvoidsCascaded(k: nat, expires: nat, now: nat)
    requires 1 <= k <= 4 && now % Span(k) == 0
    ensures Slot(expires, now) != LevelSlot(k, now)
  {
    var idx := expires - now;
    if k == 1 && TVR_SIZE <= idx < Span(2) {
      FarBlock(1, expires, now);
    } else if k == 2 && Span(2) <= idx < Span(3) {
      FarBlock(2, expires, now);
    } else if k == 3 && Span(3) <= idx < Span(4) {
      FarBlock(3, expires, now);
    } else if k == 4 && Span(4) <= idx {
      FarBlock(4, if idx > MAX_TVAL then MAX_TVAL + now else expires, now);
    }
  }

  /** All buckets but the one that a cascade empties survive the step to the next block. */
  lemma CascadeKeepsOthers(slot: nat, expires: nat, now: nat, m: nat)
    requires slot < WORK && m < 4 && Placed(slot, expires, now, m)
    requires now % Span(m + 1) == 0 ==> slot != LevelSlot(m + 1, now)
    ensures Placed(slot, expires, now, m + 1)
  {
    FirstBlockStep(m + 1, now);
    if slot >= TVR_SIZE && (slot - TVR_SIZE) / TVN_SIZE == m && now % Span(m + 1) == 0 {
      var lo := FirstBlock(m + 1, now);
      assert BlockOf(slot, lo) != lo;
      BlockUnique(slot, lo + 1, BlockOf(slot, lo));
    }
  }

  /** What waits in the wheel once all levels are cascaded: tv1's bucket of `now` or the future. */
  lemma DueNow(slot: nat, expires: nat, now: nat)
    requires slot < WORK && Placed(slot, expires, now, 4)
    ensures slot == now % TVR_SIZE <==> expires <= now
    ensures expires > now ==> Placed(slot, expires, now + 1, 0)
  {
  }

  // -------------------------------------------------------------- operations

  /** `catchup_timer_jiffies` */
  function CatchUp(b: Base, jiffies: nat): Base {
    if b.allTimers == 0 then b.(timerJiffies := jiffies) else b
  }

  /** `__internal_add_timer`: link the timer at the tail of its bucket. */
  function Link(b: Base, timer: Timer): Base
    requires |b.vec| == WORK + 1 && timer in b.expires
  {
    var slot := Slot(b.expires[timer], b.timerJiffies);
    b.(vec := b.vec[slot := b.vec[slot] + [timer]], entry := b.entry[timer := slot])
  }

  /** The counters and `next_timer` after a timer has been linked. */
  function Account(b: Base, timer: Timer): Base
    requires timer in b.expires
  {
    var e := b.expires[timer];
    var c := if timer in b.deferrable then b else
               b.(activeTimers := b.activeTimers + 1,
                  nextTimer := if b.activeTimers == 0 || e < b.nextTimer then e else b.nextTimer);
    c.(allTimers := c.allTimers + 1)
  }

  /** `internal_add_timer` */
  function InternalAdd(b: Base, timer: Timer, jiffies: nat): Base
    requires |b.vec| == WORK + 1 && timer in b.expires
  {
    Account(Link(CatchUp(b, jiffies), timer), timer)
  }

  function Remove(s: seq<Timer>, timer: Timer): (r: seq<Timer>)
    ensures forall x :: x in r <==> x in s && x != timer
    ensures NoDup(s) ==> NoDup(r)
  {
    if s == [] then []
    else if s[0] == timer then Remove(s[1..], timer)
    else
      var r := Remove(s[1..], timer);
      assert s == [s[0]] + s[1..];
      assert NoDup(s) ==> s[0] !in s[1..];
      [s[0]] + r
  }

  /** `detach_timer`: take the timer off the list it is linked into. */
  function Unlink(b: Base, timer: Timer): Base
    requires timer in b.entry && b.entry[timer] < |b.vec|
  {
    var i := b.entry[timer];
    b.(vec := b.vec[i := Remove(b.vec[i], timer)], entry := b.entry - {timer})
  }

  /** A timer off its list and out of the counters, with a new `next_timer`. */
  function Detached(b: Base, timer: Timer, next: nat): Base
    requires timer in b.entry && b.entry[timer] < |b.vec|
  {
    Unlink(b, timer).(nextTimer := next,
                      activeTimers := b.activeTimers - (if timer in b.deferrable then 0 else 1),
                      allTimers := b.allTimers - 1)
  }

  /** `next_timer` after a deletion: a stale value is moved back to the current jiffy. */
  function NextAfter(b: Base, timer: Timer): nat
    requires timer in b.expires
  {
    if timer !in b.deferrable && b.expires[timer] == b.nextTimer then b.timerJiffies else b.nextTimer
  }

  /** `detach_if_pending` */
  function DetachIfPending(b: Base, timer: Timer, jiffies: nat): Base
    requires Linked(b)
  {
    if timer in b.entry then CatchUp(Detached(b, timer, NextAfter(b, timer)), jiffies) else b
  }

  /** `mod_timer` with no slack, on the timer's own CPU. */
  function ModTimer(b: Base, timer: Timer, expires: nat, jiffies: nat): Base
    requires Linked(b)
  {
    if timer in b.entry && b.expires[timer] == expires then b else
    var c := DetachIfPending(b, timer, jiffies);
    InternalAdd(c.(expires := c.expires[timer := expires]), timer, jiffies)
  }

  /** `list_replace_init` of a bucket onto a private list, which is then re-inserted. */
  function Cut(b: Base, slot: nat): Base
    requires slot < |b.vec|
  {
    b.(vec := b.vec[slot := []], entry := map t | t in b.entry && b.entry[t] != slot :: b.entry[t])
  }

  function LinkAll(b: Base, timers: seq<Timer>): Base
    requires |b.vec| == WORK + 1 && forall t <- timers :: t in b.expires
    decreases |timers|
  {
    if timers == [] then b else LinkAll(Link(b, timers[0]), timers[1..])
  }

  /** `cascade` of the bucket of level k that starts at the current jiffy. */
  function Cascade(b: Base, k: nat): Base
    requires Linked(b) && 1 <= k <= 4
  {
    var slot := LevelSlot(k, b.timerJiffies);
    LinkAll(Cut(b, slot), b.vec[slot])
  }

  /** `list_replace_init` of the current bucket of tv1 onto the work list. */
  function TakeWork(b: Base, slot: nat): Base
    requires slot < WORK && |b.vec| == WORK + 1
  {
    b.(vec := b.vec[WORK := b.vec[slot]][slot := []],
       entry := map t | t in b.entry :: if b.entry[t] == slot then WORK else b.entry[t])
  }

  /** `INDEX(k - 1)`, the value that `cascade` of level k returns. */
  function Index(k: nat, now: nat): nat
    requires 1 <= k <= 4
  {
    (now / Span(k)) % TVN_SIZE
  }

  /** The chain of cascades from level k up, which stops after a level with a non-zero index. */
  function CascadeFrom(b: Base, k: nat): (r: Base)
    requires Linked(b) && 1 <= k <= 4
    ensures Linked(r) && r == b.(vec := r.vec, entry := r.entry) && r.entry.Keys == b.entry.Keys
    decreases 4 - k
  {
    var c := Cascade(b, k);
    CascadeLinked(b, k);
    if k == 4 || Index(k, b.timerJiffies) != 0 then c else CascadeFrom(c, k + 1)
  }

  /** One turn of the outer loop of `__run_timers`, up to the inner loop. */
  function Tick(b: Base): Base
    requires Linked(b)
  {
    var index := b.timerJiffies % TVR_SIZE;
    var c := if index == 0 then CascadeFrom(b, 1) else b;
    TakeWork(c.(timerJiffies := c.timerJiffies + 1), index)
  }

  /** One turn of the inner loop up to the callback: `detach_expired_timer` of the first timer. */
  function Expire(b: Base, jiffies: nat): Base
    requires Linked(b) && b.vec[WORK] != []
  {
    assert b.vec[WORK][0] in b.vec[WORK];
    CatchUp(Detached(b, b.vec[WORK][0], b.nextTimer), jiffies)
  }

  // -------------------------------------------------------------- invariants

  /** The lists and the entries of the timers agree. */
  predicate Linked(b: Base) {
    && |b.vec| == WORK + 1
    && b.entry.Keys <= b.expires.Keys
    && (forall t <- b.entry :: b.entry[t] <= WORK && t in b.vec[b.entry[t]])
    && (forall i, t :: 0 <= i <= WORK && t in b.vec[i] ==> t in b.entry && b.entry[t] == i)
    && (forall i :: 0 <= i <= WORK ==> NoDup(b.vec[i]))
  }

  /** Every waiting timer sits where it will be found in time; every running one is due. */
  predicate Timely(b: Base, m: nat) {
    forall t <- b.entry :: t in b.expires && Sits(b.entry[t], b.expires[t], b.timerJiffies, m)
  }

  predicate Sits(slot: nat, expires: nat, now: nat, m: nat) {
    slot <= WORK && if slot == WORK then expires < now else Placed(slot, expires, now, m)
  }

  function Active(b: Base): set<Timer> {
    set t <- b.entry.Keys | t !in b.deferrable
  }

  predicate Counted(b: Base) {
    b.allTimers == |b.entry.Keys| && b.activeTimers == |Active(b)|
  }

  /** `next_timer` never lies after the jiffy at which a non-deferrable timer fires. */
  predicate NextOk(b: Base) {
    forall t <- Active(b) :: t in b.expires && b.nextTimer <= Max(b.expires[t], b.timerJiffies)
  }

  predicate Inv(b: Base) {
    Linked(b) && Timely(b, 0) && Counted(b) && NextOk(b)
  }

  // ------------------------------------------------------------ preservation

  lemma LinkLinked(b: Base, timer: Timer)
    requires Linked(b) && timer in b.expires && timer !in b.entry
    ensures Linked(Link(b, timer))
  {
    hide Placed, Slot;
    var c := Link(b, timer);
    var slot := Slot(b.expires[timer], b.timerJiffies);
    assert timer !in b.vec[slot];
    assert forall i :: 0 <= i <= WORK && i != slot ==> c.vec[i] == b.vec[i];
    assert c.vec[slot] == b.vec[slot] + [timer];
  }

  lemma LinkTimely(b: Base, timer: Timer, m: nat)
    requires Linked(b) && Timely(b, m) && timer in b.expires
    ensures Timely(Link(b, timer), m)
  {
    hide Placed, Slot;
    SlotPlaced(b.expires[timer], b.timerJiffies, m);
  }

  lemma CutLinked(b: Base, slot: nat)
    requires Linked(b) && slot <= WORK
    ensures Linked(Cut(b, slot))
    ensures Cut(b, slot).entry.Keys == set t | t in b.entry && t !in b.vec[slot]
  {
    var c := Cut(b, slot);
    assert forall i :: 0 <= i <= WORK && i != slot ==> c.vec[i] == b.vec[i];
  }

  lemma {:induction false} LinkAllLinked(b: Base, timers: seq<Timer>)
    requires Linked(b) && NoDup(timers)
    requires forall t <- timers :: t in b.expires && t !in b.entry
    ensures var c := LinkAll(b, timers);
            && Linked(c)
            && c == b.(vec := c.vec, entry := c.entry)
            && c.entry.Keys == b.entry.Keys + (set t <- timers)
            && (forall m :: Timely(b, m) ==> Timely(c, m))
    decreases |timers|
  {
    hide Placed, Slot;
    if timers != [] {
      var c := Link(b, timers[0]);
      LinkLinked(b, timers[0]);
      assert forall t <- timers[1..] :: t in timers;
      LinkAllLinked(c, timers[1..]);
      forall m | Timely(b, m) ensures Timely(c, m) { LinkTimely(b, timers[0], m); }
      assert timers == [timers[0]] + timers[1..];
    }
  }

  lemma CascadeLinked(b: Base, k: nat)
    requires Linked(b) && 1 <= k <= 4
    ensures var c := Cascade(b, k);
            && Linked(c)
            && c == b.(vec := c.vec, entry := c.entry)
            && c.entry.Keys == b.entry.Keys
  {
    var slot := LevelSlot(k, b.timerJiffies);
    CutLinked(b, slot);
    LinkAllLinked(Cut(b, slot), b.vec[slot]);
  }

  lemma StepTimely(b: Base, k: nat)
    requires 1 <= k <= 4 && Timely(b, k - 1)
    requires b.timerJiffies % Span(k) == 0 ==> forall t <- b.entry :: b.entry[t] != LevelSlot(k, b.timerJiffies)
    ensures Timely(b, k)
  {
    hide Placed, Slot;
    forall t | t in b.entry ensures Sits(b.entry[t], b.expires[t], b.timerJiffies, k) {
      if b.entry[t] != WORK {
        CascadeKeepsOthers(b.entry[t], b.expires[t], b.timerJiffies, k - 1);
      }
    }
  }

  lemma CascadeTimely(b: Base, k: nat)
    requires Linked(b) && 1 <= k <= 4 && Timely(b, k - 1)
    ensures Timely(Cascade(b, k), k)
  {
    hide Placed, Slot;
    var slot := LevelSlot(k, b.timerJiffies);
    var c := Cut(b, slot);
    CutLinked(b, slot);
    StepTimely(c, k);
    LinkAllLinked(c, b.vec[slot]);
  }

  lemma SpanDivides(k: nat, now: nat)
    requires 1 <= k < 4
    ensures now % Span(k + 1) == 0 <==> now % Span(k) == 0 && Index(k, now) == 0
  {
    var q := now / Span(k);
    if k == 1 {
      DivUnique(now, 0x4000, q / TVN_SIZE, 0x100 * (q % TVN_SIZE) + now % 0x100);
    } else if k == 2 {
      DivUnique(now, 0x10_0000, q / TVN_SIZE, 0x4000 * (q % TVN_SIZE) + now % 0x4000);
    } else {
      DivUnique(now, 0x400_0000, q / TVN_SIZE, 0x10_0000 * (q % TVN_SIZE) + now % 0x10_0000);
    }
  }

  lemma {:induction false} RestTimely(b: Base, k: nat)
    requires 1 <= k <= 4 && Timely(b, k) && (k < 4 ==> b.timerJiffies % Span(k + 1) != 0)
    ensures Timely(b, 4)
    decreases 4 - k
  {
    hide Span, Timely;
    if k < 4 {
      StepTimely(b, k + 1);
      if k < 3 {
        SpanDivides(k + 1, b.timerJiffies);
      }
      RestTimely(b, k + 1);
    }
  }

  lemma {:induction false} CascadeFromTimely(b: Base, k: nat)
    requires Linked(b) && 1 <= k <= 4 && Timely(b, k - 1) && b.timerJiffies % Span(k) == 0
    ensures Timely(CascadeFrom(b, k), 4)
    decreases 4 - k
  {
    hide Span, Timely, Linked, Index;
    CascadeTimely(b, k);
    CascadeLinked(b, k);
    if k < 4 {
      SpanDivides(k, b.timerJiffies);
      if Index(k, b.timerJiffies) != 0 {
        RestTimely(Cascade(b, k), k);
      } else {
        CascadeFromTimely(Cascade(b, k), k + 1);
      }
    }
  }

  lemma TakeWorkLinked(b: Base, slot: nat)
    requires Linked(b) && slot < WORK && b.vec[WORK] == []
    ensures Linked(TakeWork(b, slot))
  {
    var c := TakeWork(b, slot);
    assert forall i :: 0 <= i < WORK && i != slot ==> c.vec[i] == b.vec[i];
    assert c.vec[slot] == [] && c.vec[WORK] == b.vec[slot];
  }

  /** Once every level is cascaded, each waiting timer is in the current bucket of tv1 or not due. */
  lemma CascadedDue(b: Base)
    requires Linked(b) && Timely(b, 4) && b.vec[WORK] == []
    ensures forall t <- b.entry ::
              && b.entry[t] < WORK
              && (b.entry[t] == b.timerJiffies % TVR_SIZE <==> b.expires[t] <= b.timerJiffies)
              && (b.expires[t] > b.timerJiffies ==> Placed(b.entry[t], b.expires[t], b.timerJiffies + 1, 0))
  {
    hide Placed;
    forall t | t in b.entry
      ensures b.entry[t] < WORK
      ensures b.entry[t] == b.timerJiffies % TVR_SIZE <==> b.expires[t] <= b.timerJiffies
      ensures b.expires[t] > b.timerJiffies ==> Placed(b.entry[t], b.expires[t], b.timerJiffies + 1, 0)
    {
      assert t in b.vec[b.entry[t]];
      DueNow(b.entry[t], b.expires[t], b.timerJiffies);
    }
  }

  /** The cascades of one turn of the run loop, for the current jiffy. */
  lemma CascadesTimely(b: Base)
    requires Linked(b) && Timely(b, 0) && b.vec[WORK] == []
    ensures var c := if b.timerJiffies % TVR_SIZE == 0 then CascadeFrom(b, 1) else b;
            Timely(c, 4) && c.vec[WORK] == []
  {
    hide Timely, Linked, CascadeFrom;
    if b.timerJiffies % TVR_SIZE == 0 {
      CascadeFromTimely(b, 1);
      CascadeFromNoWork(b, 1);
    } else {
      StepTimely(b, 1);
      SpanDivides(1, b.timerJiffies);
      RestTimely(b, 1);
    }
  }

  lemma TakeWorkTimely(b: Base, slot: nat)
    requires Linked(b) && Timely(b, 4) && b.vec[WORK] == [] && slot == b.timerJiffies % TVR_SIZE
    ensures var c := TakeWork(b.(timerJiffies := b.timerJiffies + 1), slot);
            && Timely(c, 0) && c.entry.Keys == b.entry.Keys
            && forall t <- b.entry :: c.entry[t] == WORK <==> b.expires[t] <= b.timerJiffies
  {
    hide Placed, NoDup;
    CascadedDue(b);
  }

  /**
   The turn of the run loop for one jiffy moves to the work list exactly the pending timers
   whose expiry is not later than that jiffy, and leaves all others pending and well placed.
   */
  lemma TickCorrect(b: Base)
    requires Linked(b) && Timely(b, 0) && b.vec[WORK] == []
    ensures var c := Tick(b);
            && Linked(c) && Timely(c, 0)
            && c == b.(timerJiffies := b.timerJiffies + 1, vec := c.vec, entry := c.entry)
            && c.entry.Keys == b.entry.Keys
            && forall t <- b.entry :: c.entry[t] == WORK <==> b.expires[t] <= b.timerJiffies
  {
    hide Placed, CascadeFrom, Timely, Linked;
    CascadesTimely(b);
    var index := b.timerJiffies % TVR_SIZE;
    var c := if index == 0 then CascadeFrom(b, 1) else b;
    CascadedDue(c);
    var d := c.(timerJiffies := c.timerJiffies + 1);
    SameLists(c, d);
    TakeWorkLinked(d, index);
    TakeWorkTimely(c, index);
  }

  /** A cascade never touches the work list. */
  lemma {:induction false} LinkAllNoWork(b: Base, timers: seq<Timer>)
    requires |b.vec| == WORK + 1 && forall t <- timers :: t in b.expires
    ensures var c := LinkAll(b, timers); |c.vec| == WORK + 1 && c.vec[WORK] == b.vec[WORK]
    decreases |timers|
  {
    if timers != [] {
      LinkAllNoWork(Link(b, timers[0]), timers[1..]);
    }
  }

  lemma {:induction false} CascadeFromNoWork(b: Base, k: nat)
    requires Linked(b) && 1 <= k <= 4
    ensures CascadeFrom(b, k).vec[WORK] == b.vec[WORK]
    decreases 4 - k
  {
    var slot := LevelSlot(k, b.timerJiffies);
    LinkAllNoWork(Cut(b, slot), b.vec[slot]);
    CascadeLinked(b, k);
    if k < 4 && Index(k, b.timerJiffies) == 0 {
      CascadeFromNoWork(Cascade(b, k), k + 1);
    }
  }

  // ------------------------------------------- the invariant, operation by operation

  lemma LinkedBounds(b: Base)
    requires Linked(b)
    ensures |b.vec| == WORK + 1 && b.entry.Keys <= b.expires.Keys
    ensures forall t <- b.entry :: b.entry[t] <= WORK
    ensures b.vec[WORK] != [] ==> b.vec[WORK][0] in b.entry && b.entry[b.vec[WORK][0]] == WORK
  {
    if b.vec[WORK] != [] {
      assert b.vec[WORK][0] in b.vec[WORK];
    }
  }

  lemma CutListed(b: Base, slot: nat)
    requires Linked(b) && slot <= WORK
    ensures forall t <- b.vec[slot] :: t in b.expires
  {
  }

  /** The invariant parts that do not depend on the scalar fields. */
  lemma SameLists(b: Base, c: Base)
    requires Linked(b) && c.vec == b.vec && c.entry == b.entry && b.expires.Keys <= c.expires.Keys
    ensures Linked(c)
    ensures c.deferrable == b.deferrable ==> Active(c) == Active(b)
  {
  }

  lemma SameTimely(b: Base, c: Base)
    requires Timely(b, 0) && c.entry == b.entry && c.expires == b.expires && c.timerJiffies == b.timerJiffies
    ensures Timely(c, 0)
  {
    hide Placed;
  }

  lemma UnlinkLinked(b: Base, timer: Timer)
    requires Linked(b) && timer in b.entry
    ensures Linked(Unlink(b, timer))
  {
    var c := Unlink(b, timer);
    var i := b.entry[timer];
    assert forall j :: 0 <= j <= WORK && j != i ==> c.vec[j] == b.vec[j];
  }

  lemma CountUnlink(b: Base, timer: Timer)
    requires Linked(b) && Counted(b) && timer in b.entry
    ensures var c := Unlink(b, timer);
            && |c.entry.Keys| == |b.entry.Keys| - 1
            && |Active(c)| == |Active(b)| - if timer in b.deferrable then 0 else 1
  {
    hide Linked, Remove;
    LinkedBounds(b);
    var c := Unlink(b, timer);
    assert c.entry.Keys == b.entry.Keys - {timer};
    assert Active(c) == Active(b) - {timer};
  }

  lemma CatchUpInv(b: Base, jiffies: nat)
    requires Inv(b)
    ensures Inv(CatchUp(b, jiffies))
  {
    hide Linked, Sits, Active;
    var c := CatchUp(b, jiffies);
    SameLists(b, c);
    if b.allTimers == 0 {
      assert b.entry.Keys == {};
      NoneActive(c);
    }
  }

  lemma NoneActive(b: Base)
    requires b.entry.Keys == {}
    ensures Active(b) == {}
  {
  }

  lemma UnlinkTimely(b: Base, timer: Timer)
    requires Linked(b) && Timely(b, 0) && timer in b.entry
    ensures Timely(Unlink(b, timer), 0)
  {
    hide Linked, Sits, Remove;
    LinkedBounds(b);
  }

  lemma UnlinkNextOk(b: Base, timer: Timer, next: nat)
    requires Linked(b) && NextOk(b) && timer in b.entry
    requires next == b.nextTimer || next == b.timerJiffies
    ensures NextOk(Unlink(b, timer).(nextTimer := next))
  {
    hide Linked, Remove;
    LinkedBounds(b);
    var c := Unlink(b, timer).(nextTimer := next);
    assert forall t <- Active(c) :: t in Active(b);
  }

  /** Taking one timer off its list and out of the counters keeps the invariant. */
  lemma DetachedInv(b: Base, timer: Timer, next: nat, jiffies: nat)
    requires Inv(b) && timer in b.entry
    requires next == b.nextTimer || next == b.timerJiffies
    ensures var c := Detached(b, timer, next);
            Linked(c) && Inv(CatchUp(c, jiffies)) && c.entry == b.entry - {timer}
  {
    hide Linked, Timely, Remove, CatchUp, NextOk, Active;
    LinkedBounds(b);
    var u := Unlink(b, timer);
    var c := Detached(b, timer, next);
    UnlinkLinked(b, timer);
    UnlinkNextOk(b, timer, next);
    UnlinkTimely(b, timer);
    CountUnlink(b, timer);
    SameLists(u, c);
    SameTimely(u, c);
    SameNext(u.(nextTimer := next), c);
    CatchUpInv(c, jiffies);
  }

  /** Deleting keeps the invariant and removes exactly this timer from the pending ones. */
  lemma DetachInv(b: Base, timer: Timer, jiffies: nat)
    requires Inv(b)
    ensures var c := DetachIfPending(b, timer, jiffies);
            Inv(c) && c.entry == b.entry - {timer} && c.expires == b.expires && c.deferrable == b.deferrable
  {
    hide Timely, Counted, NextOk, Remove, Linked, Active;
    LinkedBounds(b);
    if timer in b.entry {
      DetachedInv(b, timer, NextAfter(b, timer), jiffies);
    } else {
      assert b.entry - {timer} == b.entry;
    }
  }

  lemma CountLink(b: Base, timer: Timer)
    requires |b.vec| == WORK + 1 && timer in b.expires && timer !in b.entry
    ensures var c := Link(b, timer);
            && |c.entry.Keys| == |b.entry.Keys| + 1
            && |Active(c)| == |Active(b)| + if timer in b.deferrable then 0 else 1
  {
    var c := Link(b, timer);
    assert c.entry.Keys == b.entry.Keys + {timer};
    assert Active(c) == if timer in b.deferrable then Active(b) else Active(b) + {timer};
  }

  lemma LinkNextOk(b: Base, timer: Timer, next: nat)
    requires Linked(b) && NextOk(b) && timer in b.expires && timer !in b.entry
    requires next <= b.nextTimer || Active(b) == {}
    requires timer !in b.deferrable ==> next <= b.expires[timer]
    ensures NextOk(Link(b, timer).(nextTimer := next))
  {
    hide Linked, Slot;
    LinkedBounds(b);
    var c := Link(b, timer).(nextTimer := next);
    assert forall t <- Active(c) :: t == timer || t in Active(b);
  }

  lemma AccountCounted(a: Base, timer: Timer)
    requires |a.vec| == WORK + 1 && Counted(a) && timer in a.expires && timer !in a.entry
    ensures Counted(Account(Link(a, timer), timer))
  {
    CountLink(a, timer);
    assert Active(Account(Link(a, timer), timer)) == Active(Link(a, timer));
  }

  lemma AccountNextOk(a: Base, timer: Timer)
    requires Linked(a) && NextOk(a) && Counted(a) && timer in a.expires && timer !in a.entry
    ensures NextOk(Account(Link(a, timer), timer))
  {
    hide NextOk, Linked, Slot;
    LinkedBounds(a);
    var c := Link(a, timer);
    var d := Account(c, timer);
    if a.activeTimers == 0 {
      assert Active(a) == {};
    }
    LinkNextOk(a, timer, d.nextTimer);
    SameNext(c.(nextTimer := d.nextTimer), d);
  }

  lemma AccountInv(a: Base, timer: Timer)
    requires Inv(a) && timer in a.expires && timer !in a.entry
    ensures Inv(Account(Link(a, timer), timer))
  {
    hide Slot, Timely, NextOk, Linked, Counted, Active;
    LinkedBounds(a);
    var c := Link(a, timer);
    LinkLinked(a, timer);
    LinkTimely(a, timer, 0);
    SameLists(c, Account(c, timer));
    SameTimely(c, Account(c, timer));
    AccountCounted(a, timer);
    AccountNextOk(a, timer);
  }

  /** Adding keeps the invariant and adds exactly this timer to the pending ones. */
  lemma InternalAddInv(b: Base, timer: Timer, jiffies: nat)
    requires Inv(b) && timer in b.expires && timer !in b.entry
    ensures var c := InternalAdd(b, timer, jiffies);
            && Inv(c) && c.entry.Keys == b.entry.Keys + {timer}
            && c.expires == b.expires && c.deferrable == b.deferrable
            && c.entry[timer] < WORK && forall t <- b.entry :: c.entry[t] == b.entry[t]
  {
    hide Timely, NextOk, Linked, Counted, Active;
    LinkedBounds(b);
    CatchUpInv(b, jiffies);
    AccountInv(CatchUp(b, jiffies), timer);
  }

  lemma SameNext(b: Base, c: Base)
    requires NextOk(b) && c == b.(activeTimers := c.activeTimers, allTimers := c.allTimers)
    ensures NextOk(c)
  {
  }

  lemma SetExpiry(b: Base, timer: Timer, expires: nat)
    requires Inv(b) && timer !in b.entry
    ensures Inv(b.(expires := b.expires[timer := expires]))
  {
    hide Sits, Linked, Max;
    var c := b.(expires := b.expires[timer := expires]);
    SameLists(b, c);
    assert Timely(c, 0);
    assert NextOk(c);
  }

  /** Modifying is deleting and adding: the timer is pending with the new expiry. */
  lemma ModTimerInv(b: Base, timer: Timer, expires: nat, jiffies: nat)
    requires Inv(b)
    ensures var c := ModTimer(b, timer, expires, jiffies);
            && Inv(c) && c.entry.Keys == b.entry.Keys + {timer}
            && c.expires == b.expires[timer := expires] && c.deferrable == b.deferrable
  {
    hide InternalAdd, DetachIfPending, Linked, Timely, NextOk, Counted, Active;
    LinkedBounds(b);
    DetachInv(b, timer, jiffies);
    LinkedBounds(DetachIfPending(b, timer, jiffies));
    if timer in b.entry && b.expires[timer] == expires {
      assert b.expires[timer := expires] == b.expires;
    } else {
      var c := DetachIfPending(b, timer, jiffies);
      var d := c.(expires := c.expires[timer := expires]);
      SetExpiry(c, timer, expires);
      InternalAddInv(d, timer, jiffies);
    }
  }

  /** Moving timers between lists and letting time pass keeps the counters and `next_timer`. */
  lemma SameKeys(b: Base, c: Base)
    requires Counted(b) && NextOk(b) && c.entry.Keys == b.entry.Keys && b.timerJiffies <= c.timerJiffies
    requires c == b.(timerJiffies := c.timerJiffies, vec := c.vec, entry := c.entry)
    ensures Counted(c) && NextOk(c)
  {
    assert Active(c) == Active(b);
  }

  lemma TickInv(b: Base)
    requires Inv(b) && b.vec[WORK] == []
    ensures Inv(Tick(b))
  {
    hide Linked, Timely, Tick, Counted, NextOk;
    TickCorrect(b);
    SameKeys(b, Tick(b));
  }

  lemma ExpireInv(b: Base, jiffies: nat)
    requires Inv(b) && b.vec[WORK] != []
    ensures var c := Expire(b, jiffies);
            && Inv(c) && c.entry == b.entry - {b.vec[WORK][0]}
            && c.expires == b.expires && c.deferrable == b.deferrable
  {
    hide Timely, Counted, NextOk, Remove, Linked, Active;
    LinkedBounds(b);
    DetachedInv(b, b.vec[WORK][0], b.nextTimer, jiffies);
  }
}
