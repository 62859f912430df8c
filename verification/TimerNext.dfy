/**
 What `next_timer` tells (timer/timer_list.c): when it lies in the future it is exactly the first expiry
 of the timers that are not deferrable, and otherwise it says that the wheel has to be searched.
 */
module TimerNext {
  import opened Helpers
  import opened TimerWheel
  import opened TimerRun
  import opened TimerOrder

  /** The timer is pending and not deferrable, and `next_timer` is its expiry. */
  predicate IsNext(b: Base, t: Timer) {
    t in Active(b) && t in b.expires && b.expires[t] == b.nextTimer
  }

  ghost predicate NextReal(b: Base) {
    Active(b) != {} && b.nextTimer > b.timerJiffies ==> exists t :: IsNext(b, t)
  }

  lemma ActivePending(b: Base, t: Timer)
    requires t in Active(b)
    ensures t in b.entry
  {
  }

  // -------------------------------------------------------- adding and deleting

  /** Adding moves `next_timer` to an earlier expiry and to no other. */
  lemma AddSetsNext(b: Base, x: Timer, jiffies: nat)
    requires Inv(b) && |b.vec| == WORK + 1 && x in b.expires && x !in b.entry
    ensures var next := InternalAdd(b, x, jiffies).nextTimer;
            if x in b.deferrable then next == b.nextTimer
            else next == if Active(b) == {} then b.expires[x] else Min(b.expires[x], b.nextTimer)
  {
    hide Linked, Timely, NextOk, Slot;
  }

  /** Deleting a timer with the expiry that `next_timer` shows moves it back to the current jiffy. */
  lemma DelSetsNext(b: Base, x: Timer, jiffies: nat)
    requires Inv(b)
    ensures var next := DetachIfPending(b, x, jiffies).nextTimer;
            if IsNext(b, x) then next == b.timerJiffies else next == b.nextTimer
  {
    hide Timely, NextOk, Remove, Linked;
    LinkedBounds(b);
  }

  lemma AddActive(b: Base, x: Timer, jiffies: nat)
    requires |b.vec| == WORK + 1 && x in b.expires && x !in b.entry
    ensures var c := InternalAdd(b, x, jiffies);
            && Active(c) == (if x in b.deferrable then Active(b) else Active(b) + {x}) && c.expires == b.expires
  {
    hide Slot;
    assert InternalAdd(b, x, jiffies).entry.Keys == b.entry.Keys + {x};
  }

  lemma AddReal(b: Base, x: Timer, jiffies: nat)
    requires Inv(b) && NextReal(b) && x in b.expires && x !in b.entry
    ensures NextReal(InternalAdd(b, x, jiffies))
  {
    hide Inv, Active, InternalAdd;
    InvLinked(b);
    AddActive(b, x, jiffies);
    AddSetsNext(b, x, jiffies);
    var c := InternalAdd(b, x, jiffies);
    if Active(c) != {} && c.nextTimer > c.timerJiffies {
      if x !in b.deferrable && c.nextTimer == b.expires[x] {
        assert IsNext(c, x);
      } else {
        var u :| u in Active(b);
        ActivePending(b, u);
        AddKeeps(b, x, u, jiffies);
        var t :| IsNext(b, t);
        assert IsNext(c, t);
      }
    }
  }

  /** Taking a timer off keeps the promise if its expiry is not the one shown, or is past. */
  lemma DetachedReal(b: Base, x: Timer, c: Base)
    requires NextReal(b) && c.expires == b.expires && Active(c) == Active(b) - {x}
    requires c.timerJiffies == b.timerJiffies || Active(c) == {}
    requires c.nextTimer == b.nextTimer || c.nextTimer == b.timerJiffies
    requires x in b.expires
    requires IsNext(b, x) && c.nextTimer == b.nextTimer ==> b.expires[x] <= b.timerJiffies
    ensures NextReal(c)
  {
    hide Active;
    if Active(c) != {} && c.nextTimer > c.timerJiffies {
      var t :| IsNext(b, t);
      assert IsNext(c, t);
    }
  }

  lemma LessActive(b: Base, c: Base, x: Timer)
    requires c.entry == b.entry - {x} && c.deferrable == b.deferrable
    ensures Active(c) == Active(b) - {x} && (c.entry.Keys == {} ==> Active(c) == {})
  {
  }

  lemma DelReal(b: Base, x: Timer, jiffies: nat)
    requires Inv(b) && NextReal(b)
    ensures NextReal(DetachIfPending(b, x, jiffies))
  {
    hide Inv, Active, DetachIfPending, NextReal, Linked, Timely;
    InvLinked(b);
    var c := DetachIfPending(b, x, jiffies);
    DetachInv(b, x, jiffies);
    DetachKeeps(b, x, jiffies);
    LessActive(b, c, x);
    DelSetsNext(b, x, jiffies);
    if x in b.entry {
      DetachedReal(b, x, c);
    } else {
      NotPending(b, x, jiffies);
    }
  }

  lemma NotPending(b: Base, x: Timer, jiffies: nat)
    requires Linked(b) && x !in b.entry
    ensures DetachIfPending(b, x, jiffies) == b
  {
  }

  lemma ModReal(b: Base, x: Timer, e: nat, jiffies: nat)
    requires Inv(b) && NextReal(b)
    ensures NextReal(ModTimer(b, x, e, jiffies))
  {
    hide Inv, Active, DetachIfPending, InternalAdd, NextReal;
    InvLinked(b);
    DetachInv(b, x, jiffies);
    DelReal(b, x, jiffies);
    var c := DetachIfPending(b, x, jiffies);
    SetExpiry(c, x, e);
    SetReal(c, x, e);
    AddReal(c.(expires := c.expires[x := e]), x, jiffies);
  }

  lemma SetReal(b: Base, x: Timer, e: nat)
    requires NextReal(b) && x !in b.entry
    ensures NextReal(b.(expires := b.expires[x := e]))
  {
    var c := b.(expires := b.expires[x := e]);
    assert Active(c) == Active(b);
    if Active(c) != {} && c.nextTimer > c.timerJiffies {
      var t :| IsNext(b, t);
      assert IsNext(c, t);
    }
  }

  // --------------------------------------------------------------------- turns

  lemma TickReal(b: Base)
    requires Inv(b) && b.vec[WORK] == [] && NextReal(b)
    ensures NextReal(Tick(b))
  {
    hide Linked, Timely, Counted, NextOk, CascadeFrom;
    LinkedBounds(b);
    var c := Tick(b);
    assert c.entry.Keys == b.entry.Keys;
    assert Active(c) == Active(b);
    if Active(c) != {} && c.nextTimer > c.timerJiffies {
      var t :| IsNext(b, t);
      assert IsNext(c, t);
    }
  }

  lemma WorkIsPast(b: Base)
    requires Inv(b) && b.vec[WORK] != []
    ensures var x := b.vec[WORK][0]; x in b.expires && b.expires[x] < b.timerJiffies
  {
    hide Counted, NextOk, Placed;
    assert b.vec[WORK][0] in b.vec[WORK];
  }

  lemma RunReal(b: Base, jiffies: nat)
    requires Inv(b) && b.vec[WORK] != [] && NextReal(b)
    ensures NextReal(Expire(b, jiffies))
  {
    hide Inv, Active;
    InvLinked(b);
    var x := b.vec[WORK][0];
    var c := Expire(b, jiffies);
    ExpireInv(b, jiffies);
    ExpireKeeps(b, jiffies);
    WorkIsPast(b);
    LessActive(b, c, x);
    DetachedReal(b, x, c);
  }

  lemma IdleReal(b: Base, jiffies: nat)
    requires Inv(b) && NextReal(b)
    ensures NextReal(CatchUp(b, jiffies))
  {
    hide Linked, Timely, NextOk;
    if b.allTimers == 0 {
      NoneActive(CatchUp(b, jiffies));
    }
  }

  lemma StepReal(s: State, ev: Event)
    requires Good(s) && Enabled(s, ev) && NextReal(s.base)
    ensures NextReal(Next(s, ev).base)
  {
    hide Inv, NextReal, ModTimer, DetachIfPending, Tick, Expire, CatchUp;
    InvLinked(s.base);
    match ev
    case Advance(_) =>
    case Mod(x, e) => ModReal(s.base, x, e, s.jiffies);
    case Del(x) => DelReal(s.base, x, s.jiffies);
    case TurnOfJiffy => TickReal(s.base);
    case RunFirst => RunReal(s.base, s.jiffies);
    case Idle => IdleReal(s.base, s.jiffies);
  }

  lemma {:induction false} RunNextReal(ss: seq<State>, evs: seq<Event>, k: nat)
    requires Run(ss, evs) && k < |ss|
    ensures NextReal(ss[k].base)
  {
    hide Good, Next, Enabled, Linked, NextReal;
    if k == 0 {
      InitReal(ss[0]);
    } else {
      RunNextReal(ss, evs, k - 1);
      RunGood(ss, evs, k - 1);
      assert Transition(ss[k - 1], evs[k - 1], ss[k]);
      StepReal(ss[k - 1], evs[k - 1]);
    }
  }

  lemma InitReal(s: State)
    requires Init(s)
    ensures NextReal(s.base)
  {
    NoneActive(s.base);
  }

  /**
   In every state of every run: if `next_timer` lies after the current jiffy and there is a timer that is
   not deferrable, one of these has that expiry and none has an earlier one.
   */
  lemma RunNextTimer(ss: seq<State>, evs: seq<Event>, k: nat)
    requires Run(ss, evs) && k < |ss|
    requires Active(ss[k].base) != {} && ss[k].base.nextTimer > ss[k].base.timerJiffies
    ensures exists t :: IsNext(ss[k].base, t)
    ensures forall t <- Active(ss[k].base) :: t in ss[k].base.expires && ss[k].base.nextTimer <= ss[k].base.expires[t]
  {
    hide Run;
    RunNextReal(ss, evs, k);
    RunGood(ss, evs, k);
    NextBound(ss[k].base);
  }

  lemma NextBound(b: Base)
    requires Inv(b) && b.nextTimer > b.timerJiffies
    ensures forall t <- Active(b) :: t in b.expires && b.nextTimer <= b.expires[t]
  {
    hide Linked, Timely, Active;
  }
}
