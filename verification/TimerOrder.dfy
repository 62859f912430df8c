/**
 The order in which timers with the same expiry are run.  It is settled when the later one is linked:
 if it goes into the bucket where the earlier one waits, the earlier one is run first; if it goes to
 a lower level, it overtakes the earlier one, which is cascaded behind it.  Timers beyond the reach of
 the wheel can also wait in different buckets of tv5: there the first to come within reach is run first.
 */
module TimerOrder {
  import opened TimerWheel
  import opened TimerRun
  import opened TimerFifo

  /** tv1 is level 0, tv5 is level 4, and the work list comes before them all. */
  function Level(slot: nat): int {
    if slot >= WORK then -1 else if slot < TVR_SIZE then 0 else (slot - TVR_SIZE) / TVN_SIZE + 1
  }

  /** On tv2 to tv4, a timer is in the bucket of its own expiry, which is within reach of the level. */
  predicate NearSlot(slot: nat, expires: nat, now: nat) {
    var k := Level(slot);
    1 <= k <= 3 ==> slot == LevelSlot(k, expires) && expires < now + Span(k + 1)
  }

  predicate Near(b: Base) {
    forall t <- b.entry :: t in b.expires && NearSlot(b.entry[t], b.expires[t], b.timerJiffies)
  }

  // ------------------------------------------------------------ every run is near

  lemma LevelIs(k: nat, t: nat)
    requires 1 <= k <= 4
    ensures Level(LevelSlot(k, t)) == k
  {
    hide Span;
  }

  /** Where a timer is linked: its distance decides the level. */
  lemma SlotLevel(expires: nat, now: nat)
    ensures var k := Level(Slot(expires, now));
            && 0 <= k <= 4 && NearSlot(Slot(expires, now), expires, now)
            && (k == 0 <==> expires < now + Span(1))
            && (k <= 1 <==> expires < now + Span(2)) && (k <= 2 <==> expires < now + Span(3))
            && (k <= 3 <==> expires < now + Span(4))
            && (1 <= k <= 3 ==> Slot(expires, now) == LevelSlot(k, expires))
  {
    hide LevelSlot;
    LevelIs(1, expires);
    LevelIs(2, expires);
    LevelIs(3, expires);
    LevelIs(4, if expires - now > MAX_TVAL then MAX_TVAL + now else expires);
  }

  lemma LinkNear(b: Base, timer: Timer)
    requires |b.vec| == WORK + 1 && timer in b.expires && Near(b)
    ensures Near(Link(b, timer))
  {
    hide Slot, NearSlot;
    SlotLevel(b.expires[timer], b.timerJiffies);
  }

  lemma {:induction false} LinkAllNear(b: Base, timers: seq<Timer>)
    requires |b.vec| == WORK + 1 && (forall t <- timers :: t in b.expires) && Near(b)
    ensures Near(LinkAll(b, timers))
    decreases |timers|
  {
    hide Slot, NearSlot, Near;
    if timers != [] {
      LinkNear(b, timers[0]);
      LinkAllNear(Link(b, timers[0]), timers[1..]);
    }
  }

  /** Fewer timers, or later: what was near stays near. */
  lemma NearLess(b: Base, c: Base)
    requires Near(b) && c.entry.Keys <= b.entry.Keys
    requires forall t <- c.entry :: c.entry[t] == b.entry[t] || c.entry[t] == WORK
    requires forall t <- c.entry :: t in b.expires && t in c.expires && c.expires[t] == b.expires[t]
    requires b.timerJiffies <= c.timerJiffies || c.entry.Keys == {}
    ensures Near(c)
  {
    hide LevelSlot;
  }

  lemma CascadeNear(b: Base, k: nat)
    requires Linked(b) && 1 <= k <= 4 && Near(b)
    ensures Near(Cascade(b, k))
  {
    hide Linked, NearSlot, Near, LinkAll;
    LinkedBounds(b);
    var slot := LevelSlot(k, b.timerJiffies);
    CutListed(b, slot);
    NearSame(b);
    NearLess(b, Cut(b, slot));
    LinkAllNear(Cut(b, slot), b.vec[slot]);
  }

  lemma NearSame(b: Base)
    requires Near(b)
    ensures b.entry.Keys <= b.expires.Keys
  {
  }

  lemma {:induction false} CascadeFromNear(b: Base, k: nat)
    requires Linked(b) && 1 <= k <= 4 && Near(b)
    ensures Near(CascadeFrom(b, k))
    decreases 4 - k
  {
    hide Linked, Near, Cascade;
    CascadeNear(b, k);
    CascadeLinked(b, k);
    if k < 4 && Index(k, b.timerJiffies) == 0 {
      CascadeFromNear(Cascade(b, k), k + 1);
    }
  }

  lemma TickNear(b: Base)
    requires Linked(b) && Near(b)
    ensures Near(Tick(b))
  {
    hide Linked, NearSlot, Near, CascadeFrom;
    LinkedBounds(b);
    var c := if b.timerJiffies % TVR_SIZE == 0 then CascadeFrom(b, 1) else b;
    if b.timerJiffies % TVR_SIZE == 0 {
      CascadeFromNear(b, 1);
    }
    NearSame(c);
    NearLess(c, Tick(b));
  }

  /** Without timers or with the clock as it was. */
  lemma CatchUpKeeps(b: Base, jiffies: nat)
    requires Counted(b)
    ensures b.timerJiffies == CatchUp(b, jiffies).timerJiffies || b.entry.Keys == {}
  {
  }

  lemma DetachKeeps(b: Base, x: Timer, jiffies: nat)
    requires Inv(b)
    ensures var c := DetachIfPending(b, x, jiffies); c.timerJiffies == b.timerJiffies || c.entry.Keys == {}
  {
    hide Linked, Timely, NextOk, Remove, Active;
    LinkedBounds(b);
    DetachInv(b, x, jiffies);
  }

  lemma DetachNear(b: Base, x: Timer, jiffies: nat)
    requires Inv(b) && Near(b)
    ensures Near(DetachIfPending(b, x, jiffies))
  {
    hide Inv, NearSlot, Near, DetachIfPending;
    InvLinked(b);
    DetachInv(b, x, jiffies);
    DetachKeeps(b, x, jiffies);
    NearSame(b);
    NearLess(b, DetachIfPending(b, x, jiffies));
  }

  lemma InvLinked(b: Base)
    requires Inv(b)
    ensures Linked(b) && Counted(b) && |b.vec| == WORK + 1 && b.entry.Keys <= b.expires.Keys && Timely(b, 0)
  {
    LinkedBounds(b);
  }

  lemma AddNear(b: Base, x: Timer, jiffies: nat)
    requires Inv(b) && Near(b) && x in b.expires
    ensures Near(InternalAdd(b, x, jiffies))
  {
    hide Inv, NearSlot, Near, Link;
    InvLinked(b);
    var c := CatchUp(b, jiffies);
    CatchUpKeeps(b, jiffies);
    NearSame(b);
    NearLess(b, c);
    LinkNear(c, x);
    NearSame(Link(c, x));
    NearLess(Link(c, x), InternalAdd(b, x, jiffies));
  }

  lemma ModNear(b: Base, x: Timer, e: nat, jiffies: nat)
    requires Inv(b) && Near(b)
    ensures Near(ModTimer(b, x, e, jiffies))
  {
    hide Inv, NearSlot, Near, DetachIfPending, InternalAdd;
    InvLinked(b);
    DetachInv(b, x, jiffies);
    DetachNear(b, x, jiffies);
    var c := DetachIfPending(b, x, jiffies);
    SetExpiry(c, x, e);
    NearSame(c);
    NearLess(c, c.(expires := c.expires[x := e]));
    AddNear(c.(expires := c.expires[x := e]), x, jiffies);
  }

  lemma ExpireNear(b: Base, jiffies: nat)
    requires Inv(b) && Near(b) && b.vec[WORK] != []
    ensures Near(Expire(b, jiffies))
  {
    hide Linked, Timely, NextOk, Active, Remove, Near, NearSlot;
    LinkedBounds(b);
    ExpireInv(b, jiffies);
    NearSame(b);
    NearLess(b, Expire(b, jiffies));
  }

  lemma StepNear(s: State, ev: Event)
    requires Good(s) && Enabled(s, ev) && Near(s.base)
    ensures Near(Next(s, ev).base)
  {
    hide Inv, Near, ModTimer, DetachIfPending, Tick, Expire;
    InvLinked(s.base);
    match ev
    case Advance(_) =>
    case Mod(x, e) => ModNear(s.base, x, e, s.jiffies);
    case Del(x) => DetachNear(s.base, x, s.jiffies);
    case TurnOfJiffy => TickNear(s.base);
    case RunFirst => ExpireNear(s.base, s.jiffies);
    case Idle => IdleNear(s.base, s.jiffies);
  }

  lemma IdleNear(b: Base, jiffies: nat)
    requires Inv(b) && Near(b)
    ensures Near(CatchUp(b, jiffies))
  {
    hide Inv, Near, NearSlot;
    InvLinked(b);
    CatchUpKeeps(b, jiffies);
    NearSame(b);
    NearLess(b, CatchUp(b, jiffies));
  }

  /** In every state of every run, the timers on tv2 to tv4 are in the buckets of their own expiry. */
  lemma {:induction false} RunNear(ss: seq<State>, evs: seq<Event>, k: nat)
    requires Run(ss, evs) && k < |ss|
    ensures Near(ss[k].base)
  {
    hide Good, Next, Enabled, Linked, Near;
    if k == 0 {
      InitNear(ss[0]);
    } else {
      RunNear(ss, evs, k - 1);
      RunGood(ss, evs, k - 1);
      assert Transition(ss[k - 1], evs[k - 1], ss[k]);
      StepNear(ss[k - 1], evs[k - 1]);
    }
  }

  lemma InitNear(s: State)
    requires Init(s)
    ensures Near(s.base)
  {
  }

  // ------------------------------------------------------- cascades and order

  /** t is on a lower level than u, and they have the same expiry. */
  predicate Lower(b: Base, t: Timer, u: Timer) {
    t in b.entry && u in b.entry && SameExpiry(b, t, u) && Level(b.entry[t]) < Level(b.entry[u])
  }

  /**
   A timer beyond the reach of tv5 is linked 63 blocks ahead again and again.  This is 1 more than
   the block at which it is linked for its own expiry, in block `last`, and 0 if it has been.
   */
  function Landing(block: nat, last: nat): nat
    decreases last - block
  {
    if block >= last then 0
    else if last < block + TVN_SIZE then block + 1
    else Landing(block + TVN_SIZE - 1, last)
  }

  /** Of two buckets of tv5, which are emptied at blocks p and q: does the timer from p arrive first? */
  predicate LandsFirst(p: nat, q: nat, last: nat) {
    Landing(p, last) < Landing(q, last) || (Landing(p, last) == Landing(q, last) && p > q)
  }

  /** Both timers are on tv5, whose next block is lo, in different buckets, and t will arrive first. */
  predicate Far(b: Base, t: Timer, u: Timer, lo: nat) {
    && t in b.entry && u in b.entry && SameExpiry(b, t, u)
    && Level(b.entry[t]) == 4 == Level(b.entry[u]) && b.entry[t] != b.entry[u]
    && LandsFirst(BlockOf(b.entry[t], lo), BlockOf(b.entry[u], lo), b.expires[t] / Span(4))
  }

  /** t and u have the same expiry and wait in different buckets, and t will be the first to be run. */
  predicate Apart(b: Base, t: Timer, u: Timer) {
    Lower(b, t, u) || Far(b, t, u, FirstBlock(4, b.timerJiffies))
  }

  /** t is to be run before u, where lo is the next block of tv5. */
  predicate Before(b: Base, t: Timer, u: Timer, lo: nat) {
    Queued(b, t, u) || Lower(b, t, u) || Far(b, t, u, lo)
  }

  /** t is to be run before u. */
  predicate Precedes(b: Base, t: Timer, u: Timer) {
    Before(b, t, u, FirstBlock(4, b.timerJiffies))
  }

  lemma SpanDown(m: nat, k: nat, now: nat)
    requires 1 <= m <= k <= 4 && now % Span(k) == 0
    ensures now % Span(m) == 0
    decreases k - m
  {
    hide Span;
    if m < k {
      SpanDivides(k - 1, now);
      SpanDown(m, k - 1, now);
    }
  }

  /** A timer on a level that is cascaded already is not within one block of the current jiffy. */
  lemma BehindBlock(m: nat, expires: nat, now: nat, k: nat)
    requires 1 <= m < k <= 4 && now % Span(m) == 0 && Placed(LevelSlot(m, expires), expires, now, k - 1)
    ensures expires >= now + Span(m)
  {
    hide Span, BlockOf;
    LevelIs(m, expires);
    FirstBlockStep(m, now);
    NextBlock(m, expires, now, BlockOf(LevelSlot(m, expires), now / Span(m) + 1));
  }

  lemma NextBlock(m: nat, expires: nat, now: nat, block: nat)
    requires 1 <= m <= 4 && now % Span(m) == 0 && now / Span(m) + 1 <= block && block * Span(m) <= expires
    ensures expires >= now + Span(m)
  {
  }

  /**
   When a bucket of level k is emptied, a timer is re-inserted into exactly the bucket where a timer
   with the same expiry waits on a lower level.
   */
  lemma Meets(slot: nat, expires: nat, now: nat, k: nat)
    requires slot < WORK && 1 <= k <= 4 && now % Span(k) == 0 && Level(slot) < k
    requires NearSlot(slot, expires, now) && Placed(slot, expires, now, k - 1)
    ensures Slot(expires, now) == slot
  {
    var m := Level(slot);
    if m == 0 {
      MeetsFirst(slot, expires, now, k);
    } else {
      SpanDown(m, k, now);
      BehindBlock(m, expires, now, k);
      hide Slot, LevelSlot, Placed;
      SlotLevel(expires, now);
    }
  }

  lemma MeetsFirst(slot: nat, expires: nat, now: nat, k: nat)
    requires slot < TVR_SIZE && 1 <= k && Placed(slot, expires, now, k - 1)
    ensures Slot(expires, now) == slot
  {
  }

  /** A timer of tv2 to tv4 whose bucket is emptied goes to a lower level. */
  lemma GoesDown(expires: nat, now: nat, k: nat)
    requires 1 <= k <= 3 && now % Span(k) == 0
    requires NearSlot(LevelSlot(k, now), expires, now) && Placed(LevelSlot(k, now), expires, now, k - 1)
    ensures Level(Slot(expires, now)) < k
  {
    hide Slot, Span, BlockOf, Level;
    LevelIs(k, now);
    FirstBlockStep(k, now);
    OwnBlock(k, expires, now);
    SlotLevel(expires, now);
  }

  lemma OwnBlock(k: nat, expires: nat, now: nat)
    requires 1 <= k <= 3 && now % Span(k) == 0 && LevelSlot(k, now) == LevelSlot(k, expires)
    requires BlockOf(LevelSlot(k, now), now / Span(k)) * Span(k) <= expires < now + Span(k + 1)
    ensures expires < now + Span(k)
  {
    BlockUnique(LevelSlot(k, now), now / Span(k), now / Span(k));
    assert now <= expires;
    assert (expires / Span(k)) % TVN_SIZE == (now / Span(k)) % TVN_SIZE;
    SameBlock(k, expires, now);
  }

  lemma SameBlock(k: nat, expires: nat, now: nat)
    requires 1 <= k <= 3 && now % Span(k) == 0 && now <= expires < now + Span(k + 1)
    requires (expires / Span(k)) % TVN_SIZE == (now / Span(k)) % TVN_SIZE
    ensures expires < now + Span(k)
  {
  }

  lemma {:induction false} LinkAllPlaces(b: Base, timers: seq<Timer>, x: Timer)
    requires |b.vec| == WORK + 1 && (forall t <- timers :: t in b.expires) && x in timers
    ensures var c := LinkAll(b, timers); |c.vec| == WORK + 1 && x in c.vec[Slot(b.expires[x], b.timerJiffies)]
    decreases |timers|
  {
    hide Slot;
    var s := Slot(b.expires[x], b.timerJiffies);
    var c := Link(b, timers[0]);
    LinkAllExtends(c, timers[1..], s);
    if timers[0] == x {
      InExtends(c.vec[s], LinkAll(c, timers[1..]).vec[s], x);
    } else {
      LinkAllPlaces(c, timers[1..], x);
    }
  }

  /** A timer of the bucket that is cascaded is linked again, and any other stays where it is. */
  lemma CascadeEntry(b: Base, k: nat, x: Timer)
    requires Linked(b) && 1 <= k <= 4 && x in b.entry && b.entry[x] < WORK
    ensures var c := Cascade(b, k);
            && x in c.entry && x in b.expires
            && c.entry[x] == if b.entry[x] == LevelSlot(k, b.timerJiffies)
                             then Slot(b.expires[x], b.timerJiffies) else b.entry[x]
  {
    hide Slot, Linked, LevelSlot;
    LinkedBounds(b);
    var slot := LevelSlot(k, b.timerJiffies);
    var c := Cascade(b, k);
    CutListed(b, slot);
    CascadeLinked(b, k);
    EntryListed(b, x);
    if b.entry[x] == slot {
      LinkAllPlaces(Cut(b, slot), b.vec[slot], x);
      ListedEntry(c, Slot(b.expires[x], b.timerJiffies), x);
    } else {
      LinkAllExtends(Cut(b, slot), b.vec[slot], b.entry[x]);
      InExtends(b.vec[b.entry[x]], c.vec[b.entry[x]], x);
      ListedEntry(c, b.entry[x], x);
    }
  }

  lemma EntryListed(b: Base, x: Timer)
    requires Linked(b) && x in b.entry
    ensures b.entry[x] <= WORK && x in b.vec[b.entry[x]]
  {
  }

  lemma ListedEntry(b: Base, i: nat, x: Timer)
    requires Linked(b) && i <= WORK && x in b.vec[i]
    ensures x in b.entry && b.entry[x] == i
  {
  }

  /** A timer that is re-inserted where one with the same expiry waits goes behind it. */
  lemma CascadeBehind(b: Base, k: nat, t: Timer, u: Timer)
    requires Linked(b) && 1 <= k <= 4 && t in b.entry && u in b.entry && SameExpiry(b, t, u)
    requires b.entry[u] == LevelSlot(k, b.timerJiffies) != b.entry[t] == Slot(b.expires[t], b.timerJiffies)
    ensures Queued(Cascade(b, k), t, u)
  {
    hide Slot, Linked, LevelSlot, Ahead;
    LinkedBounds(b);
    var slot := LevelSlot(k, b.timerJiffies);
    CutListed(b, slot);
    CascadeLinked(b, k);
    LinkedBounds(Cascade(b, k));
    EntryListed(b, t);
    EntryListed(b, u);
    LinkAllBehind(Cut(b, slot), b.vec[slot], t, u);
    BothLinked(Cascade(b, k), b.entry[t], t, u);
  }

  lemma SitsPlaced(b: Base, m: nat, x: Timer)
    requires Timely(b, m) && Near(b) && x in b.entry && b.entry[x] < WORK
    ensures x in b.expires && Placed(b.entry[x], b.expires[x], b.timerJiffies, m)
    ensures NearSlot(b.entry[x], b.expires[x], b.timerJiffies)
  {
    hide Placed, NearSlot;
  }

  lemma CascadeLower(b: Base, k: nat, t: Timer, u: Timer)
    requires Linked(b) && 1 <= k <= 4 && Timely(b, k - 1) && Near(b) && b.timerJiffies % Span(k) == 0
    requires Lower(b, t, u) && b.entry[t] < WORK
    ensures Queued(Cascade(b, k), t, u) || Lower(Cascade(b, k), t, u)
  {
    hide Linked, Timely, Near, Slot, Placed, NearSlot, LevelSlot, Queued, Span, Cascade;
    LinkedBounds(b);
    var slot := LevelSlot(k, b.timerJiffies);
    LevelIs(k, b.timerJiffies);
    SitsPlaced(b, k - 1, t);
    SitsPlaced(b, k - 1, u);
    CascadeLinked(b, k);
    if b.entry[u] == slot {
      Meets(b.entry[t], b.expires[t], b.timerJiffies, k);
      CascadeBehind(b, k, t, u);
    } else {
      CascadeEntry(b, k, t);
      CascadeEntry(b, k, u);
      if b.entry[t] == slot {
        LevelBound(b.entry[u]);
        GoesDown(b.expires[t], b.timerJiffies, k);
      }
    }
  }

  lemma LevelBound(slot: nat)
    ensures Level(slot) <= 4
  {
  }

  // -------------------------------------------------------------- within tv5

  /** Two timers of tv5 arrive together only if one bucket is where the other one's timers are put next. */
  lemma {:induction false} LandingApart(p: nat, q: nat, last: nat)
    requires p < q < p + TVN_SIZE - 1 && q <= last
    ensures Landing(p, last) != Landing(q, last)
    decreases last - p
  {
    LandingLater(p, last);
    LandingLater(q, last);
    if last >= p + TVN_SIZE {
      LandingLater(p + TVN_SIZE - 1, last);
      if last >= q + TVN_SIZE {
        LandingApart(p + TVN_SIZE - 1, q + TVN_SIZE - 1, last);
      }
    }
  }

  lemma {:induction false} LandingLater(p: nat, last: nat)
    ensures if p >= last then Landing(p, last) == 0 else Landing(p, last) > p
    decreases last - p
  {
    if last >= p + TVN_SIZE {
      LandingLater(p + TVN_SIZE - 1, last);
    }
  }

  /** The block to which a timer goes from tv5 when its bucket is emptied at block lo. */
  function NextStop(lo: nat, last: nat): nat {
    if last < lo + TVN_SIZE then last else lo + TVN_SIZE - 1
  }

  /** When the bucket of the one that arrives first is emptied, the other one is not met. */
  lemma FirstMoves(lo: nat, q: nat, last: nat)
    requires lo < q < lo + TVN_SIZE && q <= last && LandsFirst(lo, q, last)
    ensures NextStop(lo, last) != q && LandsFirst(NextStop(lo, last), q, last)
  {
    LandingLater(q, last);
  }

  /** When the bucket of the other one is emptied, that one stays behind or is put behind. */
  lemma SecondMoves(p: nat, lo: nat, last: nat)
    requires lo < p < lo + TVN_SIZE && p <= last && LandsFirst(p, lo, last)
    ensures p == NextStop(lo, last) || LandsFirst(p, NextStop(lo, last), last)
  {
    LandingLater(p, last);
    if last >= lo + TVN_SIZE && p != lo + TVN_SIZE - 1 {
      LandingApart(p, lo + TVN_SIZE - 1, last);
    }
  }

  /** A timer that stays on tv5 is linked into the bucket of its next stop. */
  lemma StopSlot(expires: nat, now: nat)
    requires now % Span(4) == 0 && expires >= now + Span(4)
    ensures var stop := NextStop(now / Span(4), expires / Span(4));
            && now / Span(4) < stop < now / Span(4) + TVN_SIZE
            && Level(Slot(expires, now)) == 4 && Slot(expires, now) % TVN_SIZE == stop % TVN_SIZE
  {
    var e := if expires - now > MAX_TVAL then MAX_TVAL + now else expires;
    assert e / Span(4) == NextStop(now / Span(4), expires / Span(4));
    LevelOfSlot(4, e);
    hide LevelSlot;
  }

  /** The buckets of tv5 and the blocks at which they are emptied. */
  lemma SlotBlock(s: nat, s': nat, lo: nat)
    requires Level(s) == 4 == Level(s')
    ensures s == s' <==> s % TVN_SIZE == s' % TVN_SIZE
    ensures s == s' <==> BlockOf(s, lo) == BlockOf(s', lo)
  {
    hide BlockOf;
  }

  lemma BlockMoves(s: nat, lo: nat)
    requires BlockOf(s, lo) != lo
    ensures BlockOf(s, lo + 1) == BlockOf(s, lo)
  {
    hide BlockOf;
    BlockUnique(s, lo + 1, BlockOf(s, lo));
  }

  /** A timer on tv5 is linked again before its expiry. */
  lemma BlockBound(slot: nat, expires: nat, now: nat)
    requires slot < WORK && Level(slot) == 4 && now % Span(4) == 0 && Placed(slot, expires, now, 3)
    ensures BlockOf(slot, now / Span(4)) <= expires / Span(4) && FirstBlock(4, now) == now / Span(4)
  {
    hide BlockOf;
  }

  /** What the cascade of tv5 does to two timers in different buckets of it. */
  lemma CascadeFar(b: Base, t: Timer, u: Timer)
    requires Linked(b) && Timely(b, 3) && Near(b) && b.timerJiffies % Span(4) == 0
    requires Far(b, t, u, b.timerJiffies / Span(4))
    ensures Before(Cascade(b, 4), t, u, b.timerJiffies / Span(4) + 1)
  {
    hide Linked, Timely, Near, Slot, Placed, NearSlot, LevelSlot, Queued, Cascade, BlockOf, LandsFirst, Level;
    var now, e := b.timerJiffies, b.expires[t];
    var lo, last := now / Span(4), e / Span(4);
    var p, q := BlockOf(b.entry[t], lo), BlockOf(b.entry[u], lo);
    TopLevel(b.entry[t]);
    TopLevel(b.entry[u]);
    SitsPlaced(b, 3, t);
    SitsPlaced(b, 3, u);
    BlockBound(b.entry[t], e, now);
    BlockBound(b.entry[u], e, now);
    SlotBlock(b.entry[t], b.entry[u], lo);
    CascadeLinked(b, 4);
    CascadeEntry(b, 4, t);
    CascadeEntry(b, 4, u);
    CurrentSlot(b.entry[t], now);
    CurrentSlot(b.entry[u], now);
    if p == lo {
      LaterBlock(e, now);
      StopSlot(e, now);
      FirstMoves(lo, q, last);
      FarMoved(Slot(e, now), b.entry[u], lo, last);
    } else if q == lo {
      LaterBlock(e, now);
      StopSlot(e, now);
      SecondMoves(p, lo, last);
      FarMoved(Slot(e, now), b.entry[t], lo, last);
      if p == NextStop(lo, last) {
        CascadeBehind(b, 4, t, u);
      }
    } else {
      BlockMoves(b.entry[t], lo);
      BlockMoves(b.entry[u], lo);
    }
  }

  /** One of the two buckets after the cascade: the other one's block is the same as before. */
  lemma FarMoved(s: nat, other: nat, lo: nat, last: nat)
    requires Level(s) == 4 == Level(other) && BlockOf(other, lo) != lo
    requires lo < NextStop(lo, last) < lo + TVN_SIZE && s % TVN_SIZE == NextStop(lo, last) % TVN_SIZE
    ensures BlockOf(s, lo + 1) == NextStop(lo, last) && BlockOf(other, lo + 1) == BlockOf(other, lo)
    ensures s == other <==> BlockOf(other, lo) == NextStop(lo, last)
  {
    hide BlockOf, NextStop;
    BlockUnique(s, lo + 1, NextStop(lo, last));
    BlockMoves(other, lo);
    SlotBlock(s, other, lo + 1);
  }

  lemma TopLevel(slot: nat)
    requires Level(slot) == 4
    ensures slot < WORK
  {
  }

  /** The bucket that is emptied now is the one that stands for the current block. */
  lemma CurrentSlot(slot: nat, now: nat)
    requires Level(slot) == 4
    ensures slot == LevelSlot(4, now) <==> BlockOf(slot, now / Span(4)) == now / Span(4)
  {
    hide BlockOf;
    LevelOfSlot(4, now);
    LevelIs(4, now);
    SlotBlock(slot, LevelSlot(4, now), now / Span(4));
    BlockUnique(LevelSlot(4, now), now / Span(4), now / Span(4));
  }

  lemma LaterBlock(expires: nat, now: nat)
    requires now % Span(4) == 0 && now / Span(4) < expires / Span(4)
    ensures expires >= now + Span(4)
  {
  }

  predicate InWheel(b: Base, x: Timer) {
    x in b.entry && b.entry[x] < WORK
  }

  lemma CascadePrecedes(b: Base, k: nat, t: Timer, u: Timer)
    requires Linked(b) && 1 <= k <= 4 && Timely(b, k - 1) && Near(b) && b.timerJiffies % Span(k) == 0
    requires Precedes(b, t, u) && InWheel(b, t) && InWheel(b, u)
    ensures var lo := FirstBlock(4, b.timerJiffies);
            Before(Cascade(b, k), t, u, if k == 4 then lo + 1 else lo)
    ensures InWheel(Cascade(b, k), t) && InWheel(Cascade(b, k), u)
  {
    hide Linked, Timely, Near, Slot, LevelSlot, Span, Cascade, Queued, Lower, Far, FirstBlock;
    LinkedBounds(b);
    CascadeEntry(b, k, t);
    CascadeEntry(b, k, u);
    if Queued(b, t, u) {
      CascadeFifo(b, k, t, u);
    } else if Lower(b, t, u) {
      CascadeLower(b, k, t, u);
    } else if k == 4 {
      FirstBlockStep(4, b.timerJiffies);
      CascadeFar(b, t, u);
    } else {
      CascadeBelow(b, k, t, u);
    }
  }

  lemma CascadeBelow(b: Base, k: nat, t: Timer, u: Timer)
    requires Linked(b) && 1 <= k < 4 && Far(b, t, u, FirstBlock(4, b.timerJiffies))
    requires b.entry[t] < WORK && b.entry[u] < WORK
    ensures Far(Cascade(b, k), t, u, FirstBlock(4, b.timerJiffies))
  {
    hide Linked, Slot, LevelSlot, Span, Cascade, BlockOf, FirstBlock, LandsFirst, Level;
    LevelIs(k, b.timerJiffies);
    CascadeEntry(b, k, t);
    CascadeEntry(b, k, u);
    CascadeLinked(b, k);
  }

  lemma {:induction false} CascadeFromPrecedes(b: Base, k: nat, t: Timer, u: Timer)
    requires Linked(b) && 1 <= k <= 4 && Timely(b, k - 1) && Near(b) && b.timerJiffies % Span(k) == 0
    requires Precedes(b, t, u) && InWheel(b, t) && InWheel(b, u)
    ensures Before(CascadeFrom(b, k), t, u, FirstBlock(4, b.timerJiffies + 1))
    decreases 4 - k
  {
    hide Linked, Timely, Near, Span, Cascade, Before, FirstBlock, InWheel;
    CascadePrecedes(b, k, t, u);
    CascadeLinked(b, k);
    FirstBlockStep(4, b.timerJiffies);
    if k < 4 {
      SpanDivides(k, b.timerJiffies);
      if Index(k, b.timerJiffies) == 0 {
        CascadeTimely(b, k);
        CascadeNear(b, k);
        CascadeFromPrecedes(Cascade(b, k), k + 1, t, u);
      } else {
        NotTop(k + 1, b.timerJiffies);
      }
    }
  }

  lemma NotTop(k: nat, now: nat)
    requires 1 <= k <= 4 && now % Span(k) != 0
    ensures now % Span(4) != 0
  {
    if now % Span(4) == 0 {
      SpanDown(k, 4, now);
    }
  }

  lemma PrecedesIn(b: Base, t: Timer, u: Timer)
    requires Precedes(b, t, u)
    ensures t in b.entry && u in b.entry
  {
  }

  lemma NoWork(b: Base, x: Timer)
    requires Linked(b) && b.vec[WORK] == [] && x in b.entry
    ensures b.entry[x] < WORK
  {
  }

  lemma TickPrecedes(b: Base, t: Timer, u: Timer)
    requires Inv(b) && Near(b) && b.vec[WORK] == [] && Precedes(b, t, u)
    ensures Precedes(Tick(b), t, u)
  {
    hide Inv, Near, CascadeFrom, Before, Tick, FirstBlock;
    InvLinked(b);
    PrecedesIn(b, t, u);
    NoWork(b, t);
    NoWork(b, u);
    var c := if b.timerJiffies % TVR_SIZE == 0 then CascadeFrom(b, 1) else b;
    if b.timerJiffies % TVR_SIZE == 0 {
      CascadeFromPrecedes(b, 1, t, u);
      CascadeFromNoWork(b, 1);
    } else {
      FirstBlockStep(4, b.timerJiffies);
      NotTop(1, b.timerJiffies);
    }
    TakePrecedes(b, c, t, u);
  }

  lemma TakePrecedes(b: Base, c: Base, t: Timer, u: Timer)
    requires Linked(b) && Linked(c) && c == (if b.timerJiffies % TVR_SIZE == 0 then CascadeFrom(b, 1) else b)
    requires Before(c, t, u, FirstBlock(4, b.timerJiffies + 1)) && c.vec[WORK] == []
    ensures Precedes(Tick(b), t, u)
  {
    hide Linked, CascadeFrom, FirstBlock, Tick, Queued, Lower, Far;
    TickTakes(b, c);
    if Queued(c, t, u) {
      TakeQueued(c, Tick(b), t, u);
    } else {
      TakeApart(c, Tick(b), t, u);
    }
  }

  /** After the cascades, the current bucket of tv1 becomes the work list. */
  ghost predicate Takes(c: Base, d: Base)
    requires |c.vec| == WORK + 1
  {
    var i := c.timerJiffies % TVR_SIZE;
    && d.timerJiffies == c.timerJiffies + 1 && d.expires == c.expires && |d.vec| == WORK + 1
    && (forall j | 0 <= j <= WORK :: d.vec[j] == if j == i then [] else if j == WORK then c.vec[i] else c.vec[j])
    && d.entry.Keys == c.entry.Keys
    && (forall x <- c.entry :: d.entry[x] == if c.entry[x] == i then WORK else c.entry[x])
  }

  lemma TickTakes(b: Base, c: Base)
    requires Linked(b) && Linked(c) && c == (if b.timerJiffies % TVR_SIZE == 0 then CascadeFrom(b, 1) else b)
    ensures |c.vec| == WORK + 1 && c.timerJiffies == b.timerJiffies && Takes(c, Tick(b))
  {
    hide Linked, CascadeFrom;
    LinkedBounds(c);
  }

  lemma TakeQueued(c: Base, d: Base, t: Timer, u: Timer)
    requires Linked(c) && |c.vec| == WORK + 1 && c.vec[WORK] == [] && Takes(c, d) && Queued(c, t, u)
    ensures Queued(d, t, u)
  {
    hide Linked, Ahead;
    NoWork(c, t);
  }

  lemma TakeApart(c: Base, d: Base, t: Timer, u: Timer)
    requires Linked(c) && |c.vec| == WORK + 1 && c.vec[WORK] == [] && Takes(c, d)
    requires Lower(c, t, u) || Far(c, t, u, FirstBlock(4, c.timerJiffies + 1))
    ensures Apart(d, t, u)
  {
    hide Linked, FirstBlock, BlockOf, LandsFirst;
    NoWork(c, t);
  }

  // -------------------------------------------------------------------- steps

  lemma ApartKept(b: Base, c: Base, t: Timer, u: Timer)
    requires Apart(b, t, u) && t in c.entry && u in c.entry && c.entry[t] == b.entry[t] && c.entry[u] == b.entry[u]
    requires t in c.expires && u in c.expires && c.expires[t] == b.expires[t] && c.expires[u] == b.expires[u]
    requires c.timerJiffies == b.timerJiffies
    ensures Apart(c, t, u)
  {
    hide LandsFirst, BlockOf, FirstBlock;
  }

  lemma DelApart(b: Base, x: Timer, jiffies: nat, t: Timer, u: Timer)
    requires Inv(b) && Apart(b, t, u) && x != t && x != u
    ensures Apart(DetachIfPending(b, x, jiffies), t, u)
  {
    hide Inv, DetachIfPending, Apart;
    InvLinked(b);
    ApartIn(b, t, u);
    DetachInv(b, x, jiffies);
    DetachKeeps(b, x, jiffies);
    assert t in DetachIfPending(b, x, jiffies).entry.Keys;
    ApartKept(b, DetachIfPending(b, x, jiffies), t, u);
  }

  lemma AddApart(b: Base, x: Timer, jiffies: nat, t: Timer, u: Timer)
    requires Inv(b) && Apart(b, t, u) && x in b.expires && x !in b.entry
    ensures Apart(InternalAdd(b, x, jiffies), t, u)
  {
    hide Inv, InternalAdd, Apart;
    InvLinked(b);
    ApartIn(b, t, u);
    InternalAddInv(b, x, jiffies);
    AddKeeps(b, x, t, jiffies);
    ApartKept(b, InternalAdd(b, x, jiffies), t, u);
  }

  lemma AddKeeps(b: Base, x: Timer, t: Timer, jiffies: nat)
    requires Inv(b) && x in b.expires && t in b.entry && |b.vec| == WORK + 1
    ensures InternalAdd(b, x, jiffies).timerJiffies == b.timerJiffies
  {
    hide Linked, Timely, NextOk, Slot;
    CatchUpSame(b, t, jiffies);
  }

  lemma ModApart(b: Base, x: Timer, e: nat, jiffies: nat, t: Timer, u: Timer)
    requires Inv(b) && Apart(b, t, u) && x != t && x != u
    ensures Apart(ModTimer(b, x, e, jiffies), t, u)
  {
    hide Inv, DetachIfPending, InternalAdd, Apart;
    InvLinked(b);
    DetachInv(b, x, jiffies);
    DelApart(b, x, jiffies, t, u);
    var c := DetachIfPending(b, x, jiffies);
    InvLinked(c);
    ApartIn(c, t, u);
    SetExpiry(c, x, e);
    var d := c.(expires := c.expires[x := e]);
    ApartKept(c, d, t, u);
    AddApart(d, x, jiffies, t, u);
  }

  lemma ApartIn(b: Base, t: Timer, u: Timer)
    requires Apart(b, t, u)
    ensures t in b.entry && u in b.entry && t in b.expires && u in b.expires && b.entry[u] != WORK
    ensures b.entry[t] != b.entry[u]
  {
    hide LandsFirst, BlockOf, FirstBlock;
  }

  lemma ExpireKeeps(b: Base, jiffies: nat)
    requires Inv(b) && b.vec[WORK] != []
    ensures var c := Expire(b, jiffies); c.timerJiffies == b.timerJiffies || c.entry.Keys == {}
  {
    hide Linked, Timely, NextOk, Remove, Active;
    LinkedBounds(b);
    ExpireInv(b, jiffies);
  }

  lemma RunApart(b: Base, jiffies: nat, t: Timer, u: Timer)
    requires Inv(b) && b.vec[WORK] != [] && Apart(b, t, u)
    ensures var c := Expire(b, jiffies); if b.vec[WORK][0] == t then t !in c.entry && u in c.entry else Apart(c, t, u)
  {
    hide Inv, Expire, Apart;
    InvLinked(b);
    LinkedBounds(b);
    ApartIn(b, t, u);
    ExpireInv(b, jiffies);
    ExpireKeeps(b, jiffies);
    assert u in Expire(b, jiffies).entry.Keys;
    if b.vec[WORK][0] != t {
      ApartKept(b, Expire(b, jiffies), t, u);
    }
  }

  /** One step: t is still to be run before u, or has just been run with u still pending. */
  lemma StepPrecedes(s: State, ev: Event, t: Timer, u: Timer)
    requires Good(s) && Near(s.base) && Enabled(s, ev) && !Touches(ev, t) && !Touches(ev, u) && Precedes(s.base, t, u)
    ensures var c := Next(s, ev).base; Precedes(c, t, u) || (t !in c.entry && u in c.entry)
  {
    hide Inv, Near, Queued, Lower, Far, ModTimer, DetachIfPending, Tick, Expire;
    InvLinked(s.base);
    if ev.TurnOfJiffy? {
      TickPrecedes(s.base, t, u);
    } else if Queued(s.base, t, u) {
      StepFifo(s, ev, t, u);
      StepPending(s, ev, t, u);
    } else {
      StepApart(s, ev, t, u);
    }
  }

  lemma StepApart(s: State, ev: Event, t: Timer, u: Timer)
    requires Good(s) && Enabled(s, ev) && !ev.TurnOfJiffy? && !Touches(ev, t) && !Touches(ev, u) && Apart(s.base, t, u)
    ensures var c := Next(s, ev).base; Apart(c, t, u) || (t !in c.entry && u in c.entry)
  {
    hide Inv, ModTimer, DetachIfPending, Expire, Apart;
    InvLinked(s.base);
    ApartIn(s.base, t, u);
    match ev
    case Advance(_) =>
    case Mod(x, e) => ModApart(s.base, x, e, s.jiffies, t, u);
    case Del(x) => DelApart(s.base, x, s.jiffies, t, u);
    case RunFirst => RunApart(s.base, s.jiffies, t, u);
    case Idle => CatchUpSame(s.base, t, s.jiffies);
  }

  /** No step but the one that runs it takes an untouched timer off its list, and it takes only one. */
  lemma StepPending(s: State, ev: Event, t: Timer, u: Timer)
    requires Good(s) && Enabled(s, ev) && !ev.TurnOfJiffy? && !Touches(ev, t) && !Touches(ev, u) && Queued(s.base, t, u)
    ensures var c := Next(s, ev).base; t !in c.entry ==> u in c.entry
  {
    hide Inv, ModTimer, DetachIfPending, Expire, Queued;
    InvLinked(s.base);
    QueuedTwo(s.base, t, u);
    match ev
    case Advance(_) =>
    case Mod(x, e) => ModTimerInv(s.base, x, e, s.jiffies);
    case Del(x) => DetachInv(s.base, x, s.jiffies);
    case RunFirst => ExpireInv(s.base, s.jiffies);
    case Idle =>
  }

  lemma QueuedTwo(b: Base, t: Timer, u: Timer)
    requires Linked(b) && Queued(b, t, u)
    ensures t != u && t in b.entry && u in b.entry
  {
  }

  // --------------------------------------------------------------------- runs

  /** Between i and j, t has gone while u was still pending. */
  ghost predicate LeavesFirst(ss: seq<State>, i: nat, j: nat, t: Timer, u: Timer)
    requires i <= j < |ss|
  {
    exists k :: i < k <= j && t !in ss[k].base.entry && forall m | i <= m <= k :: u in ss[m].base.entry
  }

  /**
   In every run, of two timers that nobody touches, the one that is to be run first stays so until it
   has been run, and until then the other one is pending.
   */
  lemma {:induction false} OrderKept(ss: seq<State>, evs: seq<Event>, i: nat, j: nat, t: Timer, u: Timer)
    requires Run(ss, evs) && i <= j <= |evs| && Precedes(ss[i].base, t, u)
    requires forall k | i <= k < j :: !Touches(evs[k], t) && !Touches(evs[k], u)
    ensures || (Precedes(ss[j].base, t, u) && forall m | i <= m <= j :: u in ss[m].base.entry)
            || LeavesFirst(ss, i, j, t, u)
    decreases j
  {
    hide Good, Next, Enabled, Precedes, Linked, Near;
    PrecedesIn(ss[i].base, t, u);
    if i < j {
      OrderKept(ss, evs, i, j - 1, t, u);
      if Precedes(ss[j - 1].base, t, u) && forall m | i <= m <= j - 1 :: u in ss[m].base.entry {
        RunGood(ss, evs, j - 1);
        RunNear(ss, evs, j - 1);
        assert Transition(ss[j - 1], evs[j - 1], ss[j]);
        StepPrecedes(ss[j - 1], evs[j - 1], t, u);
        if Precedes(ss[j].base, t, u) {
          PrecedesIn(ss[j].base, t, u);
        }
      }
    }
  }

  // ---------------------------------------------------- what linking decides

  /** An expiry that is linked now goes to the bucket where it waits below tv5, or to a lower level. */
  lemma SameBucketOrLower(slot: nat, expires: nat, now: nat)
    requires slot < WORK && Level(slot) <= 3 && NearSlot(slot, expires, now) && Placed(slot, expires, now, 0)
    ensures Slot(expires, now) == slot || Level(Slot(expires, now)) < Level(slot)
  {
    if Level(slot) == 0 {
      MeetsFirst(slot, expires, now, 1);
    } else {
      hide Slot, LevelSlot, Placed;
      SlotLevel(expires, now);
    }
  }

  /**
   Will t, which is pending, stay ahead of a timer that is linked with its expiry now?  It will if it
   is on the work list or in the bucket of the new timer, or if they go into different buckets of tv5
   and it will arrive first from there.
   */
  predicate Keeps(b: Base, t: Timer)
    requires t in b.entry && t in b.expires
  {
    var slot, lo := Slot(b.expires[t], b.timerJiffies), FirstBlock(4, b.timerJiffies);
    || b.entry[t] == WORK
    || b.entry[t] == slot
    || (Level(b.entry[t]) == 4 == Level(slot) &&
        LandsFirst(BlockOf(b.entry[t], lo), BlockOf(slot, lo), b.expires[t] / Span(4)))
  }

  /** Within the reach of the wheel, only the bucket matters. */
  lemma KeepsWithinReach(b: Base, t: Timer)
    requires Inv(b) && t in b.entry && t in b.expires && b.expires[t] <= b.timerJiffies + MAX_TVAL
    ensures Keeps(b, t) <==> b.entry[t] == WORK || b.entry[t] == Slot(b.expires[t], b.timerJiffies)
  {
    hide Inv, BlockOf, FirstBlock;
    var slot, lo := Slot(b.expires[t], b.timerJiffies), FirstBlock(4, b.timerJiffies);
    if b.entry[t] != WORK && Level(b.entry[t]) == 4 == Level(slot) && b.entry[t] != slot {
      OwnStop(b.expires[t], b.timerJiffies);
      SlotBlock(b.entry[t], slot, lo);
      InvLinked(b);
      LinkedBounds(b);
      EntryListed(b, t);
      TopBound(b, t);
      LandingLater(BlockOf(b.entry[t], lo), b.expires[t] / Span(4));
    }
  }

  /** On tv5 within its reach, a timer is linked into the bucket of its own block. */
  lemma OwnStop(expires: nat, now: nat)
    requires expires <= now + MAX_TVAL && Level(Slot(expires, now)) == 4
    ensures BlockOf(Slot(expires, now), FirstBlock(4, now)) == expires / Span(4)
  {
    hide Slot, LevelSlot, BlockOf, FirstBlock, Level;
    SlotLevel(expires, now);
    ReachSlot(expires, now);
    LevelOfSlot(4, expires);
    FirstBlockStep(4, now);
    BlockRange(4, expires, now);
    BlockUnique(LevelSlot(4, expires), FirstBlock(4, now), expires / Span(4));
  }

  lemma ReachSlot(expires: nat, now: nat)
    requires now + Span(4) <= expires <= now + MAX_TVAL
    ensures Slot(expires, now) == LevelSlot(4, expires)
  {
  }

  lemma TopBound(b: Base, t: Timer)
    requires Timely(b, 0) && t in b.entry && t in b.expires && b.entry[t] < WORK && Level(b.entry[t]) == 4
    ensures BlockOf(b.entry[t], FirstBlock(4, b.timerJiffies)) <= b.expires[t] / Span(4)
  {
    hide BlockOf, FirstBlock;
    assert Placed(b.entry[t], b.expires[t], b.timerJiffies, 0);
  }

  lemma LinkDecides(b: Base, t: Timer, u: Timer)
    requires Inv(b) && Near(b) && t in b.entry && u !in b.entry && u in b.expires && SameExpiry(b, t, u)
    ensures if Keeps(b, t) then Precedes(Link(b, u), t, u) else Precedes(Link(b, u), u, t)
  {
    hide Inv, Near, Slot, Placed, NearSlot, Ahead, BlockOf, FirstBlock, Landing;
    InvLinked(b);
    LinkedBounds(b);
    EntryListed(b, t);
    var s := Slot(b.expires[u], b.timerJiffies);
    LevelOfWheel(s);
    if b.entry[t] == s {
      LinkedLast(b, u, t);
    } else if Level(b.entry[t]) == 4 {
      LevelBound(s);
      SlotBlock(b.entry[t], if Level(s) == 4 then s else b.entry[t], FirstBlock(4, b.timerJiffies));
    } else if b.entry[t] != WORK {
      LevelBound(b.entry[t]);
      SitsPlaced(b, 0, t);
      SameBucketOrLower(b.entry[t], b.expires[t], b.timerJiffies);
    }
  }

  lemma LevelOfWheel(slot: nat)
    requires slot < WORK
    ensures Level(slot) >= 0 && Level(WORK) == -1
  {
  }

  lemma AccountPrecedes(b: Base, x: Timer, t: Timer, u: Timer)
    requires x in b.expires && Precedes(b, t, u)
    ensures Precedes(Account(b, x), t, u)
  {
    hide Ahead, BlockOf, FirstBlock, LandsFirst;
  }

  lemma AddDecides(b: Base, t: Timer, u: Timer, jiffies: nat)
    requires Inv(b) && Near(b) && t in b.entry && u !in b.entry && u in b.expires && SameExpiry(b, t, u)
    ensures var c := InternalAdd(b, u, jiffies); if Keeps(b, t) then Precedes(c, t, u) else Precedes(c, u, t)
  {
    hide Inv, Near, Precedes, Keeps, Link;
    InvLinked(b);
    CatchUpSame(b, t, jiffies);
    LinkDecides(b, t, u);
    LinkExpires(b, u);
    if Keeps(b, t) {
      AccountPrecedes(Link(b, u), u, t, u);
    } else {
      AccountPrecedes(Link(b, u), u, u, t);
    }
  }

  lemma LinkExpires(b: Base, u: Timer)
    requires |b.vec| == WORK + 1 && u in b.expires
    ensures Link(b, u).expires == b.expires
  {
  }

  lemma CatchUpSame(b: Base, t: Timer, jiffies: nat)
    requires Counted(b) && t in b.entry
    ensures CatchUp(b, jiffies) == b
  {
    assert t in b.entry.Keys;
  }

  /** `mod_timer` of u to the expiry of a pending timer t. */
  lemma ModDecides(b: Base, t: Timer, u: Timer, e: nat, jiffies: nat)
    requires Inv(b) && Near(b) && t in b.entry && t in b.expires && b.expires[t] == e && t != u
    requires !(u in b.entry && b.expires[u] == e)
    ensures var c := ModTimer(b, u, e, jiffies); if Keeps(b, t) then Precedes(c, t, u) else Precedes(c, u, t)
  {
    hide Inv, Near, Precedes, Slot, DetachIfPending, InternalAdd;
    InvLinked(b);
    DetachInv(b, u, jiffies);
    DetachNear(b, u, jiffies);
    DetachKeeps(b, u, jiffies);
    var c := DetachIfPending(b, u, jiffies);
    assert t in c.entry.Keys;
    InvLinked(c);
    SetExpiry(c, u, e);
    var d := c.(expires := c.expires[u := e]);
    NearLess(c, d);
    AddDecides(d, t, u, jiffies);
  }

  /** Setting a pending timer to the expiry that it has loses it no place: whoever was first stays so. */
  lemma RearmKeepsPlace(s: State, t: Timer, u: Timer, v: Timer)
    requires Good(s) && t in s.base.entry && t in s.base.expires
    ensures Linked(s.base) && Enabled(s, Mod(t, s.base.expires[t]))
    ensures Precedes(Next(s, Mod(t, s.base.expires[t])).base, u, v) <==> Precedes(s.base, u, v)
    ensures Next(s, Mod(t, s.base.expires[t])).base.vec == s.base.vec
  {
    hide Precedes, DetachIfPending, InternalAdd, Linked, Timely, Counted, NextOk;
  }

  lemma OnlyOneFirst(ss: seq<State>, i: nat, j: nat, t: Timer, u: Timer)
    requires i <= j < |ss| && LeavesFirst(ss, i, j, t, u)
    ensures !LeavesFirst(ss, i, j, u, t)
  {
    var k :| i < k <= j && t !in ss[k].base.entry && forall m | i <= m <= k :: u in ss[m].base.entry;
    forall k' | i < k' <= j && u !in ss[k'].base.entry ensures exists m :: i <= m <= k' && t !in ss[m].base.entry {
      assert k < k';
    }
  }

  /**
   The exact condition for first in, first out.  Step i of a run sets timer u to the expiry of a
   pending timer t; nobody touches either until step j, and by then one of them has been run.  Then t
   was run first if and only if `Keeps` held before step i: within the reach of the wheel, if t was on
   the work list or in the bucket that its expiry selects at that moment.
   */
  lemma FirstInFirstOutIff(ss: seq<State>, evs: seq<Event>, i: nat, j: nat, t: Timer, u: Timer, e: nat)
    requires Run(ss, evs) && i < j <= |evs| && evs[i] == Mod(u, e) && t != u
    requires var b := ss[i].base;
             && t in b.entry && t in b.expires && b.expires[t] == e
             && !(u in b.entry && u in b.expires && b.expires[u] == e)
    requires forall k | i < k < j :: !Touches(evs[k], t) && !Touches(evs[k], u)
    requires t !in ss[j].base.entry || u !in ss[j].base.entry
    ensures LeavesFirst(ss, i + 1, j, t, u) <==> Keeps(ss[i].base, t)
  {
    hide Good, Near, Precedes, Keeps, LeavesFirst, ModTimer, Linked;
    RunGood(ss, evs, i);
    RunNear(ss, evs, i);
    assert Transition(ss[i], evs[i], ss[i + 1]);
    GoodInv(ss[i]);
    InvLinked(ss[i].base);
    ModDecides(ss[i].base, t, u, e, ss[i].jiffies);
    if Keeps(ss[i].base, t) {
      FirstLeaves(ss, evs, i + 1, j, t, u);
    } else {
      FirstLeaves(ss, evs, i + 1, j, u, t);
      OnlyOneFirst(ss, i + 1, j, u, t);
    }
  }

  lemma GoodInv(s: State)
    requires Good(s)
    ensures Inv(s.base)
  {
  }

  lemma FirstLeaves(ss: seq<State>, evs: seq<Event>, i: nat, j: nat, t: Timer, u: Timer)
    requires Run(ss, evs) && i <= j <= |evs| && Precedes(ss[i].base, t, u)
    requires forall k | i <= k < j :: !Touches(evs[k], t) && !Touches(evs[k], u)
    requires t !in ss[j].base.entry || u !in ss[j].base.entry
    ensures LeavesFirst(ss, i, j, t, u)
  {
    hide Precedes, LeavesFirst, Run;
    RunLength(ss, evs);
    OrderKept(ss, evs, i, j, t, u);
    if Precedes(ss[j].base, t, u) {
      PrecedesIn(ss[j].base, t, u);
    }
  }

  /**
   On tv5 two timers with the same expiry can wait in different buckets: beyond the reach of the
   wheel, the bucket depends on the jiffy at which the timer was linked.  A timer linked at jiffy 0
   stays ahead of one that is linked at the next block for one expiry, and for another one is
   overtaken by one that is linked just before it.
   */
  lemma ClampedApart()
    ensures var e := MAX_TVAL + 2 * Span(4);
            && Level(Slot(e, 0)) == 4 == Level(Slot(e, Span(4))) && Slot(e, 0) != Slot(e, Span(4))
            && LandsFirst(BlockOf(Slot(e, 0), 1), BlockOf(Slot(e, Span(4)), 1), e / Span(4))
    ensures var e := MAX_TVAL + Span(4);
            && Level(Slot(e, 0)) == 4 == Level(Slot(e, Span(4) - 1)) && Slot(e, 0) != Slot(e, Span(4) - 1)
            && LandsFirst(BlockOf(Slot(e, Span(4) - 1), 1), BlockOf(Slot(e, 0), 1), e / Span(4))
  {
  }

  // ------------------------------------------------------------- an overtaking

  /** A timer whose bucket is not emptied by the turn stays where it is. */
  lemma {:induction false} CascadeFromStays(b: Base, k: nat, x: Timer)
    requires Linked(b) && 1 <= k <= 4 && x in b.entry && b.entry[x] < WORK
    requires forall m | k <= m <= 4 :: b.entry[x] != LevelSlot(m, b.timerJiffies)
    ensures CascadeFrom(b, k).entry[x] == b.entry[x]
    decreases 4 - k
  {
    hide Linked, Cascade, LevelSlot, Slot;
    CascadeEntry(b, k, x);
    CascadeLinked(b, k);
    if k < 4 && Index(k, b.timerJiffies) == 0 {
      CascadeFromStays(Cascade(b, k), k + 1, x);
    }
  }

  lemma TickStays(b: Base, x: Timer)
    requires Inv(b) && b.vec[WORK] == [] && x in b.entry && b.entry[x] != b.timerJiffies % TVR_SIZE
    requires forall m | 1 <= m <= 4 :: b.entry[x] != LevelSlot(m, b.timerJiffies)
    ensures x in Tick(b).entry && Tick(b).entry[x] == b.entry[x] && Tick(b).timerJiffies == b.timerJiffies + 1
    ensures Tick(b).expires == b.expires && Tick(b).entry.Keys == b.entry.Keys
  {
    hide Inv, CascadeFrom, LevelSlot, Slot, Linked, Timely, Span;
    InvLinked(b);
    NoWork(b, x);
    if b.timerJiffies % TVR_SIZE == 0 {
      CascadeFromStays(b, 1, x);
    }
  }

  /**
   The run in which first in, first out fails: timer 1 is set for jiffy 256 at jiffy 0, and timer 2 one
   jiffy later.  Timer 1 waits on tv2 and timer 2 on tv1, so timer 2 is to be run first, and by
   `OrderKept` it is, however the run goes on.
   */
  lemma Overtaking() returns (ss: seq<State>, evs: seq<Event>)
    ensures evs == [Mod(1, 256), TurnOfJiffy, Mod(2, 256)] && Run(ss, evs)
    ensures 1 in ss[1].base.entry && 2 !in ss[1].base.entry
    ensures Precedes(ss[3].base, 2, 1)
  {
    hide Good, Next, Init, Precedes, Near, Linked, Enabled, Slot, LevelSlot;
    var s0 := StartAt(0);
    var s1 := FirstSet(s0);
    var s2 := JiffyPassed(s1);
    OvertakesAt(s2);
    var s3 := Next(s2, Mod(2, 256));
    ss, evs := [s0, s1, s2, s3], [Mod(1, 256), TurnOfJiffy, Mod(2, 256)];
    assert Transition(s0, evs[0], s1);
    assert Transition(s1, evs[1], s2);
    assert Transition(s2, evs[2], s3);
  }

  lemma StartAt(jiffies: nat) returns (s: State)
    ensures Init(s) && s.jiffies == jiffies && s.base.expires == map[] && s.base.deferrable == {}
  {
    s := State(Base(jiffies, jiffies, 0, 0, seq(WORK + 1, _ => []), map[], map[], {}), jiffies);
  }

  lemma FirstSet(s: State) returns (r: State)
    requires Init(s) && s.jiffies == 0 && s.base.expires == map[]
    ensures Linked(s.base) && Enabled(s, Mod(1, 256)) && r == Next(s, Mod(1, 256)) && Good(r) && Near(r.base)
    ensures r.base.timerJiffies == 0 == r.jiffies && r.base.entry == map[1 := LevelSlot(1, 256)]
    ensures r.base.expires == map[1 := 256]
  {
    InitGood(s);
    StepRefines(s, Mod(1, 256));
    r := Next(s, Mod(1, 256));
  }

  lemma TvTwoStays()
    ensures TVR_SIZE <= LevelSlot(1, 256) < WORK && forall m | 1 <= m <= 4 :: LevelSlot(1, 256) != LevelSlot(m, 0)
  {
  }

  lemma JiffyPassed(s: State) returns (r: State)
    requires Good(s) && Near(s.base) && s.base.timerJiffies == 0 == s.jiffies
    requires s.base.entry == map[1 := LevelSlot(1, 256)] && s.base.expires == map[1 := 256]
    ensures Linked(s.base) && Enabled(s, TurnOfJiffy) && r == Next(s, TurnOfJiffy) && Good(r) && Near(r.base)
    ensures r.base.timerJiffies == 1 && r.base.entry == map[1 := LevelSlot(1, 256)] && r.base.expires == map[1 := 256]
  {
    hide Tick, LevelSlot, Inv, Near, Linked, Timely, Span;
    InvLinked(s.base);
    TvTwoStays();
    EmptyWork(s.base);
    assert Enabled(s, TurnOfJiffy);
    StepRefines(s, TurnOfJiffy);
    StepNear(s, TurnOfJiffy);
    TickStays(s.base, 1);
    r := Next(s, TurnOfJiffy);
    assert r.base.entry.Keys == {1};
  }

  lemma EmptyWork(b: Base)
    requires Linked(b) && forall t <- b.entry :: b.entry[t] < WORK
    ensures b.vec[WORK] == []
  {
    if b.vec[WORK] != [] {
      LinkedBounds(b);
    }
  }

  lemma OvertakesAt(s: State)
    requires Good(s) && Near(s.base) && s.base.timerJiffies == 1
    requires s.base.entry == map[1 := LevelSlot(1, 256)] && s.base.expires == map[1 := 256]
    ensures Linked(s.base) && Enabled(s, Mod(2, 256)) && Precedes(Next(s, Mod(2, 256)).base, 2, 1)
  {
    hide Inv, Near, Precedes, ModTimer;
    InvLinked(s.base);
    ModDecides(s.base, 1, 2, 256, s.jiffies);
  }
}
