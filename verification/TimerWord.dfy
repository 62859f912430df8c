/**
 The word arithmetic of timer/timer_list.c.  Jiffies are 64-bit words that wrap; as long as two
 times lie less than half the word range apart, every comparison and every choice of a bucket
 made on words is the one that `TimerWheel` makes on unbounded jiffies.
 */
module TimerWord {
  import opened Helpers
  import opened TimerWheel

  const WORD: int := 0x1_0000_0000_0000_0000
  const HALF: int := 0x8000_0000_0000_0000

  type Word = w: nat | w < WORD

  function Wrap(t: int): Word { t % WORD }

  /** `(signed long)w < 0` */
  predicate Negative(w: Word) { w >= HALF }

  /** `time_after_eq(a, b)` */
  predicate TimeAfterEq(a: Word, b: Word) { !Negative(Wrap(a - b)) }

  /** `time_before(a, b)` */
  predicate TimeBefore(a: Word, b: Word) { Negative(Wrap(a - b)) }

  function WordLevelSlot(k: nat, t: Word): nat
    requires 1 <= k <= 4
  {
    TVR_SIZE + TVN_SIZE * (k - 1) + (t / Span(k)) % TVN_SIZE
  }

  /** The bucket choice of `__internal_add_timer` with its unsigned distance and signed test. */
  function WordSlot(expires: Word, now: Word): nat {
    var idx := Wrap(expires - now);
    if idx < TVR_SIZE then expires % TVR_SIZE
    else if idx < Span(2) then WordLevelSlot(1, expires)
    else if idx < Span(3) then WordLevelSlot(2, expires)
    else if idx < Span(4) then WordLevelSlot(3, expires)
    else if Negative(idx) then now % TVR_SIZE
    else WordLevelSlot(4, if idx > MAX_TVAL then Wrap(MAX_TVAL + now) else expires)
  }

  lemma WrapDifference(a: nat, b: nat)
    ensures Wrap(Wrap(a) - Wrap(b)) == Wrap(a - b)
  {
    var d := a / WORD - b / WORD;
    assert a - b == Wrap(a) - Wrap(b) + WORD * d;
  }

  lemma CompareWords(a: nat, b: nat)
    requires -HALF <= a - b < HALF
    ensures TimeAfterEq(Wrap(a), Wrap(b)) <==> a >= b
    ensures TimeBefore(Wrap(a), Wrap(b)) <==> a < b
  {
    WrapDifference(a, b);
  }

  lemma DivAdd(s: nat, n: nat, x: nat)
    requires s > 0
    ensures (s * n + x) / s == n + x / s
  {
    var y := s * n + x;
    var d := y / s - (n + x / s);
    assert s * d == x % s - y % s;
  }

  /** Adding a multiple of 64 whole blocks changes no bucket index. */
  lemma IndexAdd(s: nat, n: nat, x: nat)
    requires s > 0
    ensures ((s * (TVN_SIZE * n) + x) / s) % TVN_SIZE == (x / s) % TVN_SIZE
  {
    DivAdd(s, TVN_SIZE * n, x);
  }

  lemma LevelSlotWraps(k: nat, t: nat)
    requires 1 <= k <= 4
    ensures WordLevelSlot(k, Wrap(t)) == LevelSlot(k, t)
  {
    var q := t / WORD;
    var w := Wrap(t);
    assert t == WORD * q + w;
    if k == 1 {
      IndexAdd(0x100, 0x4_0000_0000_0000 * q, w);
    } else if k == 2 {
      IndexAdd(0x4000, 0x1000_0000_0000 * q, w);
    } else if k == 3 {
      IndexAdd(0x10_0000, 0x40_0000_0000 * q, w);
    } else {
      IndexAdd(0x400_0000, 0x1_0000_0000 * q, w);
    }
  }

  lemma WrapMod(t: nat)
    ensures Wrap(t) % TVR_SIZE == t % TVR_SIZE
  {
    var q := t / WORD;
    assert t == 0x100 * (0x100_0000_0000_0000 * q) + Wrap(t);
  }

  lemma WrapSum(a: nat, b: nat)
    ensures Wrap(a + Wrap(b)) == Wrap(a + b)
  {
    var q := b / WORD;
    assert a + b == a + Wrap(b) + WORD * q;
  }

  lemma WrapDistance(a: nat, b: nat)
    requires -HALF <= a - b < HALF
    ensures Wrap(Wrap(a) - Wrap(b)) == if a >= b then a - b else a - b + WORD
  {
    WrapDifference(a, b);
  }

  /** On words the wheel picks the bucket that it would pick on unbounded jiffies. */
  lemma SlotOnWords(expires: nat, now: nat)
    requires -HALF <= expires - now < HALF
    ensures WordSlot(Wrap(expires), Wrap(now)) == Slot(expires, now)
  {
    hide LevelSlot, WordLevelSlot, Wrap;
    WrapDistance(expires, now);
    WrapMod(expires);
    WrapMod(now);
    LevelSlotWraps(1, expires);
    LevelSlotWraps(2, expires);
    LevelSlotWraps(3, expires);
    LevelSlotWraps(4, expires);
    LevelSlotWraps(4, MAX_TVAL + now);
    WrapSum(MAX_TVAL, now);
  }
}
