/**
 Concurrent updates of pageblock flags (mm/buddy.c): any number of writers run the retry loop of
 `set_pfnblock_flags_mask`, interleaved at its atomic steps.
 */
module Pageblock {

  const WORD_BITS: nat := 64
  const NR_PAGEBLOCK_BITS: nat := 4
  const BLOCKS_PER_WORD: nat := 16

  // ------------------------------------------------------------------ layout

  /** `pfn_to_bitidx` */
  function PfnToBitIdx(pfn: nat, pagesPerSection: nat, blockPages: nat): nat
    requires pagesPerSection > 0 && blockPages > 0
  {
    ((pfn % pagesPerSection) / blockPages) * NR_PAGEBLOCK_BITS
  }

  function WordOf(bitidx: nat): nat { bitidx / WORD_BITS }

  /** The block of a word, counted from its most significant end. */
  function BlockOf(bitidx: nat): (b: nat)
    ensures b < BLOCKS_PER_WORD
  {
    (bitidx % WORD_BITS) / NR_PAGEBLOCK_BITS
  }

  /** Pages share a field exactly if they are in the same block of their section. */
  lemma SameField(pfn: nat, pfn': nat, pagesPerSection: nat, blockPages: nat)
    requires pagesPerSection > 0 && blockPages > 0
    ensures var i := PfnToBitIdx(pfn, pagesPerSection, blockPages);
            var i' := PfnToBitIdx(pfn', pagesPerSection, blockPages);
            WordOf(i) == WordOf(i') && BlockOf(i) == BlockOf(i') <==>
            (pfn % pagesPerSection) / blockPages == (pfn' % pagesPerSection) / blockPages
  {
    BitIdxSplit((pfn % pagesPerSection) / blockPages);
    BitIdxSplit((pfn' % pagesPerSection) / blockPages);
  }

  lemma BitIdxSplit(k: nat)
    ensures k == WordOf(k * NR_PAGEBLOCK_BITS) * BLOCKS_PER_WORD + BlockOf(k * NR_PAGEBLOCK_BITS)
  {
  }

  /** A word is the set of its bits that are 1; bit 0 is the least significant one. */
  type Word = set<nat>

  /** A mask of `width` ones, shifted left. */
  function Ones(width: nat, shift: nat): (m: Word)
    ensures forall i: nat :: i in m <==> shift <= i < shift + width
  {
    if width == 0 then {} else Ones(width - 1, shift) + {shift + width - 1}
  }

  /** The bits of a field of a block: the last of them is `end`, and there are `width`. */
  function Field(b: nat, end: nat, width: nat): Word
    requires b < BLOCKS_PER_WORD && 0 < width <= end + 1 <= NR_PAGEBLOCK_BITS
  {
    var bitidx := NR_PAGEBLOCK_BITS * b + end;
    Ones(width, WORD_BITS - bitidx - 1)
  }

  /** The bits of a field are within the four bits of its block, which is counted from the top. */
  lemma FieldBits(b: nat, end: nat, width: nat, i: nat)
    requires b < BLOCKS_PER_WORD && 0 < width <= end + 1 <= NR_PAGEBLOCK_BITS
    ensures i in Field(b, end, width) <==>
            i / NR_PAGEBLOCK_BITS == BLOCKS_PER_WORD - 1 - b && 3 <= i % NR_PAGEBLOCK_BITS + end < 3 + width
  {
    hide Ones;
  }

  /** Pages have the same migrate type, in the same word, exactly if they are in the same block of their section. */
  lemma SameMigrateType(pfn: nat, pfn': nat, pagesPerSection: nat, blockPages: nat)
    requires pagesPerSection > 0 && blockPages > 0
    ensures var i := PfnToBitIdx(pfn, pagesPerSection, blockPages);
            var i' := PfnToBitIdx(pfn', pagesPerSection, blockPages);
            WordOf(i) == WordOf(i') && Field(BlockOf(i), 2, 3) == Field(BlockOf(i'), 2, 3) <==>
            (pfn % pagesPerSection) / blockPages == (pfn' % pagesPerSection) / blockPages
  {
    hide WordOf, BlockOf, Field, PfnToBitIdx;
    SameField(pfn, pfn', pagesPerSection, blockPages);
    var b := BlockOf(PfnToBitIdx(pfn, pagesPerSection, blockPages));
    var b' := BlockOf(PfnToBitIdx(pfn', pagesPerSection, blockPages));
    var top := WORD_BITS - NR_PAGEBLOCK_BITS * b - 1;
    FieldBits(b, 2, 3, top);
    FieldBits(b', 2, 3, top);
  }

  /** The fields in use: the migrate type and the skip bit of every block. */
  predicate IsField(m: Word) {
    exists b :: 0 <= b < BLOCKS_PER_WORD && (m == Field(b, 2, 3) || m == Field(b, 3, 1))
  }

  /** Different fields of a word have no bit in common. */
  lemma FieldsDisjoint(m: Word, m': Word)
    requires IsField(m) && IsField(m') && m != m'
    ensures m !! m'
  {
    hide Ones;
    var b :| 0 <= b < BLOCKS_PER_WORD && (m == Field(b, 2, 3) || m == Field(b, 3, 1));
    var c :| 0 <= c < BLOCKS_PER_WORD && (m' == Field(c, 2, 3) || m' == Field(c, 3, 1));
  }

  /** The new value of the word: `(word & ~mask) | flags`. */
  function Updated(word: Word, mask: Word, flags: Word): Word {
    (word - mask) + flags
  }

  // ----------------------------------------------------------- interleavings

  /** What a writer has seen of its word, and how many writes had succeeded when it looked. */
  datatype Progress = NotRead | Seen(word: Word, at: nat) | Done

  /** A call of `set_pfnblock_flags_mask`. */
  datatype Writer = Writer(index: nat, mask: Word, flags: Word, progress: Progress)

  /** A successful compare-and-swap of a call. */
  datatype Write = Write(id: nat, index: nat, mask: Word, flags: Word)

  datatype State = State(bitmap: seq<Word>, writers: map<nat, Writer>, log: seq<Write>)

  datatype Event = Start(id: nat, index: nat, mask: Word, flags: Word) | Read(id: nat) | CompareAndSwap(id: nat)

  predicate Enabled(s: State, ev: Event) {
    match ev
    case Start(id, index, _, _) => id !in s.writers && index < |s.bitmap|
    case Read(id) => id in s.writers && s.writers[id].index < |s.bitmap| && s.writers[id].progress.NotRead?
    case CompareAndSwap(id) => id in s.writers && s.writers[id].index < |s.bitmap| && s.writers[id].progress.Seen?
  }

  /** The compare-and-swap of this writer finds the word unchanged. */
  predicate Succeeds(s: State, id: nat)
    requires Enabled(s, CompareAndSwap(id))
  {
    s.bitmap[s.writers[id].index] == s.writers[id].progress.word
  }

  function Next(s: State, ev: Event): State
    requires Enabled(s, ev)
  {
    match ev
    case Start(id, index, mask, flags) => s.(writers := s.writers[id := Writer(index, mask, flags, NotRead)])
    case Read(id) =>
      var w := s.writers[id];
      s.(writers := s.writers[id := w.(progress := Seen(s.bitmap[w.index], |s.log|))])
    case CompareAndSwap(id) =>
      var w := s.writers[id];
      if Succeeds(s, id) then
        State(s.bitmap[w.index := Updated(w.progress.word, w.mask, w.flags)],
              s.writers[id := w.(progress := Done)],
              s.log + [Write(id, w.index, w.mask, w.flags)])
      else
        s.(writers := s.writers[id := w.(progress := Seen(s.bitmap[w.index], |s.log|))])
  }

  /** A word after the writes so far, one after the other. */
  function Replay(log: seq<Write>, index: nat, first: Word): Word {
    if log == [] then first
    else
      var w := log[|log| - 1];
      var word := Replay(log[..|log| - 1], index, first);
      if w.index == index then Updated(word, w.mask, w.flags) else word
  }

  ghost predicate Good(first: seq<Word>, s: State) {
    && |s.bitmap| == |first|
    && (forall id <- s.writers :: WriterOk(s, s.writers[id]))
    && (forall i | 0 <= i < |first| :: s.bitmap[i] == Replay(s.log, i, first[i]))
  }

  /** A writer's word is as it saw it unless a write to that word has succeeded since. */
  predicate WriterOk(s: State, w: Writer) {
    && w.index < |s.bitmap|
    && (w.progress.Seen? ==>
          && w.progress.at <= |s.log|
          && ((forall k | w.progress.at <= k < |s.log| :: s.log[k].index != w.index) ==>
               s.bitmap[w.index] == w.progress.word))
  }

  lemma StepGood(first: seq<Word>, s: State, ev: Event)
    requires Good(first, s) && Enabled(s, ev)
    ensures Good(first, Next(s, ev))
  {
    var n := Next(s, ev);
    match ev
    case Start(_, _, _, _) =>
    case Read(_) =>
    case CompareAndSwap(id) =>
      if Succeeds(s, id) {
        SwapGood(first, s, id);
      }
  }

  lemma SwapGood(first: seq<Word>, s: State, id: nat)
    requires Good(first, s) && Enabled(s, CompareAndSwap(id)) && Succeeds(s, id)
    ensures Good(first, Next(s, CompareAndSwap(id)))
  {
    var w := s.writers[id];
    var n := Next(s, CompareAndSwap(id));
    assert n.log[..|s.log|] == s.log;
    forall j | j in n.writers ensures WriterOk(n, n.writers[j]) {
      assert WriterOk(s, s.writers[j]);
      var v := n.writers[j];
      if v.progress.Seen? && forall k | v.progress.at <= k < |n.log| :: n.log[k].index != v.index {
        assert n.log[|s.log|].index == w.index != v.index;
        assert forall k | v.progress.at <= k < |s.log| :: s.log[k] == n.log[k];
      }
    }
  }

  ghost predicate Run(ss: seq<State>, evs: seq<Event>) {
    && |ss| == |evs| + 1 && ss[0].writers == map[] && ss[0].log == []
    && forall k | 0 <= k < |evs| :: Transition(ss[k], evs[k], ss[k + 1])
  }

  ghost predicate Transition(s: State, ev: Event, s': State) {
    Enabled(s, ev) && s' == Next(s, ev)
  }

  /**
   In every interleaving of any calls, at every point, each word is what the successful writes make
   of it one after the other: every one of them counts, and nothing else does.
   */
  lemma {:induction false} WritesLinearize(ss: seq<State>, evs: seq<Event>, k: nat)
    requires Run(ss, evs) && k < |ss|
    ensures Good(ss[0].bitmap, ss[k])
  {
    if k > 0 {
      WritesLinearize(ss, evs, k - 1);
      assert Transition(ss[k - 1], evs[k - 1], ss[k]);
      StepGood(ss[0].bitmap, ss[k - 1], evs[k - 1]);
    }
  }

  // ------------------------------------------------------------------- calls

  /** The call has been started with these arguments. */
  predicate Started(evs: seq<Event>, k: nat, id: nat, w: Writer)
    requires k <= |evs|
  {
    exists m :: 0 <= m < k && evs[m] == Start(id, w.index, w.mask, w.flags)
  }

  /** The write is that of a finished call. */
  predicate OfCall(s: State, w: Write) {
    && w.id in s.writers && s.writers[w.id].progress.Done?
    && w == Write(w.id, s.writers[w.id].index, s.writers[w.id].mask, s.writers[w.id].flags)
  }

  predicate Written(log: seq<Write>, id: nat) {
    exists j :: 0 <= j < |log| && log[j].id == id
  }

  /** Writes and finished calls correspond one to one. */
  predicate Matched(s: State) {
    && (forall j | 0 <= j < |s.log| :: OfCall(s, s.log[j]))
    && (forall i, j | 0 <= i < j < |s.log| :: s.log[i].id != s.log[j].id)
    && (forall id <- s.writers | s.writers[id].progress.Done? :: Written(s.log, id))
  }

  lemma StepMatched(s: State, ev: Event)
    requires Matched(s) && Enabled(s, ev)
    ensures Matched(Next(s, ev))
  {
    var n := Next(s, ev);
    forall j | 0 <= j < |s.log| ensures OfCall(n, s.log[j]) {
      assert OfCall(s, s.log[j]);
    }
    forall id | id in n.writers && n.writers[id].progress.Done? ensures Written(n.log, id) {
      if |n.log| > |s.log| && id == n.log[|s.log|].id {
        assert n.log[|s.log|].id == id;
      } else {
        assert Written(s.log, id);
        var j :| 0 <= j < |s.log| && s.log[j].id == id;
        assert n.log[j].id == id;
      }
    }
  }

  /**
   In every run, at every point: the calls are those that have been started, with their arguments, and
   each finished call has written exactly once, with these arguments.  No other call has written.
   */
  lemma {:induction false} EachCallWritesOnce(ss: seq<State>, evs: seq<Event>, k: nat)
    requires Run(ss, evs) && k < |ss|
    ensures Matched(ss[k]) && forall id <- ss[k].writers :: Started(evs, k, id, ss[k].writers[id])
    ensures forall m | 0 <= m < k && evs[m].Start? :: evs[m].id in ss[k].writers
  {
    if k > 0 {
      EachCallWritesOnce(ss, evs, k - 1);
      var s, ev := ss[k - 1], evs[k - 1];
      assert Transition(s, ev, ss[k]);
      StepMatched(s, ev);
      forall id | id in ss[k].writers ensures Started(evs, k, id, ss[k].writers[id]) {
        if id in s.writers {
          assert Started(evs, k - 1, id, s.writers[id]);
        } else {
          assert evs[k - 1] == Start(id, ss[k].writers[id].index, ss[k].writers[id].mask, ss[k].writers[id].flags);
        }
      }
    }
  }

  /** Nothing but its own steps changes a writer. */
  lemma {:induction false} WriterWaits(ss: seq<State>, evs: seq<Event>, i: nat, j: nat, id: nat)
    requires Run(ss, evs) && i <= j < |ss| && id in ss[i].writers
    requires forall m | i <= m < j :: evs[m].id != id
    ensures id in ss[j].writers && ss[j].writers[id] == ss[i].writers[id]
    decreases j
  {
    if i < j {
      WriterWaits(ss, evs, i, j - 1, id);
      assert Transition(ss[j - 1], evs[j - 1], ss[j]);
    }
  }

  /**
   A call finishes as soon as it is left alone: if after its last look at the word, at step k, no write
   to that word comes before its next compare-and-swap, at step m, that one succeeds and the call is done.
   */
  lemma FinishesAlone(ss: seq<State>, evs: seq<Event>, k: nat, m: nat, id: nat)
    requires Run(ss, evs) && k < m < |evs| && evs[m] == CompareAndSwap(id)
    requires evs[k] == Read(id) || evs[k] == CompareAndSwap(id)
    requires forall j | k < j < m :: evs[j].id != id
    requires forall j | |ss[k + 1].log| <= j < |ss[m].log| && id in ss[m].writers ::
               ss[m].log[j].index != ss[m].writers[id].index
    ensures id in ss[m + 1].writers && ss[m + 1].writers[id].progress.Done?
  {
    hide Good;
    assert Transition(ss[k], evs[k], ss[k + 1]);
    assert Transition(ss[m], evs[m], ss[m + 1]);
    WriterWaits(ss, evs, k + 1, m, id);
    WritesLinearize(ss, evs, m);
    GoodWriter(ss[0].bitmap, ss[m], id);
    assert ss[m].writers[id].progress.at == |ss[k + 1].log|;
  }

  lemma GoodWriter(first: seq<Word>, s: State, id: nat)
    requires Good(first, s) && id in s.writers
    ensures WriterOk(s, s.writers[id])
  {
  }

  /** A compare-and-swap fails only if another call's write to the word has succeeded since it was read. */
  lemma FailureMeansProgress(ss: seq<State>, evs: seq<Event>, k: nat)
    requires Run(ss, evs) && k < |evs| && evs[k].CompareAndSwap? && Enabled(ss[k], evs[k])
             && !Succeeds(ss[k], evs[k].id)
    ensures var w := ss[k].writers[evs[k].id];
            exists j :: w.progress.at <= j < |ss[k].log| && ss[k].log[j].index == w.index
                        && ss[k].log[j].id != evs[k].id
  {
    WritesLinearize(ss, evs, k);
    var w := ss[k].writers[evs[k].id];
    assert WriterOk(ss[k], w);
    EachCallWritesOnce(ss, evs, k);
    var j :| w.progress.at <= j < |ss[k].log| && ss[k].log[j].index == w.index;
    assert OfCall(ss[k], ss[k].log[j]);
  }

  // ------------------------------------------------------------------ fields

  /** A write changes the bits of its own field only, and gives them the new value. */
  lemma OwnFieldOnly(word: Word, mask: Word, flags: Word, m: Word)
    requires IsField(mask) && IsField(m) && flags <= mask
    ensures Updated(word, mask, flags) * m == if m == mask then flags else word * m
  {
    if m != mask {
      FieldsDisjoint(mask, m);
    }
  }

  /** Exactly the flags that stay within the mask leave the rest of every word alone. */
  lemma FlagsWithinMask(mask: Word, flags: Word)
    ensures flags <= mask <==> forall word: Word :: Updated(word, mask, flags) - mask == word - mask
  {
    if forall word: Word :: Updated(word, mask, flags) - mask == word - mask {
      assert Updated({}, mask, flags) - mask == {} - mask;
    }
    forall word: Word | flags <= mask ensures Updated(word, mask, flags) - mask == word - mask {
    }
  }

  /**
   Flags beyond the mask reach into a neighbour: the value 8 for the three bits of block 1's migrate
   type sets the skip bit of block 0.
   */
  lemma NeighbourOverwritten()
    ensures Updated({}, Field(1, 2, 3), Ones(1, 60)) * Field(0, 3, 1) != {} * Field(0, 3, 1)
    ensures Ones(1, 60) * Field(1, 2, 3) == {}
  {
    assert 60 in Updated({}, Field(1, 2, 3), Ones(1, 60)) * Field(0, 3, 1);
  }

  /** The value of a field after the writes so far: that of the last one to it, or the first value. */
  function LastValue(log: seq<Write>, index: nat, mask: Word, first: Word): Word {
    if log == [] then first
    else
      var w := log[|log| - 1];
      if w.index == index && w.mask == mask then w.flags
      else LastValue(log[..|log| - 1], index, mask, first)
  }

  /** The write is for a field and within it. */
  predicate InField(w: Write) { IsField(w.mask) && w.flags <= w.mask }

  lemma {:induction false} FieldHoldsLast(log: seq<Write>, index: nat, m: Word, first: Word)
    requires IsField(m) && forall w <- log :: InField(w)
    ensures Replay(log, index, first) * m == LastValue(log, index, m, first * m)
    decreases |log|
  {
    hide IsField;
    if log != [] {
      var w := log[|log| - 1];
      var rest := log[..|log| - 1];
      assert w in log && InField(w);
      FieldHoldsLast(rest, index, m, first);
      if w.index == index {
        OwnFieldOnly(Replay(rest, index, first), w.mask, w.flags, m);
      }
    }
  }

  /**
   In every interleaving whose writes so far kept within their fields, each field of each word has
   the value that its last successful writer gave it; no update is lost to a writer of another field
   in the same word.
   */
  lemma NoUpdateLost(ss: seq<State>, evs: seq<Event>, k: nat, i: nat, m: Word)
    requires Run(ss, evs) && k < |ss| && i < |ss[k].bitmap| && IsField(m) && forall w <- ss[k].log :: InField(w)
    ensures |ss[0].bitmap| == |ss[k].bitmap|
    ensures ss[k].bitmap[i] * m == LastValue(ss[k].log, i, m, ss[0].bitmap[i] * m)
  {
    hide IsField, Run, WriterOk;
    WritesLinearize(ss, evs, k);
    FieldHoldsLast(ss[k].log, i, m, ss[0].bitmap[i]);
  }
}
