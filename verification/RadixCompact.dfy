/**
 Path compression of the page map (`phys_page_compact`, qemu/mem.c): an entry whose node has a
 single child is made to skip that node.  Every page whose walk ended at a leaf still reaches it.
 */
module RadixCompact {
  import opened RadixMap

  const SKIP_LIMIT: nat := 8

  /** The walk in a map without skips ends at a leaf, rather than at an empty entry. */
  predicate LeafWalk(nodes: seq<Node>, e: Entry, h: nat, page: nat)
    decreases h
  {
    if e.skip == 0 then true
    else
      && e.skip == 1 <= h && e.ptr != NIL && e.ptr < |nodes| && |nodes[e.ptr]| == L2_SIZE
      && LeafWalk(nodes, nodes[e.ptr][Digit(page, h - 1)], h - 1, page)
  }

  /** A consistent entry of a map that may be compacted: the node it leads to lies below it. */
  ghost predicate EntryC(tags: seq<Label>, e: Entry, h: nat, B: nat) {
    if e.skip == 0 then e.ptr != NIL
    else
      && e.skip < SKIP_LIMIT && e.skip <= h
      && (e.ptr == NIL ==> e.skip == 1)
      && (e.ptr != NIL ==> e.ptr < |tags| && tags[e.ptr].level == h - e.skip && Covers(tags[e.ptr], B, h))
  }

  /** All pages of the node are pages below an entry of height h that starts at B. */
  predicate Covers(at: Label, B: nat, h: nat) {
    at.level < h && B <= at.base && at.base + Pages(at.level + 1) <= B + Pages(h)
  }

  ghost predicate NodeC(tags: seq<Label>, node: Node, at: Label) {
    && |node| == L2_SIZE && Starts(at.base, at.level + 1)
    && forall d | 0 <= d < L2_SIZE :: EntryC(tags, node[d], at.level, Child(at.base, at.level, d))
  }

  ghost predicate MapC(nodes: seq<Node>, tags: seq<Label>) {
    && |tags| == |nodes| <= NIL
    && forall n | 0 <= n < |nodes| :: NodeC(tags, nodes[n], tags[n])
  }

  /** The nodes below an entry have not been compacted yet. */
  ghost predicate Plain(nodes: seq<Node>, tags: seq<Label>, B: nat, h: nat) {
    |nodes| == |tags| && forall n | 0 <= n < |nodes| && Below(tags[n], B, h) :: NodeOk(tags, nodes[n], tags[n])
  }

  lemma EntryOkC(tags: seq<Label>, e: Entry, h: nat, B: nat)
    requires EntryOk(tags, e, h, B)
    ensures EntryC(tags, e, h, B)
  {
    hide Pages;
  }

  /** A map that has not been compacted is consistent. */
  lemma MapOkC(nodes: seq<Node>, tags: seq<Label>)
    requires MapOk(nodes, tags)
    ensures MapC(nodes, tags) && forall B, h :: Plain(nodes, tags, B, h)
  {
    hide Pages, EntryOk, EntryC, Child, Starts;
    forall n | 0 <= n < |nodes| ensures NodeC(tags, nodes[n], tags[n]) {
      assert NodeOk(tags, nodes[n], tags[n]);
      forall d | 0 <= d < L2_SIZE
        ensures EntryC(tags, nodes[n][d], tags[n].level, Child(tags[n].base, tags[n].level, d))
      {
        EntryOkC(tags, nodes[n][d], tags[n].level, Child(tags[n].base, tags[n].level, d));
      }
    }
  }

  lemma NodeCEntry(nodes: seq<Node>, tags: seq<Label>, n: nat, d: nat)
    requires MapC(nodes, tags) && n < |nodes| && d < L2_SIZE
    ensures |nodes| == |tags| && |nodes[n]| == L2_SIZE && Starts(tags[n].base, tags[n].level + 1)
    ensures EntryC(tags, nodes[n][d], tags[n].level, Child(tags[n].base, tags[n].level, d))
  {
    assert NodeC(tags, nodes[n], tags[n]);
  }

  /** A walk in a compacted map depends only on the nodes below the entry it starts from. */
  lemma {:induction false} FindLocalC(nodes: seq<Node>, nodes': seq<Node>, tags: seq<Label>, e: Entry, h: nat,
                                      B: nat, page: nat)
    requires MapC(nodes, tags) && EntryC(tags, e, h, B) && |nodes'| == |nodes|
    requires forall n | 0 <= n < |nodes| && Below(tags[n], B, h) :: nodes'[n] == nodes[n]
    ensures Find(nodes', e, h, page) == Find(nodes, e, h, page)
    decreases h
  {
    hide MapC, Pages, Digit, Starts, Child;
    if e.skip != 0 && e.ptr != NIL {
      MapCSizes(nodes, tags);
      var n := e.ptr;
      var l := tags[n].level;
      var d := Digit(page, l);
      assert Below(tags[n], B, h);
      NodeCEntry(nodes, tags, n, d);
      ChildStarts(tags[n].base, l, d);
      var b := Child(tags[n].base, l, d);
      forall m | 0 <= m < |nodes| && Below(tags[m], b, l) ensures nodes'[m] == nodes[m] {
        assert Below(tags[m], B, h);
      }
      FindLocalC(nodes, nodes', tags, nodes[n][d], l, b, page);
    }
  }

  lemma MapCSizes(nodes: seq<Node>, tags: seq<Label>)
    requires MapC(nodes, tags)
    ensures |nodes| == |tags| <= NIL
  {
  }

  /** Every page below the entry whose walk ended at a leaf still ends at that leaf. */
  ghost predicate KeptLeaves(nodes: seq<Node>, e: Entry, nodes': seq<Node>, e': Entry, h: nat, B: nat) {
    forall p: nat | Within(p, B, h) && LeafWalk(nodes, e, h, p) :: Find(nodes', e', h, p) == Find(nodes, e, h, p)
  }

  /** The section is the unassigned one, or one that a page below the entry leads to. */
  ghost predicate LedTo(nodes: seq<Node>, e: Entry, h: nat, B: nat, section: nat) {
    section == UNASSIGNED || exists q: nat :: Within(q, B, h) && Find(nodes, e, h, q) == section
  }

  /** No walk, wherever it starts, finds a section that no page led to before. */
  ghost predicate Sourced(nodes: seq<Node>, e: Entry, nodes': seq<Node>, e': Entry, h: nat, B: nat) {
    forall p: nat :: LedTo(nodes, e, h, B, Find(nodes', e', h, p))
  }

  ghost predicate Kept(nodes: seq<Node>, e: Entry, nodes': seq<Node>, e': Entry, h: nat, B: nat) {
    KeptLeaves(nodes, e, nodes', e', h, B) && Sourced(nodes, e, nodes', e', h, B)
  }

  /** A page below a child is below the node, and the walk goes through the child. */
  lemma LedToChild(nodes: seq<Node>, n: nat, B: nat, l: nat, d: nat, section: nat)
    requires Starts(B, l + 1) && n < |nodes| && |nodes[n]| == L2_SIZE && n != NIL && d < L2_SIZE
    requires LedTo(nodes, nodes[n][d], l, Child(B, l, d), section)
    ensures LedTo(nodes, Entry(1, n), l + 1, B, section)
  {
    hide Pages, Digit, Starts, Child;
    if section != UNASSIGNED {
      var q: nat :| Within(q, Child(B, l, d), l) && Find(nodes, nodes[n][d], l, q) == section;
      ChildStarts(B, l, d);
      DigitIs(B, l, d, q);
      assert Find(nodes, Entry(1, n), l + 1, q) == section;
    }
  }

  /** The v-th entry of the node is its only child. */
  predicate Single(node: Node, v: nat) {
    v < |node| && node[v].ptr != NIL && forall c | 0 <= c < |node| && c != v :: node[c].ptr == NIL
  }

  /**
   Below the entry there is nothing left to compress: a node with a single child is skipped, unless the
   skips together need more than three bits.
   */
  ghost predicate Squeezed(nodes: seq<Node>, e: Entry, h: nat)
    decreases h
  {
    || e.skip == 0 || e.ptr == NIL
    || (&& e.skip <= h && e.ptr < |nodes| && |nodes[e.ptr]| == L2_SIZE
        && (forall v: nat | Single(nodes[e.ptr], v) :: e.skip + nodes[e.ptr][v].skip >= SKIP_LIMIT)
        && forall d | 0 <= d < L2_SIZE :: Squeezed(nodes, nodes[e.ptr][d], h - e.skip))
  }

  lemma {:induction false} SqueezedLocal(nodes: seq<Node>, nodes': seq<Node>, tags: seq<Label>, e: Entry, h: nat,
                                         B: nat)
    requires MapC(nodes, tags) && EntryC(tags, e, h, B) && |nodes'| == |nodes|
    requires forall n | 0 <= n < |nodes| && Below(tags[n], B, h) :: nodes'[n] == nodes[n]
    requires Squeezed(nodes, e, h)
    ensures Squeezed(nodes', e, h)
    decreases h
  {
    hide MapC, Pages, Starts, Child, Single;
    if e.skip != 0 && e.ptr != NIL {
      MapCSizes(nodes, tags);
      var n := e.ptr;
      var l := tags[n].level;
      assert Below(tags[n], B, h);
      forall d | 0 <= d < L2_SIZE ensures Squeezed(nodes', nodes[n][d], l) {
        NodeCEntry(nodes, tags, n, d);
        ChildStarts(tags[n].base, l, d);
        var b := Child(tags[n].base, l, d);
        forall m | 0 <= m < |nodes| && Below(tags[m], b, l) ensures nodes'[m] == nodes[m] {
          assert Below(tags[m], B, h);
        }
        SqueezedLocal(nodes, nodes', tags, nodes[n][d], l, b);
      }
    }
  }

  /** Skipping a node leaves nothing to compress if there was nothing below its only child. */
  lemma SqueezedCompressed(nodes: seq<Node>, e: Entry, c: Entry, h: nat)
    requires e.skip == 1 <= h && Squeezed(nodes, c, h - 1)
    ensures Squeezed(nodes, Compressed(e, c), h)
  {
    hide Single;
  }

  /** An entry that stays leads to several children, to none, or to one whose skip is too large. */
  lemma SqueezedOpen(nodes0: seq<Node>, nodes: seq<Node>, tags: seq<Label>, n: nat, B: nat, l: nat, valid: nat, v: nat)
    requires Compacting(nodes0, nodes, tags, n, B, l, L2_SIZE) && Counted(nodes0[n], L2_SIZE, valid, v)
    requires valid == 1 ==> 1 + nodes[n][v].skip >= SKIP_LIMIT
    ensures Squeezed(nodes, Entry(1, n), l + 1)
  {
    hide MapC, Child, Kept;
    forall w: nat | Single(nodes[n], w) ensures 1 + nodes[n][w].skip >= SKIP_LIMIT {
      assert nodes0[n][w].ptr != NIL;
      assert forall c | 0 <= c < L2_SIZE && c != w :: nodes0[n][c].ptr == NIL;
    }
  }

  /**
   The children of node n, of level l and base B, have been compacted up to the i-th; what lies
   below the others, and all that does not lie below n, is as in nodes0.
   */
  ghost predicate Compacting(nodes0: seq<Node>, nodes: seq<Node>, tags: seq<Label>, n: nat, B: nat, l: nat, i: nat) {
    && MapC(nodes, tags) && |nodes0| == |nodes| == |tags| && n < |nodes| && tags[n] == Label(l, B)
    && |nodes0[n]| == |nodes[n]| == L2_SIZE && i <= L2_SIZE
    && (forall c | 0 <= c < i :: Kept(nodes0, nodes0[n][c], nodes, nodes[n][c], l, Child(B, l, c)))
    && (forall c | 0 <= c < i :: Squeezed(nodes, nodes[n][c], l))
    && (forall c | 0 <= c < L2_SIZE :: nodes[n][c].ptr == NIL <==> nodes0[n][c].ptr == NIL)
    && (forall c | i <= c < L2_SIZE :: nodes[n][c] == nodes0[n][c])
    && (forall m, c | 0 <= m < |nodes| && i <= c < L2_SIZE && Below(tags[m], Child(B, l, c), l) ::
          nodes[m] == nodes0[m])
    && (forall m | 0 <= m < |nodes| && !Below(tags[m], B, l + 1) :: nodes[m] == nodes0[m])
  }

  lemma {:induction false} LeafWalkLocal(nodes: seq<Node>, nodes': seq<Node>, tags: seq<Label>, e: Entry, h: nat,
                                         B: nat, page: nat)
    requires Plain(nodes, tags, B, h) && EntryOk(tags, e, h, B) && Starts(B, h) && Within(page, B, h)
             && |nodes'| == |nodes|
    requires forall n | 0 <= n < |nodes| && Below(tags[n], B, h) :: nodes'[n] == nodes[n]
    ensures LeafWalk(nodes', e, h, page) == LeafWalk(nodes, e, h, page)
    decreases h
  {
    hide Pages, Digit, Starts, Child;
    if e.skip != 0 && e.ptr != NIL {
      var n := e.ptr;
      var l := h - 1;
      var d := Digit(page, l);
      StartsInside(B, h);
      assert Below(tags[n], B, h);
      assert NodeOk(tags, nodes[n], tags[n]);
      DigitChild(B, l, page);
      ChildStarts(B, l, d);
      var b := Child(B, l, d);
      forall m | 0 <= m < |nodes| && Below(tags[m], b, l) ensures Below(tags[m], B, h) && nodes'[m] == nodes[m] {
      }
      LeafWalkLocal(nodes, nodes', tags, nodes[n][d], l, b, page);
    }
  }

  lemma StartsInside(B: nat, h: nat)
    ensures Within(B, B, h)
  {
  }

  /** Two children of a node have no node below them in common. */
  lemma BelowApart(at: Label, B: nat, l: nat, c: nat, d: nat)
    requires c != d && Below(at, Child(B, l, c), l)
    ensures !Below(at, Child(B, l, d), l)
  {
    hide Pages, Child;
    if c < d {
      ChildrenApart(B, l, c, d);
    } else {
      ChildrenApart(B, l, d, c);
    }
  }

  lemma BelowChild(at: Label, B: nat, l: nat, d: nat)
    requires Starts(B, l + 1) && d < L2_SIZE && Below(at, Child(B, l, d), l)
    ensures Below(at, B, l + 1)
  {
    hide Pages, Child, Starts;
    ChildStarts(B, l, d);
  }

  /** The children that have been dealt with stay as they are while the next one is compacted. */
  lemma KeptEarlier(nodes0: seq<Node>, nodes: seq<Node>, nodes': seq<Node>, tags: seq<Label>, n: nat, B: nat, l: nat,
                    i: nat, c: nat)
    requires Compacting(nodes0, nodes, tags, n, B, l, i) && c < i < L2_SIZE
    requires OnlyChild(nodes, tags, nodes', n, B, l, i) && |nodes'| == |nodes|
    ensures Kept(nodes0, nodes0[n][c], nodes', nodes'[n][c], l, Child(B, l, c))
    ensures Squeezed(nodes', nodes'[n][c], l)
  {
    hide MapC, Pages, Digit, Starts, Child, EntryC, Find, LeafWalk, Squeezed;
    NodeCEntry(nodes, tags, n, c);
    assert Kept(nodes0, nodes0[n][c], nodes, nodes[n][c], l, Child(B, l, c));
    hide LedTo;
    forall m | 0 <= m < |nodes| && Below(tags[m], Child(B, l, c), l) ensures nodes'[m] == nodes[m] {
      BelowApart(tags[m], B, l, c, i);
    }
    forall p: nat
      ensures Find(nodes', nodes[n][c], l, p) == Find(nodes, nodes[n][c], l, p)
      ensures LedTo(nodes0, nodes0[n][c], l, Child(B, l, c), Find(nodes', nodes'[n][c], l, p))
    {
      FindLocalC(nodes, nodes', tags, nodes[n][c], l, Child(B, l, c), p);
    }
    SqueezedLocal(nodes, nodes', tags, nodes[n][c], l, Child(B, l, c));
  }

  /** Compacting one more child. */
  lemma CompactNext(nodes0: seq<Node>, nodes: seq<Node>, nodes': seq<Node>, tags: seq<Label>, n: nat, B: nat, l: nat,
                    i: nat)
    requires Compacting(nodes0, nodes, tags, n, B, l, i) && i < L2_SIZE && Starts(B, l + 1)
    requires OnlyChild(nodes, tags, nodes', n, B, l, i) && |nodes'| == |nodes| && MapC(nodes', tags)
    requires Kept(nodes0, nodes0[n][i], nodes', nodes'[n][i], l, Child(B, l, i)) && Squeezed(nodes', nodes'[n][i], l)
    requires nodes'[n][i].ptr == NIL <==> nodes[n][i].ptr == NIL
    ensures Compacting(nodes0, nodes', tags, n, B, l, i + 1)
  {
    hide MapC, Pages, Digit, Starts, Child, EntryC, Find, LeafWalk, Kept, Squeezed;
    forall c | 0 <= c < i + 1
      ensures Kept(nodes0, nodes0[n][c], nodes', nodes'[n][c], l, Child(B, l, c)) && Squeezed(nodes', nodes'[n][c], l)
    {
      if c < i {
        KeptEarlier(nodes0, nodes, nodes', tags, n, B, l, i, c);
      }
    }
    forall m, c | 0 <= m < |nodes| && i + 1 <= c < L2_SIZE && Below(tags[m], Child(B, l, c), l)
      ensures nodes'[m] == nodes0[m]
    {
      BelowApart(tags[m], B, l, c, i);
    }
    StartsInside(B, l + 1);
    forall m | 0 <= m < |nodes| && !Below(tags[m], B, l + 1) ensures nodes'[m] == nodes0[m] {
      if Below(tags[m], Child(B, l, i), l) {
        BelowChild(tags[m], B, l, i);
      }
    }
  }

  /** A child that is empty or a leaf is left as it is. */
  lemma CompactSkip(nodes0: seq<Node>, nodes: seq<Node>, tags: seq<Label>, n: nat, B: nat, l: nat, i: nat)
    requires Compacting(nodes0, nodes, tags, n, B, l, i) && i < L2_SIZE && Starts(B, l + 1)
    requires nodes[n][i].ptr == NIL || nodes[n][i].skip == 0
    ensures Compacting(nodes0, nodes, tags, n, B, l, i + 1)
  {
    hide MapC, Pages, Digit, Starts, Child, EntryC, Find, LeafWalk, Kept, Squeezed;
    NodeCEntry(nodes, tags, n, i);
    EntryCSkip(tags, nodes[n][i], l, Child(B, l, i));
    NothingBelow(nodes, nodes[n][i], l);
    LeafKept(nodes0, nodes, nodes0[n][i], l, Child(B, l, i));
    CompactNext(nodes0, nodes, nodes, tags, n, B, l, i);
  }

  lemma EntryCSkip(tags: seq<Label>, e: Entry, h: nat, B: nat)
    requires EntryC(tags, e, h, B)
    ensures e.skip <= h && (e.ptr == NIL ==> e.skip != 0)
  {
  }

  lemma LeafKept(nodes0: seq<Node>, nodes: seq<Node>, e: Entry, h: nat, B: nat)
    requires e.ptr == NIL || e.skip == 0
    requires e.skip <= h && (e.ptr == NIL ==> e.skip != 0)
    ensures Kept(nodes0, e, nodes, e, h, B)
  {
    hide Pages;
    StartsInside(B, h);
    forall p: nat ensures LedTo(nodes0, e, h, B, Find(nodes, e, h, p)) {
      assert Find(nodes0, e, h, B) == Find(nodes, e, h, p);
    }
  }

  /** The next child and what lies below it are as they were, and so have no skips. */
  lemma ChildPlain(nodes0: seq<Node>, nodes: seq<Node>, tags: seq<Label>, n: nat, B: nat, l: nat, i: nat)
    requires Compacting(nodes0, nodes, tags, n, B, l, i) && i < L2_SIZE && Starts(B, l + 1)
             && Plain(nodes0, tags, B, l + 1)
    ensures EntryOk(tags, nodes[n][i], l, Child(B, l, i))
    ensures Plain(nodes, tags, Child(B, l, i), l) && Plain(nodes0, tags, Child(B, l, i), l)
    ensures forall m | 0 <= m < |nodes| && Below(tags[m], Child(B, l, i), l) :: nodes[m] == nodes0[m]
  {
    hide MapC, Pages, Digit, Starts, Child, EntryOk, Kept, Squeezed;
    StartsInside(B, l + 1);
    assert Below(tags[n], B, l + 1);
    assert NodeOk(tags, nodes0[n], tags[n]);
    forall m | 0 <= m < |nodes| && Below(tags[m], Child(B, l, i), l)
      ensures NodeOk(tags, nodes0[m], tags[m]) && nodes[m] == nodes0[m]
    {
      BelowChild(tags[m], B, l, i);
    }
  }

  lemma KeptTransfer(nodes0: seq<Node>, nodes: seq<Node>, nodes': seq<Node>, tags: seq<Label>, e: Entry, e': Entry,
                     h: nat, B: nat)
    requires MapC(nodes, tags) && |nodes0| == |nodes| && EntryOk(tags, e, h, B) && Starts(B, h)
             && Plain(nodes, tags, B, h)
    requires forall m | 0 <= m < |nodes| && Below(tags[m], B, h) :: nodes[m] == nodes0[m]
    requires Kept(nodes, e, nodes', e', h, B)
    ensures Kept(nodes0, e, nodes', e', h, B)
  {
    hide MapC, Pages, Digit, Starts, Find, LeafWalk, EntryOk, EntryC, Plain;
    EntryOkC(tags, e, h, B);
    MapCSizes(nodes, tags);
    forall p: nat | Within(p, B, h) && LeafWalk(nodes0, e, h, p)
      ensures Find(nodes', e', h, p) == Find(nodes0, e, h, p)
    {
      LeafWalkLocal(nodes, nodes0, tags, e, h, B, p);
      FindLocalC(nodes, nodes0, tags, e, h, B, p);
    }
    forall p: nat ensures LedTo(nodes0, e, h, B, Find(nodes', e', h, p)) {
      assert LedTo(nodes, e, h, B, Find(nodes', e', h, p));
      LedToSame(nodes0, nodes, tags, e, h, B, Find(nodes', e', h, p));
    }
  }

  lemma LedToSame(nodes0: seq<Node>, nodes: seq<Node>, tags: seq<Label>, e: Entry, h: nat, B: nat, section: nat)
    requires MapC(nodes, tags) && |nodes0| == |nodes| == |tags| && EntryC(tags, e, h, B)
    requires forall m | 0 <= m < |nodes| && Below(tags[m], B, h) :: nodes[m] == nodes0[m]
    requires LedTo(nodes, e, h, B, section)
    ensures LedTo(nodes0, e, h, B, section)
  {
    hide MapC, EntryC, Find, Pages;
    if section != UNASSIGNED {
      var q: nat :| Within(q, B, h) && Find(nodes, e, h, q) == section;
      FindLocalC(nodes, nodes0, tags, e, h, B, q);
    }
  }

  /** Once all children of a node are compacted, the entry that leads to it is as good as before. */
  lemma KeptOpen(nodes0: seq<Node>, nodes: seq<Node>, tags: seq<Label>, n: nat, B: nat, l: nat)
    requires Compacting(nodes0, nodes, tags, n, B, l, L2_SIZE) && Starts(B, l + 1) && n != NIL
    ensures Kept(nodes0, Entry(1, n), nodes, Entry(1, n), l + 1, B)
  {
    hide MapC, Pages, Digit, Starts, Child, Squeezed;
    var h := l + 1;
    forall p: nat | Within(p, B, h) && LeafWalk(nodes0, Entry(1, n), h, p)
      ensures Find(nodes, Entry(1, n), h, p) == Find(nodes0, Entry(1, n), h, p)
    {
      var d := Digit(p, l);
      DigitChild(B, l, p);
      assert Kept(nodes0, nodes0[n][d], nodes, nodes[n][d], l, Child(B, l, d));
    }
    forall p: nat ensures LedTo(nodes0, Entry(1, n), h, B, Find(nodes, Entry(1, n), h, p)) {
      SourcedChild(nodes0, nodes, tags, n, B, l, Digit(p, l), p);
    }
  }

  lemma SourcedChild(nodes0: seq<Node>, nodes: seq<Node>, tags: seq<Label>, n: nat, B: nat, l: nat, d: nat, p: nat)
    requires Compacting(nodes0, nodes, tags, n, B, l, L2_SIZE) && Starts(B, l + 1) && n != NIL && d < L2_SIZE
    ensures LedTo(nodes0, Entry(1, n), l + 1, B, Find(nodes, nodes[n][d], l, p))
  {
    hide MapC, Pages, Digit, Starts, Child, Find, LedTo, KeptLeaves, Squeezed;
    assert Kept(nodes0, nodes0[n][d], nodes, nodes[n][d], l, Child(B, l, d));
    LedToChild(nodes0, n, B, l, d, Find(nodes, nodes[n][d], l, p));
  }

  /** The entry that takes the place of one whose node has a single child c. */
  function Compressed(e: Entry, c: Entry): Entry {
    Entry(if c.skip == 0 then 0 else e.skip + c.skip, c.ptr)
  }

  /** If v is the only child of node n, skipping the node loses no page that led to a leaf. */
  lemma KeptCompressed(nodes0: seq<Node>, nodes: seq<Node>, tags: seq<Label>, n: nat, B: nat, l: nat, v: nat)
    requires Compacting(nodes0, nodes, tags, n, B, l, L2_SIZE) && Starts(B, l + 1) && Plain(nodes0, tags, B, l + 1)
    requires v < L2_SIZE && n != NIL && nodes0[n][v].ptr != NIL && 1 + nodes[n][v].skip < SKIP_LIMIT
    requires forall c | 0 <= c < L2_SIZE && c != v :: nodes0[n][c].ptr == NIL
    ensures var e' := Compressed(Entry(1, n), nodes[n][v]);
            EntryC(tags, e', l + 1, B) && Kept(nodes0, Entry(1, n), nodes, e', l + 1, B)
  {
    hide MapC, Pages, Digit, Starts, Child, LeafWalk, LedTo, Squeezed;
    var h := l + 1;
    var c := nodes[n][v];
    var e' := Compressed(Entry(1, n), c);
    MapCSizes(nodes, tags);
    NodeCEntry(nodes, tags, n, v);
    ChildStarts(B, l, v);
    KeptOpen(nodes0, nodes, tags, n, B, l);
    if c.skip != 0 {
      NodeCEntry(nodes, tags, c.ptr, 0);
    }
    forall p: nat | Within(p, B, h) && LeafWalk(nodes0, Entry(1, n), h, p)
      ensures Find(nodes, e', h, p) == Find(nodes0, Entry(1, n), h, p)
    {
      LeafDigit(nodes0, tags, n, l, B, p);
      assert Digit(p, l) == v;
      assert Find(nodes, Entry(1, n), h, p) == Find(nodes, c, l, p);
    }
    forall p: nat ensures LedTo(nodes0, Entry(1, n), h, B, Find(nodes, e', h, p)) {
      assert Find(nodes, e', h, p) == Find(nodes, c, l, p);
      SourcedChild(nodes0, nodes, tags, n, B, l, v, p);
    }
  }

  /** A walk that ends at a leaf passes through no empty entry. */
  lemma LeafDigit(nodes: seq<Node>, tags: seq<Label>, n: nat, l: nat, B: nat, page: nat)
    requires Plain(nodes, tags, B, l + 1) && n < |nodes| && tags[n] == Label(l, B) && Starts(B, l + 1)
    requires LeafWalk(nodes, Entry(1, n), l + 1, page)
    ensures |nodes[n]| == L2_SIZE && nodes[n][Digit(page, l)].ptr != NIL
  {
    hide Pages, Digit, Starts, Child;
    StartsInside(B, l + 1);
    assert Below(tags[n], B, l + 1);
    assert NodeOk(tags, nodes[n], tags[n]);
  }

  lemma CompactStart(nodes: seq<Node>, tags: seq<Label>, n: nat, B: nat, l: nat)
    requires MapC(nodes, tags) && n < |nodes| == |tags| && tags[n] == Label(l, B)
    ensures Compacting(nodes, nodes, tags, n, B, l, 0)
  {
    hide Pages, Child, Starts;
    NodeCEntry(nodes, tags, n, 0);
  }

  /** Replacing one entry keeps the map consistent and the walks from nodes that lie elsewhere. */
  lemma PutC(nodes: seq<Node>, tags: seq<Label>, n: nat, d: nat, e: Entry)
    requires MapC(nodes, tags) && n < |nodes| == |tags| && d < L2_SIZE && |nodes[n]| == L2_SIZE
    requires EntryC(tags, e, tags[n].level, Child(tags[n].base, tags[n].level, d))
    ensures MapC(nodes[n := nodes[n][d := e]], tags)
  {
    hide Pages, Child, EntryC, Starts;
    var nodes' := nodes[n := nodes[n][d := e]];
    forall m | 0 <= m < |nodes'| ensures NodeC(tags, nodes'[m], tags[m]) {
      assert NodeC(tags, nodes[m], tags[m]);
    }
  }

  lemma KeptElsewhere(nodes0: seq<Node>, e: Entry, nodes: seq<Node>, nodes': seq<Node>, tags: seq<Label>, e': Entry,
                      h: nat, B: nat)
    requires Kept(nodes0, e, nodes, e', h, B) && MapC(nodes, tags) && EntryC(tags, e', h, B) && |nodes'| == |nodes|
    requires |tags| == |nodes| && forall m | 0 <= m < |nodes| && Below(tags[m], B, h) :: nodes'[m] == nodes[m]
    ensures Kept(nodes0, e, nodes', e', h, B)
  {
    hide Pages, EntryC, MapC, Find, LeafWalk, LedTo;
    forall p: nat ensures Find(nodes', e', h, p) == Find(nodes, e', h, p) {
      FindLocalC(nodes, nodes', tags, e', h, B, p);
    }
  }

  method Put(m: PhysPageMap, loc: Loc, e: Entry, ghost h: nat, ghost B: nat)
    requires MapC(m.nodes, m.tags) && m.Located(loc, h, B) && EntryC(m.tags, e, h, B)
    modifies m`root, m`nodes
    ensures MapC(m.nodes, m.tags) && |m.nodes| == |old(m.nodes)| && m.EntryAt(loc) == e && m.Located(loc, h, B)
    ensures loc.In? ==> m.root == old(m.root) && OneSlot(old(m.nodes[loc.node]), m.nodes[loc.node], loc.d)
    ensures forall n | 0 <= n < |m.nodes| && !(loc.In? && n == loc.node) :: m.nodes[n] == old(m.nodes)[n]
  {
    hide Pages, EntryC, MapC, Child, Starts;
    match loc
    case Root =>
      m.root := e;
    case In(n, d) =>
      NodeCEntry(m.nodes, m.tags, n, d);
      PutC(m.nodes, m.tags, n, d, e);
      m.nodes := m.nodes[n := m.nodes[n][d := e]];
  }

  /** Two slots of the node up to i hold a child. */
  predicate Two(node: Node, i: nat)
    requires i <= |node|
  {
    exists c, d :: 0 <= c < d < i && node[c].ptr != NIL && node[d].ptr != NIL
  }

  /** The slots of a node up to i hold no child, exactly one, or several. */
  predicate Counted(node: Node, i: nat, valid: nat, validPtr: nat)
    requires i <= |node|
  {
    && valid <= i
    && (valid == 0 ==> forall c | 0 <= c < i :: node[c].ptr == NIL)
    && (valid == 1 ==> validPtr < i && node[validPtr].ptr != NIL
                       && forall c | 0 <= c < i && c != validPtr :: node[c].ptr == NIL)
    && (valid >= 2 ==> Two(node, i))
    && (valid >= 1 ==> validPtr < i && node[validPtr].ptr != NIL)
  }

  /** The loop of `phys_page_compact` over the children of node n. */
  method CompactChildren(m: PhysPageMap, loc: Loc, n: nat, ghost l: nat, ghost B: nat)
    returns (valid: nat, validPtr: nat)
    requires MapC(m.nodes, m.tags) && m.Located(loc, l + 1, B) && Starts(B, l + 1) && Plain(m.nodes, m.tags, B, l + 1)
    requires n < |m.nodes| == |m.tags| && m.tags[n] == Label(l, B) && Compacting(m.nodes, m.nodes, m.tags, n, B, l, 0)
    modifies m`root, m`nodes
    ensures Compacting(old(m.nodes), m.nodes, m.tags, n, B, l, L2_SIZE)
    ensures m.EntryAt(loc) == old(m.EntryAt(loc)) && (loc.In? ==> m.root == old(m.root)) && m.Located(loc, l + 1, B)
    ensures Counted(old(m.nodes)[n], L2_SIZE, valid, validPtr)
    decreases l, 1
  {
    hide MapC, Pages, Digit, Starts, Child, EntryC, EntryOk, Find, LeafWalk, Kept, Plain, Squeezed;
    ghost var nodes0, tags, e := m.nodes, m.tags, m.EntryAt(loc);
    if loc.In? {
      NodeCEntry(nodes0, tags, loc.node, loc.d);
    }
    validPtr, valid := L2_SIZE, 0;
    for i := 0 to L2_SIZE
      invariant Compacting(nodes0, m.nodes, tags, n, B, l, i) && Counted(nodes0[n], i, valid, validPtr)
      invariant m.EntryAt(loc) == e && (loc.In? ==> m.root == old(m.root))
    {
      if m.nodes[n][i].ptr == NIL {
        CompactSkip(nodes0, m.nodes, tags, n, B, l, i);
        continue;
      }
      validPtr := i;
      valid := valid + 1;
      if m.nodes[n][i].skip != 0 {
        ghost var before := m.nodes;
        ChildPlain(nodes0, before, tags, n, B, l, i);
        OpenEntry(tags, before[n][i], l, Child(B, l, i));
        ChildStarts(B, l, i);
        Compact(m, In(n, i), l, Child(B, l, i));
        KeptTransfer(nodes0, before, m.nodes, tags, before[n][i], m.nodes[n][i], l, Child(B, l, i));
        CompactNext(nodes0, before, m.nodes, tags, n, B, l, i);
      } else {
        CompactSkip(nodes0, m.nodes, tags, n, B, l, i);
      }
    }
  }

  /**
   `phys_page_compact` of the entry at loc, which has height h and stands for the pages from B on.
   */
  method Compact(m: PhysPageMap, loc: Loc, ghost h: nat, ghost B: nat)
    requires MapC(m.nodes, m.tags) && m.Located(loc, h, B) && Starts(B, h) && Plain(m.nodes, m.tags, B, h)
    requires EntryOk(m.tags, m.EntryAt(loc), h, B) && m.EntryAt(loc).skip == 1
    modifies m`root, m`nodes
    ensures MapC(m.nodes, m.tags) && |m.nodes| == |old(m.nodes)| && m.Located(loc, h, B)
    ensures EntryC(m.tags, m.EntryAt(loc), h, B)
    ensures m.EntryAt(loc).ptr == NIL <==> old(m.EntryAt(loc)).ptr == NIL
    ensures Kept(old(m.nodes), old(m.EntryAt(loc)), m.nodes, m.EntryAt(loc), h, B)
    ensures Squeezed(m.nodes, m.EntryAt(loc), h)
    ensures loc.In? ==> m.root == old(m.root) && OneSlot(old(m.nodes[loc.node]), m.nodes[loc.node], loc.d)
    ensures forall n | 0 <= n < |m.nodes| && !Below(m.tags[n], B, h) && !(loc.In? && n == loc.node) ::
              m.nodes[n] == old(m.nodes)[n]
    decreases h, 0
  {
    hide MapC, Pages, Digit, Starts, Child, EntryC, EntryOk, Find, LeafWalk, Kept, Plain, Squeezed;
    ghost var nodes0, tags := m.nodes, m.tags;
    MapCSizes(nodes0, tags);
    var e := m.EntryAt(loc);
    OpenEntry(tags, e, h, B);
    EntryOkC(tags, e, h, B);
    if loc.In? {
      NodeCEntry(nodes0, tags, loc.node, loc.d);
    }
    if e.ptr == NIL {
      LeafKept(nodes0, nodes0, e, h, B);
      NothingBelow(nodes0, e, h);
      return;
    }
    var n := e.ptr;
    ghost var l := h - 1;
    CompactStart(nodes0, tags, n, B, l);
    var valid, validPtr := CompactChildren(m, loc, n, l, B);
    KeptOpen(nodes0, m.nodes, tags, n, B, l);
    if valid != 1 {
      SqueezedOpen(nodes0, m.nodes, tags, n, B, l, valid, validPtr);
      return;
    }
    var c := m.nodes[n][validPtr];
    if e.skip + c.skip >= SKIP_LIMIT {
      SqueezedOpen(nodes0, m.nodes, tags, n, B, l, valid, validPtr);
      return;
    }
    ghost var before := m.nodes;
    KeptCompressed(nodes0, before, tags, n, B, l, validPtr);
    Put(m, loc, Compressed(e, c), h, B);
    KeptElsewhere(nodes0, e, before, m.nodes, tags, Compressed(e, c), h, B);
    SqueezedCompressed(before, e, c, h);
    SqueezedLocal(before, m.nodes, tags, Compressed(e, c), h, B);
  }

  lemma NothingBelow(nodes: seq<Node>, e: Entry, h: nat)
    requires e.ptr == NIL || e.skip == 0
    ensures Squeezed(nodes, e, h)
  {
  }

  /** In a map without skips, a walk that reaches an assigned section has ended at a leaf. */
  lemma {:induction false} AssignedWalks(nodes: seq<Node>, tags: seq<Label>, e: Entry, h: nat, B: nat, page: nat)
    requires MapOk(nodes, tags) && EntryOk(tags, e, h, B) && Starts(B, h) && Within(page, B, h)
    requires Find(nodes, e, h, page) != UNASSIGNED
    ensures LeafWalk(nodes, e, h, page)
    decreases h
  {
    hide Pages, Digit, Starts, Child, MapOk;
    if e.skip != 0 {
      MapSizes(nodes, tags);
      var d := Digit(page, h - 1);
      NodeEntries(nodes, tags, e.ptr, d);
      DigitChild(B, h - 1, page);
      ChildStarts(B, h - 1, d);
      AssignedWalks(nodes, tags, nodes[e.ptr][d], h - 1, Child(B, h - 1, d), page);
    }
  }

  /**
   `phys_page_compact_all`: every page whose walk ended at a leaf keeps its section, every other page
   is unassigned or comes to a section that some page led to before, nothing is left to compress, and
   every stored skip fits into three bits.
   */
  method CompactAll(m: PhysPageMap)
    requires m.Valid()
    modifies m`root, m`nodes
    ensures forall p: nat | p < Pages(m.levels) && old(LeafWalk(m.nodes, m.root, m.levels, p)) ::
              m.Section(p) == old(m.Section(p))
    ensures forall p: nat | p < Pages(m.levels) && old(m.Section(p)) != UNASSIGNED :: m.Section(p) == old(m.Section(p))
    ensures forall p: nat :: LedTo(old(m.nodes), old(m.root), m.levels, 0, m.Section(p))
    ensures Squeezed(m.nodes, m.root, m.levels)
    ensures m.root.skip < SKIP_LIMIT
    ensures forall n, d | 0 <= n < |m.nodes| && 0 <= d < |m.nodes[n]| :: m.nodes[n][d].skip < SKIP_LIMIT
    ensures MapC(m.nodes, m.tags) && |m.nodes| == |old(m.nodes)|
  {
    hide MapOk, MapC, Pages, Starts, Child, EntryOk, EntryC, Find, LeafWalk, Plain, LedTo, Squeezed;
    ghost var nodes0, e0 := m.nodes, m.root;
    ZeroStarts(m.levels);
    forall p: nat | p < Pages(m.levels) && Find(nodes0, e0, m.levels, p) != UNASSIGNED
      ensures LeafWalk(nodes0, e0, m.levels, p)
    {
      AssignedWalks(nodes0, m.tags, e0, m.levels, 0, p);
    }
    if m.root.skip != 0 {
      MapOkC(m.nodes, m.tags);
      assert Plain(m.nodes, m.tags, 0, m.levels);
      m.RootLocated();
      Compact(m, Root, m.levels, 0);
      forall p: nat | p < Pages(m.levels) && LeafWalk(nodes0, e0, m.levels, p)
        ensures Find(m.nodes, m.root, m.levels, p) == Find(nodes0, e0, m.levels, p)
      {
        assert Within(p, 0, m.levels);
      }
    }
    SkipsFit(m.nodes, m.tags, m.root, m.levels);
  }

  lemma SkipsFit(nodes: seq<Node>, tags: seq<Label>, e: Entry, h: nat)
    requires MapC(nodes, tags) && EntryC(tags, e, h, 0)
    ensures e.skip < SKIP_LIMIT
    ensures forall n, d | 0 <= n < |nodes| && 0 <= d < |nodes[n]| :: nodes[n][d].skip < SKIP_LIMIT
  {
    hide Pages, Child, Starts;
    forall n, d | 0 <= n < |nodes| && 0 <= d < |nodes[n]| ensures nodes[n][d].skip < SKIP_LIMIT {
      assert NodeC(tags, nodes[n], tags[n]);
    }
  }

  /**
   An unassigned page can come to a section: with page 512 alone mapped, to section 5, the compacted
   root skips the upper node, and page 0 takes the walk of page 512.
   */
  lemma StrayWalk()
    ensures var upper := seq(L2_SIZE, d => if d == 1 then Entry(1, 1) else Entry(1, NIL));
            var lower := seq(L2_SIZE, d => if d == 0 then Entry(0, 5) else Entry(0, UNASSIGNED));
            var nodes, root := [upper, lower], Entry(1, 0);
            && Find(nodes, root, 2, 512) == 5 && Find(nodes, root, 2, 0) == UNASSIGNED
            && Compressed(root, upper[1]) == Entry(2, 1) && Find(nodes, Entry(2, 1), 2, 0) == 5
  {
    assert Pages(0) == 1 && Pages(1) == 512;
    assert Digit(512, 1) == 1 && Digit(512, 0) == 0 && Digit(0, 1) == 0 && Digit(0, 0) == 0;
  }
}
