/**
 The multi-level map from page numbers to sections (`PhysPageMap`, qemu/mem.c): the walk, and the
 recursive setting of a range of pages, for any number of levels.
 */
module RadixMap {
  import opened Helpers

  /** skip: how many levels down the next entry is, 0 for a leaf; ptr: a section or a node. */
  datatype Entry = Entry(skip: nat, ptr: nat)

  type Node = seq<Entry>

  const L2_SIZE: nat := 512
  const NIL: nat := 0x3FF_FFFF
  const UNASSIGNED: nat := 0

  /** What a range of pages can be mapped to: a 16-bit section number other than the unassigned one. */
  predicate IsSection(leaf: nat) { leaf != UNASSIGNED && leaf < 0x1_0000 }

  /** The number of pages below an entry of height h. */
  function Pages(h: nat): (n: nat)
    ensures n > 0
  {
    if h == 0 then 1 else L2_SIZE * Pages(h - 1)
  }

  /** The index into a node of level l on the walk to a page. */
  function Digit(page: nat, l: nat): (d: nat)
    ensures d < L2_SIZE
  {
    (page / Pages(l)) % L2_SIZE
  }

  /**
   The walk of `phys_page_find`, from an entry of height h down to a leaf; an empty entry means
   that the page is unassigned.
   */
  function Find(nodes: seq<Node>, e: Entry, h: nat, page: nat): nat
    decreases h
  {
    if e.skip == 0 || h < e.skip then e.ptr
    else if e.ptr == NIL then UNASSIGNED
    else if e.ptr >= |nodes| || |nodes[e.ptr]| != L2_SIZE then UNASSIGNED
    else Find(nodes, nodes[e.ptr][Digit(page, h - e.skip)], h - e.skip, page)
  }

  // -------------------------------------------------------------- arithmetic

  /** The start of the d-th child of an entry of height l + 1 that starts at B. */
  function Child(B: nat, l: nat, d: nat): nat { B + Pages(l) * d }

  predicate Starts(B: nat, h: nat) { B % Pages(h) == 0 }

  predicate Within(page: nat, B: nat, h: nat) { B <= page < B + Pages(h) }

  /** An aligned block of height l + 1 starts at a multiple of 512 blocks of height l. */
  lemma BlockIndex(B: nat, l: nat, d: nat) returns (k: nat)
    requires Starts(B, l + 1)
    ensures Child(B, l, d) == Pages(l) * (L2_SIZE * k + d)
  {
    k := B / Pages(l + 1);
    assert B == (L2_SIZE * Pages(l)) * k;
    assert (L2_SIZE * Pages(l)) * k == Pages(l) * (L2_SIZE * k);
    Distribute(Pages(l), L2_SIZE * k, d);
  }

  lemma ChildStarts(B: nat, l: nat, d: nat)
    requires Starts(B, l + 1)
    ensures Starts(Child(B, l, d), l)
    ensures Child(B, l, d + 1) == Child(B, l, d) + Pages(l)
    ensures d < L2_SIZE ==> Child(B, l, d + 1) <= B + Pages(l + 1)
    ensures B <= Child(B, l, d) && Child(B, l, L2_SIZE) == B + Pages(l + 1)
    ensures Starts(B, l)
  {
    var k0 := BlockIndex(B, l, 0);
    DivUnique(B, Pages(l), L2_SIZE * k0, 0);
    var k := BlockIndex(B, l, d);
    assert Pages(l + 1) == L2_SIZE * Pages(l);
    DivUnique(Child(B, l, d), Pages(l), L2_SIZE * k + d, 0);
    Distribute(Pages(l), d, 1);
    if d < L2_SIZE {
      MulMono(Pages(l), d + 1, L2_SIZE);
    }
  }

  /** Walking to a page goes through the child whose pages contain it. */
  lemma DigitIs(B: nat, l: nat, d: nat, page: nat)
    requires Starts(B, l + 1) && d < L2_SIZE && Within(page, Child(B, l, d), l)
    ensures Digit(page, l) == d
  {
    var k := BlockIndex(B, l, d);
    DivUnique(page, Pages(l), L2_SIZE * k + d, page - Child(B, l, d));
  }

  lemma DigitChild(B: nat, l: nat, page: nat)
    requires Starts(B, l + 1) && Within(page, B, l + 1)
    ensures Within(page, Child(B, l, Digit(page, l)), l)
  {
    var P := Pages(l);
    var d := (page - B) / P;
    assert page - B == P * d + (page - B) % P;
    assert Pages(l + 1) == L2_SIZE * P;
    QuotientBound(page - B, P, d);
    DigitIs(B, l, d, page);
  }

  lemma QuotientBound(x: nat, m: nat, d: nat)
    requires m > 0 && d == x / m && x < L2_SIZE * m
    ensures d < L2_SIZE
  {
    if d >= L2_SIZE {
      MulMono(m, L2_SIZE, d);
    }
  }

  /** Different children have no page in common. */
  lemma ChildrenApart(B: nat, l: nat, c: nat, d: nat)
    requires c < d
    ensures Child(B, l, c) + Pages(l) <= Child(B, l, d)
  {
    Distribute(Pages(l), c, 1);
    MulMono(Pages(l), c + 1, d);
  }

  // ------------------------------------------------------------- consistency

  /** Which pages a node stands for: those below an entry of height level + 1 from base on. */
  datatype Label = Label(level: nat, base: nat)

  /** An entry for the pages from B on, at height h, in a map that has not been compacted. */
  ghost predicate EntryOk(tags: seq<Label>, e: Entry, h: nat, B: nat) {
    if e.skip == 0 then e.ptr != NIL && (h > 0 ==> e.ptr != UNASSIGNED)
    else
      && e.skip == 1 && h > 0
      && (e.ptr == NIL || (e.ptr < |tags| && tags[e.ptr] == Label(h - 1, B)))
  }

  ghost predicate NodeOk(tags: seq<Label>, node: Node, at: Label) {
    && |node| == L2_SIZE && Starts(at.base, at.level + 1)
    && forall d | 0 <= d < L2_SIZE :: EntryOk(tags, node[d], at.level, Child(at.base, at.level, d))
  }

  /** Every node is reached, if at all, by the entry that its label names: no node is shared. */
  ghost predicate MapOk(nodes: seq<Node>, tags: seq<Label>) {
    && |tags| == |nodes| <= NIL
    && forall n | 0 <= n < |nodes| :: NodeOk(tags, nodes[n], tags[n])
  }

  /** The node lies below an entry of height h that starts at B. */
  predicate Below(at: Label, B: nat, h: nat) {
    at.level < h && Within(at.base, B, h)
  }

  /** A walk depends only on the nodes below the entry it starts from. */
  lemma {:induction false} FindLocal(nodes: seq<Node>, nodes': seq<Node>, tags: seq<Label>, e: Entry, h: nat, B: nat,
                                     page: nat)
    requires MapOk(nodes, tags) && EntryOk(tags, e, h, B) && Starts(B, h) && Within(page, B, h)
    requires |nodes| <= |nodes'| && forall n | 0 <= n < |nodes| && Below(tags[n], B, h) :: nodes'[n] == nodes[n]
    ensures Find(nodes', e, h, page) == Find(nodes, e, h, page)
    decreases h
  {
    if e.skip != 0 && e.ptr != NIL {
      var n := e.ptr;
      var d := Digit(page, h - 1);
      assert NodeOk(tags, nodes[n], tags[n]);
      assert Below(tags[n], B, h);
      DigitChild(B, h - 1, page);
      ChildStarts(B, h - 1, d);
      var b := Child(B, h - 1, d);
      forall m | 0 <= m < |nodes| && Below(tags[m], b, h - 1) ensures nodes'[m] == nodes[m] {
        assert Below(tags[m], B, h);
      }
      FindLocal(nodes, nodes', tags, nodes[n][d], h - 1, b, page);
    }
  }

  /** The walk from a node of level l. */
  function Reach(nodes: seq<Node>, n: nat, l: nat, page: nat): nat
    requires n < |nodes| && |nodes[n]| == L2_SIZE
  {
    Find(nodes, nodes[n][Digit(page, l)], l, page)
  }

  /** Between the two maps only the d-th child of node n, of level l and base B, has changed. */
  ghost predicate OnlyChild(nodes: seq<Node>, tags: seq<Label>, nodes': seq<Node>, n: nat, B: nat, l: nat, d: nat) {
    && |nodes| == |tags| <= |nodes'| && n < |nodes| && d < L2_SIZE
    && |nodes[n]| == |nodes'[n]| == L2_SIZE
    && nodes'[n] == nodes[n][d := nodes'[n][d]]
    && forall m | 0 <= m < |nodes| && m != n && !Below(tags[m], Child(B, l, d), l) :: nodes'[m] == nodes[m]
  }

  lemma OtherChild(nodes: seq<Node>, tags: seq<Label>, nodes': seq<Node>, n: nat, B: nat, l: nat, d: nat, page: nat)
    requires MapOk(nodes, tags) && OnlyChild(nodes, tags, nodes', n, B, l, d)
    requires tags[n] == Label(l, B) && Within(page, B, l + 1) && Digit(page, l) != d
    ensures Reach(nodes', n, l, page) == Reach(nodes, n, l, page)
  {
    hide Pages, Digit, Find;
    var c := Digit(page, l);
    assert NodeOk(tags, nodes[n], tags[n]);
    DigitChild(B, l, page);
    ChildStarts(B, l, c);
    if c < d {
      ChildrenApart(B, l, c, d);
    } else {
      ChildrenApart(B, l, d, c);
    }
    hide Child;
    FindLocal(nodes, nodes', tags, nodes[n][c], l, Child(B, l, c), page);
  }

  ghost predicate Extends(tags: seq<Label>, tags': seq<Label>) { tags <= tags' }

  // ------------------------------------------------------------ single steps

  /** `phys_map_node_alloc` for a node of the given level. */
  function FreshNode(level: nat): Node {
    seq(L2_SIZE, _ => if level == 0 then Entry(0, UNASSIGNED) else Entry(1, NIL))
  }

  /** A new node is empty: every page below it is unassigned. */
  lemma AllocOk(nodes: seq<Node>, tags: seq<Label>, level: nat, B: nat)
    requires MapOk(nodes, tags) && |nodes| < NIL && Starts(B, level + 1)
    ensures var nodes' := nodes + [FreshNode(level)];
            var tags' := tags + [Label(level, B)];
            && MapOk(nodes', tags') && Extends(tags, tags')
            && forall page :: Reach(nodes', |nodes|, level, page) == UNASSIGNED
  {
    hide Pages, Digit;
    var nodes' := nodes + [FreshNode(level)];
    var tags' := tags + [Label(level, B)];
    forall n | 0 <= n < |nodes'| ensures NodeOk(tags', nodes'[n], tags'[n]) {
      if n < |nodes| {
        assert NodeOk(tags, nodes[n], tags[n]);
      }
    }
  }

  /** One entry of a node is replaced by a consistent one. */
  lemma PutOk(nodes: seq<Node>, tags: seq<Label>, n: nat, d: nat, e: Entry)
    requires MapOk(nodes, tags) && n < |nodes| && d < L2_SIZE
    requires EntryOk(tags, e, tags[n].level, Child(tags[n].base, tags[n].level, d))
    requires |nodes[n]| == L2_SIZE
    ensures MapOk(nodes[n := nodes[n][d := e]], tags)
  {
    hide Pages, Child, EntryOk, Starts;
    var nodes' := nodes[n := nodes[n][d := e]];
    forall m | 0 <= m < |nodes'| ensures NodeOk(tags, nodes'[m], tags[m]) {
      assert NodeOk(tags, nodes[m], tags[m]);
    }
  }

  /**
   In node n, of level l and base B, the pages from lo up to cur have been set to the leaf;
   every other page is as in the map (nodes0, tags0), and so are all nodes not below n.
   */
  ghost predicate Setting(nodes0: seq<Node>, tags0: seq<Label>, nodes: seq<Node>, tags: seq<Label>,
                          n: nat, B: nat, l: nat, lo: nat, cur: nat, leaf: nat)
  {
    && MapOk(nodes0, tags0) && MapOk(nodes, tags) && Extends(tags0, tags)
    && n < |nodes0| && tags0[n] == Label(l, B) && |nodes0[n]| == |nodes[n]| == L2_SIZE
    && (forall p: nat | Within(p, B, l + 1) ::
         Reach(nodes, n, l, p) == if lo <= p < cur then leaf else Reach(nodes0, n, l, p))
    && (forall m | 0 <= m < |nodes0| && !Below(tags0[m], B, l + 1) :: nodes[m] == nodes0[m])
  }

  /** Setting a stretch of pages below one child extends the part that has been set. */
  lemma SetChild(nodes0: seq<Node>, tags0: seq<Label>, nodes: seq<Node>, tags: seq<Label>,
                 nodes': seq<Node>, tags': seq<Label>,
                 n: nat, B: nat, l: nat, lo: nat, cur: nat, leaf: nat, d: nat, cur': nat)
    requires Setting(nodes0, tags0, nodes, tags, n, B, l, lo, cur, leaf)
    requires OnlyChild(nodes, tags, nodes', n, B, l, d) && MapOk(nodes', tags') && Extends(tags, tags')
    requires lo <= cur <= cur' && Child(B, l, d) <= cur && cur' <= Child(B, l, d) + Pages(l)
    requires SetTo(nodes, nodes[n][d], nodes', nodes'[n][d], l, Child(B, l, d), cur, cur', leaf)
    ensures Setting(nodes0, tags0, nodes', tags', n, B, l, lo, cur', leaf)
  {
    hide Pages, Digit, Find, MapOk, Starts;
    MapSizes(nodes0, tags0);
    MapSizes(nodes, tags);
    MapSizes(nodes', tags');
    NodeSize(nodes, tags, n);
    assert tags[n] == Label(l, B);
    forall p: nat | Within(p, B, l + 1)
      ensures Reach(nodes', n, l, p) == if lo <= p < cur' then leaf else Reach(nodes0, n, l, p)
    {
      assert Reach(nodes, n, l, p) == if lo <= p < cur then leaf else Reach(nodes0, n, l, p);
      if cur <= p < cur' {
        DigitIs(B, l, d, p);
      }
      if Digit(p, l) == d {
        DigitChild(B, l, p);
      } else {
        OtherChild(nodes, tags, nodes', n, B, l, d, p);
      }
    }
    ChildStarts(B, l, d);
    assert Below(tags[n], B, l + 1);
    forall m | 0 <= m < |nodes0| && !Below(tags0[m], B, l + 1) ensures nodes'[m] == nodes0[m] {
      assert tags[m] == tags0[m];
      assert !Below(tags[m], Child(B, l, d), l);
    }
  }

  /** A child whose pages are all in the range becomes a leaf. */
  lemma SetLeaf(nodes0: seq<Node>, tags0: seq<Label>, nodes: seq<Node>, tags: seq<Label>,
                n: nat, B: nat, l: nat, lo: nat, leaf: nat, d: nat)
    requires Setting(nodes0, tags0, nodes, tags, n, B, l, lo, Child(B, l, d), leaf)
    requires lo <= Child(B, l, d) && d < L2_SIZE && IsSection(leaf)
    ensures var nodes' := nodes[n := nodes[n][d := Entry(0, leaf)]];
            Setting(nodes0, tags0, nodes', tags, n, B, l, lo, Child(B, l, d) + Pages(l), leaf)
  {
    hide Pages, Digit, MapOk, Child;
    MapSizes(nodes0, tags0);
    MapSizes(nodes, tags);
    var nodes' := nodes[n := nodes[n][d := Entry(0, leaf)]];
    assert tags[n] == Label(l, B);
    PutOk(nodes, tags, n, d, Entry(0, leaf));
    SetChild(nodes0, tags0, nodes, tags, nodes', tags, n, B, l, lo, Child(B, l, d), leaf, d, Child(B, l, d) + Pages(l));
  }

  lemma MapSizes(nodes: seq<Node>, tags: seq<Label>)
    requires MapOk(nodes, tags)
    ensures |nodes| == |tags| <= NIL
  {
  }

  // ------------------------------------------------------- setting a range

  /** Where an entry is stored: the root entry, or slot d of a node. */
  datatype Loc = Root | In(node: nat, d: nat)

  /**
   How many nodes setting a range below an entry of height h can allocate: one per level if the
   range starts with the entry's first page or covers its last one, else two but for the top.
   */
  function Cost(h: nat, edge: bool): nat
    requires h > 0
  {
    if edge then h else 2 * h - 1
  }

  /** How many nodes one slot of a node of level l can need. */
  function SlotNodes(l: nat, C: nat, index: nat, nb: nat): nat {
    if (Starts(index, l) && nb >= Pages(l)) || l == 0 then 0
    else Cost(l, Edge(l, C, index, nb))
  }

  /** Only the first and the last slot of a range can be partly in it, and so need nodes. */
  lemma SlotCost(l: nat, B: nat, C: nat, lo: nat, nb0: nat, index: nat, nb: nat)
    requires index + nb == lo + nb0 && nb > 0 && B <= C && C + Pages(l) <= B + Pages(l + 1) && Within(index, C, l)
    requires Starts(C, l) && Starts(B, l) && lo <= index && (index != lo ==> index == C)
    ensures var edge := Edge(l + 1, B, lo, nb0);
            var so_far := if index == lo || Starts(lo, l) then 0 else l;
            var slot := SlotNodes(l, C, index, nb);
            var left := index + nb - Min(index + nb, C + Pages(l));
            && so_far + slot <= (if edge then l else 2 * l)
            && (left > 0 ==> so_far + slot <= if Starts(lo, l) then 0 else l)
  {
    hide Pages, Starts;
    if Starts(index, l) {
      AlignedHere(C, l, index);
    }
  }

  class PhysPageMap {
    const levels: nat
    var root: Entry
    var nodes: seq<Node>
    var nodesAlloc: nat
    ghost var tags: seq<Label>

    constructor (levels: nat)
      requires levels > 0
      ensures Valid() && this.levels == levels && nodes == [] && root == Entry(1, NIL)
    {
      this.levels := levels;
      root, nodes, nodesAlloc, tags := Entry(1, NIL), [], 0, [];
    }

    ghost predicate Valid()
      reads this
    {
      levels > 0 && MapOk(nodes, tags) && root.skip == 1 && EntryOk(tags, root, levels, 0)
    }

    /** The section that a page is mapped to. */
    function Section(page: nat): nat
      reads this
    {
      Find(nodes, root, levels, page)
    }

    function EntryAt(loc: Loc): Entry
      reads this
    {
      match loc
      case Root => root
      case In(n, d) => if n < |nodes| && d < |nodes[n]| then nodes[n][d] else root
    }

    /** The entry at loc has height h and stands for the pages from B on. */
    ghost predicate Located(loc: Loc, h: nat, B: nat)
      reads this
    {
      match loc
      case Root => h == levels && B == 0
      case In(n, d) => n < |nodes| && n < |tags| && d < L2_SIZE && tags[n].level == h && B == Child(tags[n].base, h, d)
    }

    /** `phys_map_node_reserve`; the new room is taken to be available. */
    method Reserve(n: nat)
      modifies this`nodesAlloc
      ensures |nodes| + n <= nodesAlloc && old(nodesAlloc) <= nodesAlloc
      ensures nodesAlloc != old(nodesAlloc) ==> old(nodesAlloc) < |nodes| + n && 2 * old(nodesAlloc) <= nodesAlloc
    {
      if |nodes| + n > nodesAlloc {
        nodesAlloc := if 2 * nodesAlloc > 16 then 2 * nodesAlloc else 16;
        nodesAlloc := if nodesAlloc > |nodes| + n then nodesAlloc else |nodes| + n;
      }
    }

    /** The assignment `lp->ptr = phys_map_node_alloc(map, level == 0)`. */
    method AllocAt(loc: Loc, level: nat, ghost B: nat)
      requires MapOk(nodes, tags) && |tags| == |nodes| < nodesAlloc && |nodes| < NIL
      requires Located(loc, level + 1, B) && Starts(B, level + 1) && EntryAt(loc) == Entry(1, NIL)
      modifies this`root, this`nodes, this`tags
      ensures MapOk(nodes, tags) && tags == old(tags) + [Label(level, B)] && |tags| == |nodes|
      ensures |nodes| == |old(nodes)| + 1 && |nodes[|old(nodes)|]| == L2_SIZE
      ensures EntryAt(loc) == Entry(1, |old(nodes)|) && Located(loc, level + 1, B)
      ensures forall page :: Reach(nodes, |old(nodes)|, level, page) == UNASSIGNED
      ensures loc.In? ==> root == old(root) && nodes[loc.node] == old(nodes[loc.node])[loc.d := Entry(1, |old(nodes)|)]
      ensures forall m | 0 <= m < |old(nodes)| && !(loc.In? && m == loc.node) :: nodes[m] == old(nodes)[m]
    {
      hide Pages, Digit, Find, EntryOk, Starts, Child;
      AllocOk(nodes, tags, level, B);
      ghost var n := |nodes|;
      nodes := nodes + [FreshNode(level)];
      tags := tags + [Label(level, B)];
      assert |nodes[n]| == L2_SIZE;
      var e := Entry(1, |nodes| - 1);
      NewEntryOk(tags, level, B);
      match loc
      case Root =>
        root := e;
      case In(m, d) =>
        ghost var before := nodes;
        NodeSize(nodes, tags, m);
        PutOk(nodes, tags, m, d, e);
        nodes := nodes[m := nodes[m][d := e]];
        forall page ensures Reach(nodes, n, level, page) == UNASSIGNED {
          FreshReach(before, nodes, n, level, page);
        }
    }

    /**
     `phys_page_set_level` on the entry at loc, which stands for the pages from B on: all pages of
     the range that lie below the entry are set, no other page's walk changes, and the number of
     nodes allocated stays within the cost.
     */
    method SetLevel(loc: Loc, index0: nat, nb0: nat, leaf: nat, level: nat, ghost B: nat) returns (index: nat, nb: nat)
      requires MapOk(nodes, tags) && |tags| == |nodes|
      requires Located(loc, level + 1, B) && Starts(B, level + 1)
      requires EntryAt(loc).skip == 1 && EntryOk(tags, EntryAt(loc), level + 1, B)
      requires Within(index0, B, level + 1) && IsSection(leaf)
      requires Unmapped(nodes, EntryAt(loc), level + 1, B, index0, index0 + nb0)
      requires |nodes| + Cost(level + 1, Edge(level + 1, B, index0, nb0)) <= Min(nodesAlloc, NIL)
      modifies this`root, this`nodes, this`tags
      ensures MapOk(nodes, tags) && Extends(old(tags), tags) && |tags| == |nodes|
      ensures |nodes| <= |old(nodes)| + Cost(level + 1, Edge(level + 1, B, index0, nb0))
      ensures index + nb == index0 + nb0 && index == Min(index0 + nb0, B + Pages(level + 1))
      ensures EntryAt(loc).skip == 1 && EntryOk(tags, EntryAt(loc), level + 1, B) && Located(loc, level + 1, B)
      ensures SetTo(old(nodes), old(EntryAt(loc)), nodes, EntryAt(loc), level + 1, B, index0, index, leaf)
      ensures loc.In? ==> root == old(root) && OneSlot(old(nodes[loc.node]), nodes[loc.node], loc.d)
      ensures forall m | 0 <= m < |old(nodes)| && !Below(old(tags)[m], B, level + 1) && !(loc.In? && m == loc.node) ::
                nodes[m] == old(nodes)[m]
      decreases level, 2
    {
      hide MapOk, Find, Digit, EntryOk, Starts, Child, Pages, Unmapped, SetTo, Reach;
      ghost var was, wasTags, e0 := nodes, tags, EntryAt(loc);
      OpenEntry(tags, e0, level + 1, B);
      if loc.In? {
        NodeSize(nodes, tags, loc.node);
      }
      if EntryAt(loc).ptr == NIL {
        AllocAt(loc, level, B);
      }
      var n := EntryAt(loc).ptr;
      ghost var nodes0, tags0 := nodes, tags;
      StartSet(was, e0, nodes0, tags0, n, B, level, index0, index0 + nb0, leaf);
      index, nb := SetSlots(n, index0, nb0, leaf, level, B);
      FinishSet(was, e0, nodes0, tags0, nodes, tags, n, B, level, index0, index, leaf);
      MapSizes(nodes0, tags0);
      assert forall m | 0 <= m < |was| :: tags0[m] == wasTags[m];
    }

    /** The loop of `phys_page_set_level` over the slots of node n. */
    method SetSlots(n: nat, index0: nat, nb0: nat, leaf: nat, level: nat, ghost B: nat) returns (index: nat, nb: nat)
      requires MapOk(nodes, tags) && |tags| == |nodes| && IsSection(leaf)
      requires Setting(nodes, tags, nodes, tags, n, B, level, index0, index0, leaf)
      requires Starts(B, level + 1) && Within(index0, B, level + 1)
      requires UnmappedIn(nodes, n, level, B, index0, index0 + nb0)
      requires |nodes| + Cost(level + 1, Edge(level + 1, B, index0, nb0)) - 1 <= Min(nodesAlloc, NIL)
      modifies this`root, this`nodes, this`tags
      ensures MapOk(nodes, tags) && |tags| == |nodes| && root == old(root)
      ensures Setting(old(nodes), old(tags), nodes, tags, n, B, level, index0, index, leaf)
      ensures index + nb == index0 + nb0 && index == Min(index0 + nb0, B + Pages(level + 1))
      ensures |nodes| <= |old(nodes)| + Cost(level + 1, Edge(level + 1, B, index0, nb0)) - 1
      decreases level, 1
    {
      hide MapOk, Find, Digit, EntryOk, Starts, Child, Pages, Unmapped, SetTo, Reach, UnmappedIn;
      ghost var edge := Edge(level + 1, B, index0, nb0);
      ghost var nodes0, tags0 := nodes, tags;
      var d: nat := Digit(index0, level);
      index, nb := index0, nb0;
      DigitChild(B, level, index0);
      while nb > 0 && d < L2_SIZE
        invariant d <= L2_SIZE && index + nb == index0 + nb0 && index0 <= index <= B + Pages(level + 1)
        invariant nb > 0 && d < L2_SIZE ==> Within(index, Child(B, level, d), level)
        invariant nb > 0 && d == L2_SIZE ==> index == B + Pages(level + 1)
        invariant index != index0 && nb > 0 && d < L2_SIZE ==> index == Child(B, level, d)
        invariant MapOk(nodes, tags) && |tags| == |nodes| && root == old(root)
        invariant Setting(nodes0, tags0, nodes, tags, n, B, level, index0, index, leaf)
        invariant |nodes| <= |nodes0| + if nb == 0 then (if edge then level else 2 * level)
                                        else if index == index0 || Starts(index0, level) then 0 else level
      {
        ChildStarts(B, level, d);
        SlotCost(level, B, Child(B, level, d), index0, nb0, index, nb);
        index, nb := SetSlot(n, d, index0, index, nb, leaf, level, nodes0, tags0, B);
        d := d + 1;
      }
    }

    /** The body of that loop: the d-th slot becomes a leaf, or the map below it is set. */
    method SetSlot(n: nat, d: nat, ghost lo: nat, cur: nat, nb0: nat, leaf: nat, level: nat,
                   ghost nodes0: seq<Node>, ghost tags0: seq<Label>, ghost B: nat) returns (index: nat, nb: nat)
      requires MapOk(nodes, tags) && |tags| == |nodes| && IsSection(leaf) && n < |nodes| && |nodes[n]| == L2_SIZE
      requires Setting(nodes0, tags0, nodes, tags, n, B, level, lo, cur, leaf)
      requires UnmappedIn(nodes0, n, level, B, lo, cur + nb0)
      requires lo <= cur && nb0 > 0 && d < L2_SIZE && Starts(B, level + 1) && Within(cur, Child(B, level, d), level)
      requires |nodes| + SlotNodes(level, Child(B, level, d), cur, nb0) <= Min(nodesAlloc, NIL)
      modifies this`root, this`nodes, this`tags
      ensures MapOk(nodes, tags) && |tags| == |nodes| && root == old(root)
      ensures Setting(nodes0, tags0, nodes, tags, n, B, level, lo, index, leaf)
      ensures index + nb == cur + nb0 && index == Min(cur + nb0, Child(B, level, d) + Pages(level))
      ensures |nodes| <= |old(nodes)| + SlotNodes(level, Child(B, level, d), cur, nb0)
      decreases level, 0
    {
      hide MapOk, Find, Digit, EntryOk, Starts, Child, Pages, Unmapped, SetTo, Reach, UnmappedIn;
      ChildStarts(B, level, d);
      if Starts(cur, level) && nb0 >= Pages(level) {
        AlignedHere(Child(B, level, d), level, cur);
        SetLeaf(nodes0, tags0, nodes, tags, n, B, level, lo, leaf, d);
        nodes := nodes[n := nodes[n][d := Entry(0, leaf)]];
        index := cur + Pages(level);
        nb := nb0 - Pages(level);
      } else {
        ghost var nodes1, tags1 := nodes, tags;
        ChildOpen(nodes0, tags0, nodes, tags, n, B, level, lo, cur, nb0, leaf, d);
        MapSizes(nodes0, tags0);
        assert Located(In(n, d), level, Child(B, level, d));
        index, nb := SetLevel(In(n, d), cur, nb0, leaf, level - 1, Child(B, level, d));
        SetChild(nodes0, tags0, nodes1, tags1, nodes, tags, n, B, level, lo, cur, leaf, d, index);
      }
    }

    /**
     `phys_page_set`: pages that were unassigned are mapped to the leaf, every other page keeps its
     section, and the reservation is never exhausted: at most two nodes per level are used.
     */
    method SetPages(index: nat, nb: nat, leaf: nat)
      requires Valid() && IsSection(leaf) && index < Pages(levels)
      requires forall p: nat | index <= p < index + nb && p < Pages(levels) :: Section(p) == UNASSIGNED
      requires |nodes| + 3 * levels <= NIL
      modifies this
      ensures Valid()
      ensures forall p: nat | p < Pages(levels) ::
                Section(p) == if index <= p < index + nb then leaf else old(Section(p))
      ensures |nodes| <= |old(nodes)| + 2 * levels - 1 <= nodesAlloc
    {
      hide MapOk, Find, Digit, EntryOk, Starts, Child, Pages, Located;
      ghost var was, e0 := nodes, root;
      forall p: nat | Within(p, 0, levels) && index <= p < index + nb
        ensures Find(nodes, root, levels, p) == UNASSIGNED
      {
        assert Section(p) == UNASSIGNED;
      }
      Reserve(3 * levels);
      RootLocated();
      ZeroStarts(levels);
      MapSizes(nodes, tags);
      assert Unmapped(nodes, root, levels, 0, index, index + nb);
      var _, _ := SetLevel(Root, index, nb, leaf, levels - 1, 0);
      assert SetTo(was, e0, nodes, root, levels, 0, index, Min(index + nb, Pages(levels)), leaf);
      forall p: nat | p < Pages(levels)
        ensures Section(p) == if index <= p < index + nb then leaf else Find(was, e0, levels, p)
      {
        assert Within(p, 0, levels);
      }
    }

    lemma RootLocated()
      ensures Located(Root, levels, 0)
    {
    }
  }

  lemma OpenEntry(tags: seq<Label>, e: Entry, h: nat, B: nat)
    requires EntryOk(tags, e, h, B) && e.skip != 0
    ensures h > 0 && e.skip == 1 && (e.ptr == NIL || (e.ptr < |tags| && tags[e.ptr] == Label(h - 1, B)))
  {
  }

  lemma FindIsReach(nodes: seq<Node>, n: nat, l: nat, page: nat)
    requires n < |nodes| && |nodes[n]| == L2_SIZE && n != NIL
    ensures Find(nodes, Entry(1, n), l + 1, page) == Reach(nodes, n, l, page)
  {
  }

  lemma StartSet(was: seq<Node>, e0: Entry, nodes: seq<Node>, tags: seq<Label>,
                 n: nat, B: nat, l: nat, lo: nat, hi: nat, leaf: nat)
    requires MapOk(nodes, tags) && n < |nodes| == |tags| && tags[n] == Label(l, B) && e0.skip == 1
    requires Unmapped(was, e0, l + 1, B, lo, hi)
    requires if e0.ptr == NIL then |nodes[n]| == L2_SIZE && forall page :: Reach(nodes, n, l, page) == UNASSIGNED
             else n == e0.ptr && was == nodes
    ensures Setting(nodes, tags, nodes, tags, n, B, l, lo, lo, leaf)
    ensures UnmappedIn(nodes, n, l, B, lo, hi)
    ensures Before(was, e0, nodes, n, l, B)
  {
    hide MapOk, Digit, Pages;
    NodeSize(nodes, tags, n);
    forall p: nat | Within(p, B, l + 1)
      ensures Find(was, e0, l + 1, p) == Reach(nodes, n, l, p)
    {
      if e0.ptr != NIL {
        FindIsReach(nodes, n, l, p);
      }
    }
  }

  /** The node's walks are those of the entry that led to it, or led nowhere. */
  ghost predicate Before(was: seq<Node>, e0: Entry, nodes: seq<Node>, n: nat, l: nat, B: nat)
    requires n < |nodes| && |nodes[n]| == L2_SIZE
  {
    forall p: nat | Within(p, B, l + 1) :: Find(was, e0, l + 1, p) == Reach(nodes, n, l, p)
  }

  lemma FinishSet(was: seq<Node>, e0: Entry, nodes0: seq<Node>, tags0: seq<Label>, nodes: seq<Node>, tags: seq<Label>,
                  n: nat, B: nat, l: nat, lo: nat, cur: nat, leaf: nat)
    requires Setting(nodes0, tags0, nodes, tags, n, B, l, lo, cur, leaf) && n != NIL
    requires Before(was, e0, nodes0, n, l, B)
    ensures SetTo(was, e0, nodes, Entry(1, n), l + 1, B, lo, cur, leaf)
    ensures EntryOk(tags, Entry(1, n), l + 1, B)
  {
    hide MapOk, Digit, Pages;
    MapSizes(nodes0, tags0);
    MapSizes(nodes, tags);
    var h := l + 1;
    forall p: nat | Within(p, B, h)
      ensures Find(nodes, Entry(1, n), h, p) == if lo <= p < cur then leaf else Find(was, e0, h, p)
    {
      FindIsReach(nodes, n, l, p);
      assert Reach(nodes, n, l, p) == if lo <= p < cur then leaf else Reach(nodes0, n, l, p);
    }
  }

  lemma ZeroStarts(h: nat)
    ensures Starts(0, h)
  {
    DivUnique(0, Pages(h), 0, 0);
  }

  /** The range starts with the first page below the entry, or covers the last one. */
  predicate Edge(h: nat, B: nat, index: nat, nb: nat) {
    index == B || B + Pages(h) <= index + nb
  }

  ghost predicate Unmapped(nodes: seq<Node>, e: Entry, h: nat, B: nat, lo: nat, hi: nat) {
    forall p: nat | Within(p, B, h) && lo <= p < hi :: Find(nodes, e, h, p) == UNASSIGNED
  }

  ghost predicate UnmappedIn(nodes: seq<Node>, n: nat, l: nat, B: nat, lo: nat, hi: nat)
    requires n < |nodes| && |nodes[n]| == L2_SIZE
  {
    forall p: nat | Within(p, B, l + 1) && lo <= p < hi :: Reach(nodes, n, l, p) == UNASSIGNED
  }

  /** The pages from lo up to hi now lead to the leaf, and all other pages below e lead where they did. */
  ghost predicate SetTo(nodes: seq<Node>, e: Entry, nodes': seq<Node>, e': Entry, h: nat, B: nat, lo: nat, hi: nat,
                        leaf: nat) {
    forall p: nat | Within(p, B, h) ::
      Find(nodes', e', h, p) == if lo <= p < hi then leaf else Find(nodes, e, h, p)
  }

  lemma AlignedHere(C: nat, l: nat, index: nat)
    requires Starts(C, l) && Within(index, C, l) && Starts(index, l)
    ensures index == C
  {
    DivUnique(index, Pages(l), C / Pages(l), index - C);
  }

  /** A child that is only partly in the range has not been mapped as a whole. */
  lemma ChildOpen(nodes0: seq<Node>, tags0: seq<Label>, nodes: seq<Node>, tags: seq<Label>,
                  n: nat, B: nat, l: nat, lo: nat, cur: nat, nb: nat, leaf: nat, d: nat)
    requires Setting(nodes0, tags0, nodes, tags, n, B, l, lo, cur, leaf) && d < L2_SIZE
    requires UnmappedIn(nodes0, n, l, B, lo, cur + nb) && lo <= cur && nb > 0
    requires Within(cur, Child(B, l, d), l) && !(Starts(cur, l) && nb >= Pages(l))
    ensures l > 0 && nodes[n][d].skip == 1 && EntryOk(tags, nodes[n][d], l, Child(B, l, d))
    ensures Unmapped(nodes, nodes[n][d], l, Child(B, l, d), cur, cur + nb)
  {
    hide MapOk, Digit, Starts, Child, Pages;
    MapSizes(nodes0, tags0);
    MapSizes(nodes, tags);
    NodeEntries(nodes, tags, n, d);
    ChildStarts(B, l, d);
    forall p: nat | Within(p, Child(B, l, d), l) && cur <= p < cur + nb
      ensures Find(nodes, nodes[n][d], l, p) == UNASSIGNED
    {
      DigitIs(B, l, d, p);
      assert Reach(nodes, n, l, p) == Reach(nodes0, n, l, p);
    }
    assert Find(nodes, nodes[n][d], l, cur) == UNASSIGNED;
    EveryPageStarts(cur);
  }

  lemma EveryPageStarts(page: nat)
    ensures Pages(0) == 1 && Starts(page, 0)
  {
  }

  lemma NodeEntries(nodes: seq<Node>, tags: seq<Label>, n: nat, d: nat)
    requires MapOk(nodes, tags) && n < |nodes| && d < L2_SIZE
    ensures |nodes[n]| == L2_SIZE && Starts(tags[n].base, tags[n].level + 1)
    ensures EntryOk(tags, nodes[n][d], tags[n].level, Child(tags[n].base, tags[n].level, d))
  {
    assert NodeOk(tags, nodes[n], tags[n]);
  }

  ghost predicate OneSlot(node: Node, node': Node, d: nat) {
    |node| == |node'| && d < |node| && node' == node[d := node'[d]]
  }

  lemma NewEntryOk(tags: seq<Label>, level: nat, B: nat)
    requires tags != [] && tags[|tags| - 1] == Label(level, B)
    ensures EntryOk(tags, Entry(1, |tags| - 1), level + 1, B)
  {
  }

  lemma NodeSize(nodes: seq<Node>, tags: seq<Label>, n: nat)
    requires MapOk(nodes, tags) && n < |nodes|
    ensures |nodes[n]| == L2_SIZE && Starts(tags[n].base, tags[n].level + 1)
  {
    assert NodeOk(tags, nodes[n], tags[n]);
  }

  lemma FreshReach(nodes: seq<Node>, nodes': seq<Node>, n: nat, level: nat, page: nat)
    requires n < |nodes| && n < |nodes'| && nodes[n] == nodes'[n] == FreshNode(level)
    ensures Reach(nodes', n, level, page) == UNASSIGNED
  {
    hide Digit;
  }
}
