/**
 Feeding a flat view into the dispatch table (`mem_add`, qemu/mem.c): a section is split at page
 boundaries, whole pages go into the page map, and the rest into sub-page tables.
 */
module MemDispatch {
  import opened Helpers
  import opened MemoryRegions
  import opened FlatViews
  import opened RadixMap

  const PAGE: nat := 4096
  const MAX_SECTIONS: nat := 4096

  /** More levels than any address space needs: 64-bit addresses take 6. */
  const MAX_LEVELS: nat := 64

  /** The section numbers below this are fixed: unassigned, not dirty, ROM, watch. */
  const FIXED: nat := 4

  /** Section numbers by byte of a page. */
  type SubPage = seq<nat>

  // ------------------------------------------------------- the abstract table

  /** The page map, the sections, and the sub-page tables by section number, as values. */
  datatype Table = Table(pages: seq<nat>, sections: seq<FlatRange>, subs: map<nat, SubPage>)

  function Index(t: Table, a: nat): nat
    requires a / PAGE < |t.pages|
  {
    var s := t.pages[a / PAGE];
    if s in t.subs && |t.subs[s]| == PAGE then t.subs[s][a % PAGE] else s
  }

  /** What an access at address a reaches. */
  function Resolve(t: Table, a: nat): Option<Target>
    requires a / PAGE < |t.pages|
  {
    var i := Index(t, a);
    if i == UNASSIGNED || i >= |t.sections| then None else Some(TargetOf(t.sections[i], a))
  }

  predicate TableOk(t: Table) {
    && FIXED <= |t.sections| <= MAX_SECTIONS
    && (forall p | 0 <= p < |t.pages| :: t.pages[p] == UNASSIGNED || FIXED <= t.pages[p] < |t.sections|)
    && (forall s <- t.subs :: FIXED <= s < |t.sections| && |t.subs[s]| == PAGE)
    && (forall s <- t.subs, k | 0 <= k < |t.subs[s]| ::
         t.subs[s][k] == UNASSIGNED || FIXED <= t.subs[s][k] < |t.sections|)
    // a sub-page table serves one page only
    && (forall p, q | 0 <= p < q < |t.pages| && t.pages[p] in t.subs :: t.pages[p] != t.pages[q])
  }

  /** Every sub-page table in use has something in it. */
  predicate SubsUsed(t: Table) {
    forall p | 0 <= p < |t.pages| && t.pages[p] in t.subs :: NotEmpty(t.subs[t.pages[p]])
  }

  predicate NotEmpty(sub: SubPage) {
    exists k :: 0 <= k < |sub| && sub[k] != UNASSIGNED
  }

  /** Every sub-page table in use but that of page p has something in it. */
  predicate OthersUsed(t: Table, p: nat) {
    forall q | 0 <= q < |t.pages| && q != p && t.pages[q] in t.subs :: NotEmpty(t.subs[t.pages[q]])
  }

  /** The table answers at every address as the view does, and as `own` does below b. */
  ghost predicate Answers(t: Table, view: seq<FlatRange>, own: FlatRange, b: int) {
    forall a: nat | a / PAGE < |t.pages| :: Resolve(t, a) == OrElse(At(view, a), Own(own, b, a))
  }

  /** The view leaves the range of `own` free. */
  ghost predicate Room(view: seq<FlatRange>, own: FlatRange) {
    0 <= own.addr.start && Bare(view, own.addr.start, End(own.addr))
  }

  lemma NothingAt(t: Table, view: seq<FlatRange>, own: FlatRange, b: nat, a: nat)
    requires Answers(t, view, own, b) && Room(view, own) && own.addr.start <= b <= a < End(own.addr)
             && a / PAGE < |t.pages|
    ensures Resolve(t, a) == None
  {
    hide At, Resolve;
  }

  /** A page that the section is still to cover as a whole is unassigned. */
  lemma WholePageFree(t: Table, view: seq<FlatRange>, own: FlatRange, b: nat, p: nat)
    requires TableOk(t) && SubsUsed(t) && Answers(t, view, own, b) && Room(view, own) && p < |t.pages|
    requires own.addr.start <= b <= p * PAGE && (p + 1) * PAGE <= End(own.addr)
    ensures t.pages[p] == UNASSIGNED
  {
    hide Answers, Room;
    var s := t.pages[p];
    if s in t.subs {
      assert NotEmpty(t.subs[s]);
      var k :| 0 <= k < |t.subs[s]| && t.subs[s][k] != UNASSIGNED;
      assert (p * PAGE + k) / PAGE == p && (p * PAGE + k) % PAGE == k;
      NothingAt(t, view, own, b, p * PAGE + k);
    } else {
      NothingAt(t, view, own, b, p * PAGE);
    }
  }

  /** The assertion of `register_subpage`: the page is unassigned or already has a sub-page table. */
  lemma SubPageFree(t: Table, view: seq<FlatRange>, own: FlatRange, b: nat)
    requires TableOk(t) && Answers(t, view, own, b) && Room(view, own) && b / PAGE < |t.pages|
    requires own.addr.start <= b < End(own.addr)
    ensures t.pages[b / PAGE] == UNASSIGNED || t.pages[b / PAGE] in t.subs
  {
    hide Answers, Room;
    NothingAt(t, view, own, b, b);
  }

  // --------------------------------------------------------- steps on the table

  /** Whole pages are mapped to a new section. */
  function SetMulti(t: Table, p: nat, n: nat, fr: FlatRange): Table {
    Table(seq(|t.pages|, q requires 0 <= q < |t.pages| => if p <= q < p + n then |t.sections| else t.pages[q]),
          t.sections + [fr], t.subs)
  }

  /** A page gets an empty sub-page table of its own. */
  function NewSub(t: Table, p: nat, fr: FlatRange): Table
    requires p < |t.pages|
  {
    Table(t.pages[p := |t.sections|], t.sections + [fr], t.subs[|t.sections| := seq(PAGE, _ => UNASSIGNED)])
  }

  /** `subpage_register` */
  function SubRegistered(sub: SubPage, lo: nat, hi: nat, section: nat): SubPage {
    seq(|sub|, k requires 0 <= k < |sub| => if lo <= k <= hi then section else sub[k])
  }

  /** Part of a page is mapped to a new section. */
  function FillSub(t: Table, p: nat, lo: nat, hi: nat, fr: FlatRange): Table
    requires p < |t.pages| && t.pages[p] in t.subs
  {
    var s := t.pages[p];
    Table(t.pages, t.sections + [fr], t.subs[s := SubRegistered(t.subs[s], lo, hi, |t.sections|)])
  }

  lemma MultiOk(t: Table, view: seq<FlatRange>, own: FlatRange, p: nat, n: nat)
    requires TableOk(t) && SubsUsed(t) && |t.sections| < MAX_SECTIONS && p + n <= |t.pages|
    requires Answers(t, view, own, p * PAGE) && Room(view, own)
    requires own.addr.start <= p * PAGE && (p + n) * PAGE <= End(own.addr)
    ensures var u := SetMulti(t, p, n, Piece(own, p * PAGE, n * PAGE));
            TableOk(u) && SubsUsed(u) && Answers(u, view, own, (p + n) * PAGE)
  {
    var u := SetMulti(t, p, n, Piece(own, p * PAGE, n * PAGE));
    hide At, Bare;
    forall a: nat | a / PAGE < |u.pages| ensures Resolve(u, a) == OrElse(At(view, a), Own(own, (p + n) * PAGE, a)) {
      assert Resolve(t, a) == OrElse(At(view, a), Own(own, p * PAGE, a));
      if p <= a / PAGE < p + n {
        assert p * PAGE <= a < (p + n) * PAGE;
        assert At(view, a) == None by { RoomAt(view, own, a); }
      }
    }
  }

  lemma RoomAt(view: seq<FlatRange>, own: FlatRange, a: int)
    requires Room(view, own) && own.addr.start <= a < End(own.addr)
    ensures At(view, a) == None
  {
    hide At;
  }

  /** An empty sub-page table changes no answer. */
  lemma NewSubOk(t: Table, view: seq<FlatRange>, own: FlatRange, b: int, p: nat, fr: FlatRange)
    requires TableOk(t) && SubsUsed(t) && |t.sections| < MAX_SECTIONS && p < |t.pages| && t.pages[p] == UNASSIGNED
    requires Answers(t, view, own, b)
    ensures var u := NewSub(t, p, fr);
            TableOk(u) && Answers(u, view, own, b) && u.pages[p] in u.subs && OthersUsed(u, p)
  {
    var u := NewSub(t, p, fr);
    hide At;
    forall a: nat | a / PAGE < |u.pages| ensures Resolve(u, a) == Resolve(t, a) {
    }
    forall a: nat | a / PAGE < |u.pages| ensures Resolve(u, a) == OrElse(At(view, a), Own(own, b, a)) {
      assert Resolve(t, a) == OrElse(At(view, a), Own(own, b, a));
    }
  }

  lemma FillSubOk(t: Table, view: seq<FlatRange>, own: FlatRange, b: nat, e: nat)
    requires TableOk(t) && |t.sections| < MAX_SECTIONS && b / PAGE < |t.pages| && t.pages[b / PAGE] in t.subs
    requires Answers(t, view, own, b) && Room(view, own)
    requires own.addr.start <= b < e <= End(own.addr) && e <= (b / PAGE + 1) * PAGE
    requires OthersUsed(t, b / PAGE)
    ensures var u := FillSub(t, b / PAGE, b % PAGE, b % PAGE + (e - b) - 1, Piece(own, b, e - b));
            TableOk(u) && SubsUsed(u) && Answers(u, view, own, e)
  {
    var p := b / PAGE;
    var u := FillSub(t, p, b % PAGE, b % PAGE + (e - b) - 1, Piece(own, b, e - b));
    hide At, Bare;
    assert u.subs[u.pages[p]][b % PAGE] != UNASSIGNED;
    forall a: nat | a / PAGE < |u.pages| ensures Resolve(u, a) == OrElse(At(view, a), Own(own, e, a)) {
      assert Resolve(t, a) == OrElse(At(view, a), Own(own, b, a));
      if b <= a < e {
        assert At(view, a) == None by { RoomAt(view, own, a); }
        assert a / PAGE == p;
      } else if a / PAGE == p {
        assert a % PAGE < b % PAGE || b % PAGE + (e - b) <= a % PAGE;
      }
    }
  }

  // ---------------------------------------------------------------- the table

  /** The sections of all pages. */
  ghost function PageList(nodes: seq<Node>, root: Entry, levels: nat): (r: seq<nat>)
    ensures |r| == Pages(levels) && forall p: nat | p < Pages(levels) :: r[p] == Find(nodes, root, levels, p)
  {
    seq(Pages(levels), p requires 0 <= p < Pages(levels) => Find(nodes, root, levels, p))
  }

  const DUMMY := FlatRange(0, 0, AddrRange(0, TWO_64), false, false, 0)

  // --------------------------------------------------- sections and their pages

  /** Exactly the pages in the range of section n lead to it. */
  ghost predicate Exact(t: Table, n: nat)
    requires n < |t.sections|
  {
    var s := t.sections[n].addr;
    && s.start % PAGE == 0 && s.size % PAGE == 0
    && forall q | 0 <= q < |t.pages| :: t.pages[q] == n <==> Contains(s, q * PAGE)
  }

  ghost predicate OwnPages(t: Table) {
    forall q | 0 <= q < |t.pages| && t.pages[q] != UNASSIGNED :: t.pages[q] < |t.sections| && Exact(t, t.pages[q])
  }

  lemma MultiOwn(t: Table, own: FlatRange, p: nat, n: nat)
    requires TableOk(t) && OwnPages(t) && forall q | p <= q < p + n && q < |t.pages| :: t.pages[q] == UNASSIGNED
    ensures OwnPages(SetMulti(t, p, n, Piece(own, p * PAGE, n * PAGE)))
  {
    var u := SetMulti(t, p, n, Piece(own, p * PAGE, n * PAGE));
    forall q | 0 <= q < |u.pages| && u.pages[q] != UNASSIGNED ensures Exact(u, u.pages[q]) {
      if !(p <= q < p + n) {
        assert Exact(t, t.pages[q]);
      }
    }
  }

  lemma NewSubOwn(t: Table, p: nat, fr: FlatRange)
    requires TableOk(t) && OwnPages(t) && p < |t.pages| && t.pages[p] == UNASSIGNED
    requires fr.addr == AddrRange(p * PAGE, PAGE)
    ensures OwnPages(NewSub(t, p, fr))
  {
    var u := NewSub(t, p, fr);
    forall q | 0 <= q < |u.pages| && u.pages[q] != UNASSIGNED ensures Exact(u, u.pages[q]) {
      if q != p {
        assert Exact(t, t.pages[q]);
      }
    }
  }

  lemma FillSubOwn(t: Table, p: nat, lo: nat, hi: nat, fr: FlatRange)
    requires OwnPages(t) && p < |t.pages| && t.pages[p] in t.subs
    ensures OwnPages(FillSub(t, p, lo, hi, fr))
  {
    var u := FillSub(t, p, lo, hi, fr);
    forall q | 0 <= q < |u.pages| && u.pages[q] != UNASSIGNED ensures Exact(u, u.pages[q]) {
      assert Exact(t, t.pages[q]);
    }
  }

  /** The section that the page leads to, if any, has the address in its range. */
  predicate Covered(t: Table, a: nat)
    requires a / PAGE < |t.pages|
  {
    var n := t.pages[a / PAGE];
    n == UNASSIGNED || (n < |t.sections| && Contains(t.sections[n].addr, a))
  }

  /** What an access reaches if the section that its page leads to is compared with the address. */
  function Checked(t: Table, a: nat): Option<Target>
    requires a / PAGE < |t.pages|
  {
    if Covered(t, a) then Resolve(t, a) else None
  }

  lemma PageStart(r: AddrRange, a: nat)
    requires r.start % PAGE == 0 && r.size % PAGE == 0
    ensures Contains(r, a / PAGE * PAGE) <==> Contains(r, a)
  {
  }

  lemma AlwaysCovered(t: Table, a: nat)
    requires OwnPages(t) && a / PAGE < |t.pages|
    ensures Covered(t, a)
  {
    var n := t.pages[a / PAGE];
    if n != UNASSIGNED {
      assert Exact(t, n);
      PageStart(t.sections[n].addr, a);
    }
  }

  /** A page that comes to the section of other pages shows no address of that section. */
  lemma StrayNotCovered(t: Table, u: Table, a: nat, q: nat)
    requires OwnPages(t) && |u.pages| == |t.pages| && u.sections == t.sections && a / PAGE < |t.pages| && q < |t.pages|
    requires t.pages[a / PAGE] == UNASSIGNED != u.pages[a / PAGE] == t.pages[q]
    ensures !Covered(u, a)
  {
    assert Exact(t, t.pages[q]);
    PageStart(t.sections[t.pages[q]].addr, a);
  }

  // ------------------------------------------------- what a section takes up

  predicate HasSub(t: Table, p: nat) { p < |t.pages| && t.pages[p] in t.subs }

  /** A part of page p takes a section, and another one if the page gets a sub-page table for it. */
  function SubCost(t: Table, p: nat): nat {
    if HasSub(t, p) then 1 else 2
  }

  /** The sections that [c, e) takes up when it is split at page boundaries. */
  function SplitCost(t: Table, c: nat, e: nat): nat
    decreases e - c
  {
    if c >= e then 0
    else if c % PAGE != 0 then SubCost(t, c / PAGE) + SplitCost(t, FirstPart(c, e), e)
    else if e - c < PAGE then SubCost(t, c / PAGE)
    else 1 + SplitCost(t, e - (e - c) % PAGE, e)
  }

  /** The end of the part before the first page boundary. */
  function FirstPart(c: nat, e: nat): nat {
    if e - c < PAGE - c % PAGE then e else c + (PAGE - c % PAGE)
  }

  lemma FirstPartEnds(c: nat, e: nat)
    requires c % PAGE != 0 && c < e
    ensures c < FirstPart(c, e) <= e && FirstPart(c, e) <= (c / PAGE + 1) * PAGE
    ensures FirstPart(c, e) == e || (FirstPart(c, e) % PAGE == 0 && FirstPart(c, e) / PAGE == c / PAGE + 1)
  {
  }

  /** From page p on, the same pages have sub-page tables. */
  ghost predicate SameFrom(t: Table, u: Table, p: nat) {
    forall q: nat | p <= q :: HasSub(t, q) <==> HasSub(u, q)
  }

  /** Each section comes with at most two nodes for each level of the map. */
  predicate NodesFit(nodes: nat, sections: nat, levels: nat) {
    levels <= MAX_LEVELS && nodes <= 2 * levels * sections
  }

  lemma NodesStep(nodes: nat, sections: nat, levels: nat, nodes': nat, sections': nat)
    requires NodesFit(nodes, sections, levels) && nodes' <= nodes + 2 * levels && sections < sections'
    ensures NodesFit(nodes', sections', levels)
  {
    MulMono(2 * levels, sections + 1, sections');
    Distribute(2 * levels, sections, 1);
  }

  lemma NodesRoom(nodes: nat, sections: nat, levels: nat)
    requires NodesFit(nodes, sections, levels) && sections <= MAX_SECTIONS
    ensures nodes + 3 * levels <= NIL
  {
    MulMono(2 * levels, sections, MAX_SECTIONS);
  }

  /** Every access is answered alike. */
  ghost predicate SameAnswers(t: Table, u: Table) {
    |t.pages| == |u.pages| && forall a: nat | a / PAGE < |t.pages| :: Resolve(t, a) == Resolve(u, a)
  }

  /** No page and no byte of a sub-page leads to this section. */
  predicate Unreferenced(t: Table, n: nat) {
    n !in t.pages && n !in t.subs && forall s <- t.subs :: n !in t.subs[s]
  }

  lemma NewSection(t: Table, fr: FlatRange)
    requires TableOk(t) && |t.sections| < MAX_SECTIONS
    ensures var u := t.(sections := t.sections + [fr]);
            TableOk(u) && SameAnswers(t, u) && Unreferenced(u, |t.sections|)
  {
  }

  class Dispatch {
    const pageMap: PhysPageMap
    var sections: seq<FlatRange>
    var subs: map<nat, SubPage>

    ghost function View(): Table
      reads this, pageMap
    {
      Table(PageList(pageMap.nodes, pageMap.root, pageMap.levels), sections, subs)
    }

    ghost predicate Valid()
      reads this, pageMap
    {
      && pageMap.Valid() && TableOk(View()) && SubsUsed(View()) && OwnPages(View())
      && NodesFit(|pageMap.nodes|, |sections|, pageMap.levels)
    }

    /** `mem_begin`: an empty page map and the fixed sections. */
    constructor (levels: nat)
      requires 0 < levels <= MAX_LEVELS
      ensures Valid() && fresh(pageMap) && pageMap.levels == levels && sections == seq(FIXED, _ => DUMMY)
      ensures Matches(View(), [])
    {
      hide Pages;
      pageMap := new PhysPageMap(levels);
      sections := [DUMMY, DUMMY, DUMMY, DUMMY];
      subs := map[];
      new;
      EmptyTable(View());
    }

    /** `phys_section_add`: a number that nothing leads to yet, and no answer changes. */
    method SectionAdd(fr: FlatRange) returns (n: nat)
      requires TableOk(View()) && |sections| < MAX_SECTIONS
      modifies this`sections
      ensures n == |old(sections)| && sections == old(sections) + [fr]
      ensures TableOk(View()) && SameAnswers(old(View()), View()) && Unreferenced(View(), n)
    {
      hide TableOk, SameAnswers, Unreferenced;
      NewSection(View(), fr);
      n := |sections|;
      sections := sections + [fr];
    }

    /** `register_multipage`: the pages from b on, b being a page boundary. */
    method RegisterMultipage(now: FlatRange, ghost view: seq<FlatRange>, ghost own: FlatRange)
      requires Valid() && |sections| < MAX_SECTIONS
      requires var b := now.addr.start;
               && 0 <= b && now == Piece(own, b, now.addr.size)
               && b % PAGE == 0 && now.addr.size % PAGE == 0 < now.addr.size
               && own.addr.start <= b && End(now.addr) <= End(own.addr) && End(now.addr) <= Pages(pageMap.levels) * PAGE
               && Room(view, own) && Answers(View(), view, own, b)
      modifies this, pageMap
      ensures Valid() && |sections| == |old(sections)| + 1
      ensures Answers(View(), view, own, End(now.addr)) && SameFrom(old(View()), View(), End(now.addr) / PAGE)
    {
      hide Pages, TableOk, SubsUsed, Answers, Room, Find, MapOk, EntryOk, NodesFit, SameAnswers, Unreferenced, OwnPages;
      ghost var t := View();
      var p := now.addr.start / PAGE;
      var n := now.addr.size / PAGE;
      forall q | p <= q < p + n ensures pageMap.Section(q) == UNASSIGNED {
        WholePageFree(t, view, own, now.addr.start, q);
        assert t.pages[q] == pageMap.Section(q);
      }
      MultiOk(t, view, own, p, n);
      assert forall q | p <= q < p + n && q < |t.pages| :: t.pages[q] == pageMap.Section(q);
      MultiOwn(t, own, p, n);
      FixedCount(t);
      NodesRoom(|pageMap.nodes|, |sections|, pageMap.levels);
      ghost var nodes := |pageMap.nodes|;
      var leaf := SectionAdd(now);
      pageMap.SetPages(p, n, leaf);
      NodesStep(nodes, |t.sections|, pageMap.levels, |pageMap.nodes|, |sections|);
      forall q: nat | q < Pages(pageMap.levels) ensures View().pages[q] == SetMulti(t, p, n, now).pages[q] {
        assert pageMap.Section(q) == if p <= q < p + n then leaf else t.pages[q];
      }
      assert View() == SetMulti(t, p, n, now);
    }

    /** The page gets an empty sub-page table, which changes no answer. */
    method NewSubpage(p: nat, ghost view: seq<FlatRange>, ghost own: FlatRange, ghost b: int)
      requires Valid() && |sections| < MAX_SECTIONS && p < Pages(pageMap.levels) && pageMap.Section(p) == UNASSIGNED
      requires Answers(View(), view, own, b)
      modifies this, pageMap
      ensures pageMap.Valid() && NodesFit(|pageMap.nodes|, |sections|, pageMap.levels)
              && |sections| == |old(sections)| + 1
      ensures TableOk(View()) && Answers(View(), view, own, b) && HasSub(View(), p) && OthersUsed(View(), p)
      ensures OwnPages(View())
      ensures SameFrom(old(View()), View(), p + 1)
    {
      hide Pages, TableOk, SubsUsed, Answers, Find, MapOk, EntryOk, NodesFit, SameAnswers, Unreferenced, OthersUsed,
           OwnPages;
      ghost var t := View();
      FixedCount(t);
      NodesRoom(|pageMap.nodes|, |sections|, pageMap.levels);
      ghost var nodes := |pageMap.nodes|;
      var subsection := FlatRange(0, 0, AddrRange(p * PAGE, PAGE), false, false, 0);
      assert t.pages[p] == pageMap.Section(p);
      NewSubOk(t, view, own, b, p, subsection);
      NewSubOwn(t, p, subsection);
      var s := SectionAdd(subsection);
      subs := subs[s := seq(PAGE, _ => UNASSIGNED)];
      pageMap.SetPages(p, 1, s);
      NodesStep(nodes, |t.sections|, pageMap.levels, |pageMap.nodes|, |sections|);
      forall q: nat | q < Pages(pageMap.levels) ensures View().pages[q] == NewSub(t, p, subsection).pages[q] {
        assert pageMap.Section(q) == if q == p then s else t.pages[q];
      }
      assert View() == NewSub(t, p, subsection);
      NewSubSame(t, p, subsection);
    }

    /** `register_subpage`: the bytes of one page from b on. */
    method RegisterSubpage(now: FlatRange, ghost view: seq<FlatRange>, ghost own: FlatRange)
      requires Valid() && 0 <= now.addr.start && |sections| + SubCost(View(), now.addr.start / PAGE) <= MAX_SECTIONS
      requires var b := now.addr.start;
               && now == Piece(own, b, now.addr.size) && 0 < now.addr.size && End(now.addr) <= (b / PAGE + 1) * PAGE
               && own.addr.start <= b && End(now.addr) <= End(own.addr) && End(now.addr) <= Pages(pageMap.levels) * PAGE
               && Room(view, own) && Answers(View(), view, own, b)
      modifies this, pageMap
      ensures Valid() && |sections| == |old(sections)| + SubCost(old(View()), now.addr.start / PAGE)
      ensures Answers(View(), view, own, End(now.addr)) && SameFrom(old(View()), View(), now.addr.start / PAGE + 1)
    {
      hide Pages, TableOk, SubsUsed, Answers, Room, Find, MapOk, EntryOk, NodesFit, OthersUsed, SameAnswers,
           Unreferenced, OwnPages;
      ghost var t := View();
      var b := now.addr.start;
      var p := b / PAGE;
      assert t.pages[p] == pageMap.Section(p);
      SubPageFree(t, view, own, b);
      FixedCount(t);
      AllOthersUsed(t, p);
      if pageMap.Section(p) !in subs {
        NewSubpage(p, view, own, b);
      }
      ghost var u := View();
      FillSubOk(u, view, own, b, End(now.addr));
      var s := pageMap.Section(p);
      assert u.pages[p] == s;
      FillSubOwn(u, p, b % PAGE, b % PAGE + now.addr.size - 1, now);
      var section := SectionAdd(now);
      NodesStep(|pageMap.nodes|, |u.sections|, pageMap.levels, |pageMap.nodes|, |sections|);
      var start := b % PAGE;
      subs := subs[s := SubRegistered(subs[s], start, start + now.addr.size - 1, section)];
      assert View() == FillSub(u, p, start, start + now.addr.size - 1, now);
    }

    /** The part of `mem_add` up to the first page boundary, if the section does not start at one. */
    method AddFirst(section: FlatRange, ghost view: seq<FlatRange>) returns (now: FlatRange)
      requires Valid() && section.addr.size > 0 && Room(view, section) && Matches(View(), view)
      requires End(section.addr) <= Pages(pageMap.levels) * PAGE
      requires |sections| + SplitCost(View(), section.addr.start, End(section.addr)) <= MAX_SECTIONS
      modifies this, pageMap
      ensures now.addr.start == section.addr.start && 0 <= now.addr.size <= section.addr.size
      ensures Valid() && Adding(old(View()), View(), view, section, End(now.addr))
    {
      hide Pages, TableOk, SubsUsed, Answers, Find, MapOk, EntryOk, Matches, Bare, NodesFit, SplitCost, SameFrom,
           HasSub, SubCost, OwnPages;
      ghost var t := View();
      MatchStart(t, view, section);
      now := section;
      if now.addr.start % PAGE != 0 {
        var left := PAGE - now.addr.start % PAGE;
        now := now.(addr := AddrRange(now.addr.start, Min(left, now.addr.size)));
        FirstStep(t, now.addr.start, End(section.addr));
        RegisterSubpage(now, view, section);
        SameAfter(t, View(), now.addr.start, End(section.addr));
      } else {
        now := now.(addr := AddrRange(now.addr.start, 0));
        SameSelf(t, now.addr.start / PAGE);
      }
    }

    /** The body of the loop of `mem_add`: what remains is a rest within a page, or starts with whole pages. */
    method AddNext(remain: FlatRange, section: FlatRange, ghost view: seq<FlatRange>, ghost t: Table)
      returns (now: FlatRange)
      requires Valid() && 0 <= section.addr.start <= remain.addr.start < End(remain.addr) == End(section.addr)
      requires remain == Piece(section, remain.addr.start, remain.addr.size) && Room(view, section)
      requires End(section.addr) <= Pages(pageMap.levels) * PAGE
      requires |t.sections| + SplitCost(t, section.addr.start, End(section.addr)) <= MAX_SECTIONS
      requires Adding(t, View(), view, section, remain.addr.start)
      modifies this, pageMap
      ensures now.addr.start == remain.addr.start && 0 < now.addr.size <= remain.addr.size
      ensures Valid() && Adding(t, View(), view, section, End(now.addr))
    {
      hide Pages, TableOk, SubsUsed, Answers, Find, MapOk, EntryOk, Matches, Bare, NodesFit, SplitCost, SameFrom,
           HasSub, SubCost, OwnPages;
      ghost var c, end := remain.addr.start, End(section.addr);
      ghost var u := View();
      NextStep(t, u, c, end);
      now := remain;
      if remain.addr.size < PAGE {
        RegisterSubpage(now, view, section);
      } else if remain.addr.start % PAGE != 0 {
        assert false;
      } else {
        now := now.(addr := AddrRange(now.addr.start, now.addr.size - now.addr.size % PAGE));
        RegisterMultipage(now, view, section);
        SameOn(t, u, View(), c / PAGE, End(now.addr) / PAGE);
      }
    }

    /**
     `mem_add`: the section is split into a first part up to a page boundary, whole pages, and a
     rest, which together tile it; afterwards the table answers for the section as well.  It takes
     up as many section numbers as it has parts and new sub-page tables.
     */
    method MemAdd(section: FlatRange, ghost view: seq<FlatRange>)
      requires Valid() && section.addr.size > 0 && Room(view, section) && Matches(View(), view)
      requires End(section.addr) <= Pages(pageMap.levels) * PAGE
      requires |sections| + SplitCost(View(), section.addr.start, End(section.addr)) <= MAX_SECTIONS
      modifies this, pageMap
      ensures Valid() && Matches(View(), view + [section])
      ensures |sections| == |old(sections)| + SplitCost(old(View()), section.addr.start, End(section.addr))
    {
      hide Pages, TableOk, SubsUsed, Answers, Find, MapOk, EntryOk, Matches, Bare, NodesFit, SplitCost, SameFrom,
           HasSub, SubCost, OwnPages;
      ghost var t := View();
      var now := AddFirst(section, view);
      var remain := section;
      while remain.addr.size != now.addr.size
        invariant section.addr.start <= remain.addr.start == now.addr.start && End(remain.addr) == End(section.addr)
        invariant 0 <= now.addr.size <= remain.addr.size
                  && remain == Piece(section, remain.addr.start, remain.addr.size)
        invariant Valid() && Adding(t, View(), view, section, End(now.addr))
        decreases remain.addr.size - now.addr.size
      {
        remain := Piece(section, End(now.addr), remain.addr.size - now.addr.size);
        now := AddNext(remain, section, view, t);
      }
      SplitCostDone(t, End(section.addr));
      MatchEnd(View(), view, section);
    }

    /**
     The add and nop callbacks for a whole view, in order: the table answers at every address
     exactly as the view does.
     */
    method AddView(view: seq<FlatRange>)
      requires Valid() && Matches(View(), []) && Flat(view)
      requires forall i | 0 <= i < |view| ::
                 0 <= view[i].addr.start <= End(view[i].addr) <= Pages(pageMap.levels) * PAGE
      requires |sections| + SectionsOf(view, |view|) <= MAX_SECTIONS
      modifies this, pageMap
      ensures Valid() && Matches(View(), view) && |sections| == |old(sections)| + SectionsOf(view, |view|)
    {
      hide Pages, TableOk, SubsUsed, Find, MapOk, EntryOk, Matches, Flat, Room, NodesFit, SplitCost, RangeSections,
           SectionsOf, OwnPages;
      assert view[..0] == [];
      SectionsNone(view);
      for i := 0 to |view|
        invariant Valid() && Matches(View(), view[..i])
        invariant |sections| == |old(sections)| + SectionsOf(view, i)
      {
        RoomForNext(view, i);
        SectionsMono(view, i, |view|);
        RangeCost(View(), view, i);
        MemAdd(view[i], view[..i]);
        assert view[..i + 1] == view[..i] + [view[i]];
      }
      assert view[..|view|] == view;
    }
  }

  // -------------------------------------------------- sections along a view

  /**
   The sections that a range takes up: those of its parts, and one for the sub-page table of each
   page that it covers in part, unless the range before it reaches into its first page.
   */
  function RangeSections(c: nat, e: nat, shared: bool): nat
    decreases e - c
  {
    if c >= e then 0
    else if c % PAGE != 0 then (if shared then 1 else 2) + RangeSections(FirstPart(c, e), e, false)
    else if e - c < PAGE then 2
    else 1 + RangeSections(e - (e - c) % PAGE, e, false)
  }

  /** Range i starts in a page into which the range before it reaches. */
  predicate SharesPage(view: seq<FlatRange>, i: nat)
    requires i < |view|
  {
    var s := view[i].addr.start;
    i > 0 && End(view[i - 1].addr) > s - s % PAGE
  }

  /** The sections that the first n ranges take up. */
  function SectionsOf(view: seq<FlatRange>, n: nat): nat
    requires n <= |view| && forall i | 0 <= i < n :: 0 <= view[i].addr.start <= End(view[i].addr)
  {
    if n == 0 then 0
    else SectionsOf(view, n - 1)
         + RangeSections(view[n - 1].addr.start, End(view[n - 1].addr), SharesPage(view, n - 1))
  }

  /** No range takes up more than five sections. */
  lemma RangeAtMostFive(c: nat, e: nat, shared: bool)
    ensures RangeSections(c, e, shared) <= 5
  {
    if c < e {
      var first := if c % PAGE != 0 then FirstPart(c, e) else c;
      if c % PAGE != 0 {
        FirstPartEnds(c, e);
      }
      if first < e && e - first >= PAGE {
        var last := e - (e - first) % PAGE;
        assert last % PAGE == 0 && e - last < PAGE;
        assert RangeSections(last, e, false) <= 2;
      }
      assert RangeSections(first, e, false) <= 3 || first == c;
    }
  }

  lemma {:induction false} AtMostFiveEach(view: seq<FlatRange>, n: nat)
    requires n <= |view| && forall i | 0 <= i < n :: 0 <= view[i].addr.start <= End(view[i].addr)
    ensures SectionsOf(view, n) <= 5 * n
  {
    hide RangeSections;
    if n > 0 {
      AtMostFiveEach(view, n - 1);
      RangeAtMostFive(view[n - 1].addr.start, End(view[n - 1].addr), SharesPage(view, n - 1));
    }
  }

  lemma SectionsNone(view: seq<FlatRange>)
    ensures SectionsOf(view, 0) == 0
  {
  }

  lemma {:induction false} SectionsMono(view: seq<FlatRange>, i: nat, n: nat)
    requires i < n <= |view| && forall k | 0 <= k < n :: 0 <= view[k].addr.start <= End(view[k].addr)
    ensures SectionsOf(view, i) + RangeSections(view[i].addr.start, End(view[i].addr), SharesPage(view, i)) ==
              SectionsOf(view, i + 1)
    ensures SectionsOf(view, i + 1) <= SectionsOf(view, n)
    decreases n
  {
    if i + 1 < n {
      SectionsMono(view, i, n - 1);
    }
  }

  /** A page at or above p has no sub-page table. */
  ghost predicate NoSubFrom(t: Table, p: nat) {
    forall q: nat | p <= q :: !HasSub(t, q)
  }

  lemma {:induction false} SplitCostAlone(t: Table, c: nat, e: nat)
    requires NoSubFrom(t, if c % PAGE == 0 then c / PAGE else c / PAGE + 1)
    ensures SplitCost(t, c, e) == RangeSections(c, e, HasSub(t, c / PAGE))
    decreases e - c
  {
    hide HasSub;
    if c < e {
      if c % PAGE != 0 {
        FirstPartEnds(c, e);
        SplitCostAlone(t, FirstPart(c, e), e);
        NotShared(t, FirstPart(c, e), e);
      } else if e - c < PAGE {
        assert !HasSub(t, c / PAGE);
      } else {
        var d := e - (e - c) % PAGE;
        assert d % PAGE == 0 && c / PAGE <= d / PAGE;
        SplitCostAlone(t, d, e);
        NotShared(t, d, e);
      }
    }
  }

  lemma NotShared(t: Table, c: nat, e: nat)
    requires c % PAGE == 0 || c == e
    ensures RangeSections(c, e, HasSub(t, c / PAGE)) == RangeSections(c, e, false)
  {
  }

  /** The pages of a range that lie behind all ranges so far have no sub-page table. */
  lemma FreshPage(t: Table, view: seq<FlatRange>, i: nat, q: nat)
    requires i < |view| && TableOk(t) && SubsUsed(t) && Matches(t, view[..i]) && Flat(view)
    requires 0 <= view[i].addr.start <= q * PAGE
    ensures !HasSub(t, q)
  {
    hide Matches, At;
    if HasSub(t, q) {
      assert NotEmpty(t.subs[t.pages[q]]);
      var k :| 0 <= k < |t.subs[t.pages[q]]| && t.subs[t.pages[q]][k] != UNASSIGNED;
      var a := q * PAGE + k;
      assert a / PAGE == q && a % PAGE == k;
      MatchesAt(t, view[..i], a);
      PrefixEnds(view, i, a);
    }
  }

  lemma MatchesAt(t: Table, view: seq<FlatRange>, a: nat)
    requires Matches(t, view) && a / PAGE < |t.pages|
    ensures Resolve(t, a) == At(view, a)
  {
  }

  lemma PrefixEnds(view: seq<FlatRange>, i: nat, a: int)
    requires Flat(view) && i < |view| && view[i].addr.start <= a
    ensures At(view[..i], a) == None
  {
    AtNone(view[..i], a);
  }

  /** The first page of a range has a sub-page table exactly if the range before it reaches into the page. */
  lemma FirstPage(t: Table, view: seq<FlatRange>, i: nat)
    requires i < |view| && TableOk(t) && SubsUsed(t) && Matches(t, view[..i]) && Flat(view) && 0 <= view[i].addr.start
    requires view[i].addr.start % PAGE != 0 && view[i].addr.start / PAGE < |t.pages|
    ensures HasSub(t, view[i].addr.start / PAGE) <==> SharesPage(view, i)
  {
    hide Matches, At;
    var s := view[i].addr.start;
    var p := s / PAGE;
    MatchesAt(t, view[..i], s);
    PrefixEnds(view, i, s);
    if HasSub(t, p) {
      assert NotEmpty(t.subs[t.pages[p]]);
      var k :| 0 <= k < |t.subs[t.pages[p]]| && t.subs[t.pages[p]][k] != UNASSIGNED;
      var a := p * PAGE + k;
      assert a / PAGE == p && a % PAGE == k;
      MatchesAt(t, view[..i], a);
      ReachesTo(view, i, a);
    }
    if SharesPage(view, i) {
      RangePositive(view, i - 1);
      var a := End(view[i - 1].addr) - 1;
      assert p * PAGE <= a < s by { assert End(view[i - 1].addr) <= s; }
      ShownLast(view, i, a);
      MatchesAt(t, view[..i], a);
    }
  }

  lemma ReachesTo(view: seq<FlatRange>, i: nat, a: int)
    requires Flat(view) && i <= |view| && At(view[..i], a).Some?
    ensures i > 0 && a < End(view[i - 1].addr)
  {
    if forall fr <- view[..i] :: !Contains(fr.addr, a) {
      AtNone(view[..i], a);
    } else {
      var j :| 0 <= j < i && Contains(view[j].addr, a);
      RangePositive(view, i - 1);
      assert j < i - 1 ==> End(view[j].addr) <= view[i - 1].addr.start;
    }
  }

  lemma ShownLast(view: seq<FlatRange>, i: nat, a: int)
    requires 0 < i <= |view| && Contains(view[i - 1].addr, a)
    ensures At(view[..i], a).Some?
  {
    assert view[..i] == view[..i - 1] + [view[i - 1]];
    AtAppend(view[..i - 1], [view[i - 1]], a);
  }

  lemma RangeCost(t: Table, view: seq<FlatRange>, i: nat)
    requires i < |view| && TableOk(t) && SubsUsed(t) && Matches(t, view[..i]) && Flat(view)
    requires 0 <= view[i].addr.start < End(view[i].addr) <= |t.pages| * PAGE
    ensures var s, e := view[i].addr.start, End(view[i].addr);
            SplitCost(t, s, e) == RangeSections(s, e, SharesPage(view, i))
  {
    hide TableOk, SubsUsed, Matches, Flat, SplitCost, HasSub;
    var s, e := view[i].addr.start, End(view[i].addr);
    var p := if s % PAGE == 0 then s / PAGE else s / PAGE + 1;
    forall q: nat | p <= q ensures !HasSub(t, q) {
      FreshPage(t, view, i, q);
    }
    SplitCostAlone(t, s, e);
    if s % PAGE != 0 {
      FirstPage(t, view, i);
    }
  }

  // ------------------------------------------------------ steps of `mem_add`

  /** From t to u, the section has been added up to c, where it has been split; the rest is still to be paid for. */
  ghost predicate Adding(t: Table, u: Table, view: seq<FlatRange>, section: FlatRange, c: int) {
    var s, e := section.addr.start, End(section.addr);
    && 0 <= s <= c <= e && Answers(u, view, section, c)
    && (c == e || (c % PAGE == 0 && SameFrom(t, u, c / PAGE)))
    && |u.sections| + SplitCost(t, c, e) == |t.sections| + SplitCost(t, s, e)
  }

  lemma FirstStep(t: Table, c: nat, e: nat)
    requires c % PAGE != 0 && c < e
    ensures c < FirstPart(c, e) <= e && FirstPart(c, e) <= (c / PAGE + 1) * PAGE
    ensures FirstPart(c, e) == c + Min(PAGE - c % PAGE, e - c)
    ensures FirstPart(c, e) == e || FirstPart(c, e) % PAGE == 0
    ensures SplitCost(t, c, e) == SubCost(t, c / PAGE) + SplitCost(t, FirstPart(c, e), e)
  {
    FirstPartEnds(c, e);
  }

  /** What a page boundary within the section leaves to do. */
  lemma NextStep(t: Table, u: Table, c: nat, e: nat)
    requires c % PAGE == 0 && c < e && SameFrom(t, u, c / PAGE)
    ensures SubCost(u, c / PAGE) == SubCost(t, c / PAGE)
    ensures if e - c < PAGE
            then SplitCost(t, c, e) == SubCost(t, c / PAGE) && SplitCost(t, e, e) == 0 && e <= (c / PAGE + 1) * PAGE
            else var d := e - (e - c) % PAGE; d % PAGE == 0 && c < d && SplitCost(t, c, e) == 1 + SplitCost(t, d, e)
  {
    hide HasSub;
  }

  lemma SplitCostDone(t: Table, e: nat)
    ensures SplitCost(t, e, e) == 0
  {
  }

  lemma SameSelf(t: Table, p: nat)
    ensures SameFrom(t, t, p)
  {
  }

  lemma SameOn(t: Table, u: Table, w: Table, p: nat, p': nat)
    requires SameFrom(t, u, p) && SameFrom(u, w, p') && p <= p'
    ensures SameFrom(t, w, p')
  {
    hide HasSub;
  }

  lemma SameAfter(t: Table, u: Table, c: nat, e: nat)
    requires SameFrom(t, u, c / PAGE + 1) && c % PAGE != 0 && c < e
    ensures FirstPart(c, e) == e || SameFrom(t, u, FirstPart(c, e) / PAGE)
  {
    hide HasSub;
    FirstPartEnds(c, e);
  }

  lemma NewSubSame(t: Table, p: nat, fr: FlatRange)
    requires TableOk(t) && p < |t.pages|
    ensures SameFrom(t, NewSub(t, p, fr), p + 1) && HasSub(NewSub(t, p, fr), p)
  {
  }

  lemma AllOthersUsed(t: Table, p: nat)
    requires SubsUsed(t)
    ensures OthersUsed(t, p)
  {
  }

  /** In a flat view, a range leaves room for itself among those before it. */
  lemma RoomForNext(view: seq<FlatRange>, i: nat)
    requires Flat(view) && i < |view| && 0 <= view[i].addr.start
    ensures Room(view[..i], view[i]) && view[i].addr.size > 0
  {
    assert view[i] in view;
    forall a | view[i].addr.start <= a < End(view[i].addr) ensures At(view[..i], a) == None {
      AtNone(view[..i], a);
    }
  }

  /** The table answers at every address as the view does. */
  ghost predicate Matches(t: Table, view: seq<FlatRange>) {
    forall a: nat | a / PAGE < |t.pages| :: Resolve(t, a) == At(view, a)
  }

  lemma MatchStart(t: Table, view: seq<FlatRange>, own: FlatRange)
    requires Matches(t, view)
    ensures Answers(t, view, own, own.addr.start)
  {
  }

  lemma MatchEnd(t: Table, view: seq<FlatRange>, own: FlatRange)
    requires Answers(t, view, own, End(own.addr))
    ensures Matches(t, view + [own])
  {
    forall a: nat | a / PAGE < |t.pages| ensures Resolve(t, a) == At(view + [own], a) {
      AtAppend(view, [own], a);
    }
  }

  lemma FixedCount(t: Table)
    requires TableOk(t)
    ensures FIXED <= |t.sections| <= MAX_SECTIONS && UNASSIGNED !in t.subs
  {
  }

  lemma EmptyTable(t: Table)
    requires (forall p | 0 <= p < |t.pages| :: t.pages[p] == UNASSIGNED) && |t.sections| == FIXED && t.subs == map[]
    ensures TableOk(t) && SubsUsed(t) && Matches(t, []) && OwnPages(t)
  {
  }
}

/** From the region tree to the dispatch table. */
module MemoryPipeline {
  import opened Helpers
  import opened MemoryRegions
  import opened FlatViews
  import opened RadixMap
  import opened MemDispatch
  import RadixCompact

  /** All ranges of the view fit into the section numbers that there are. */
  predicate SectionsSuffice(view: seq<FlatRange>)
    requires forall i | 0 <= i < |view| :: 0 <= view[i].addr.start <= End(view[i].addr)
  {
    FIXED + SectionsOf(view, |view|) <= MAX_SECTIONS
  }

  /** A view of no more than 818 ranges fits, wherever its ranges start and end. */
  lemma SmallViewsFit(view: seq<FlatRange>)
    requires forall i | 0 <= i < |view| :: 0 <= view[i].addr.start <= End(view[i].addr)
    requires |view| <= 818
    ensures SectionsSuffice(view)
  {
    AtMostFiveEach(view, |view|);
  }

  /**
   The tree is rendered, and the view fed to a new dispatch table: unless the section numbers run
   out, which the source asserts that they do not, the table reaches, at every 64-bit address,
   exactly what the lookup through the tree finds.
   */
  method BuildDispatch(root: Option<Region>, levels: nat) returns (ok: bool, d: Dispatch, ghost view: seq<FlatRange>)
    requires 0 < levels <= MAX_LEVELS && TWO_64 <= Pages(levels) * PAGE
    ensures d.Valid() && fresh(d) && fresh(d.pageMap) && d.pageMap.levels == levels && Flat(view)
    ensures forall a :: At(view, a) == if root.Some? && 0 <= a < TWO_64 then Lookup(root.value, 0, a, false) else None
    ensures forall i | 0 <= i < |view| :: 0 <= view[i].addr.start <= End(view[i].addr)
    ensures ok <==> SectionsSuffice(view)
    ensures ok ==> Reaches(d.View(), root)
  {
    hide Pages, TableOk, SubsUsed, Find, MapOk, EntryOk, Flat, Resolve, Lookup, SectionsOf;
    var v := GenerateTopology(root);
    view := v;
    d := new Dispatch(levels);
    ViewBounds(v, levels);
    ok := FIXED + SectionsOf(v, |v|) <= MAX_SECTIONS;
    if ok {
      d.AddView(v);
      forall a: nat | a < TWO_64 ensures a / PAGE < |d.View().pages| && Resolve(d.View(), a) == At(v, a) {
        assert a / PAGE < Pages(levels);
      }
    }
  }

  /** At every 64-bit address, the table reaches what the tree maps there. */
  ghost predicate Reaches(t: Table, root: Option<Region>) {
    forall a: nat | a < TWO_64 ::
      a / PAGE < |t.pages| && Resolve(t, a) == if root.Some? then Lookup(root.value, 0, a, false) else None
  }

  /**
   `mem_commit`: compaction of the page map changes no answer at an address whose page is reached
   by a walk that ends at a leaf, so at none that is assigned; and where a page strays to a section
   by the compaction, the range of that section does not contain the address.
   */
  method CommitDispatch(d: Dispatch)
    requires d.Valid()
    modifies d.pageMap
    ensures d.sections == old(d.sections) && d.subs == old(d.subs) && |d.View().pages| == |old(d.View().pages)|
    ensures forall a: nat | a / PAGE < |d.View().pages| && old(Walks(d, a)) ::
              Resolve(d.View(), a) == old(Resolve(d.View(), a))
    ensures forall a: nat | a / PAGE < |d.View().pages| && old(Resolve(d.View(), a)).Some? ::
              Resolve(d.View(), a) == old(Resolve(d.View(), a))
    ensures SameChecked(old(d.View()), d.View())
  {
    hide Pages, TableOk, SubsUsed, Find, MapOk, EntryOk, RadixCompact.LeafWalk, RadixCompact.LedTo, OwnPages,
         SameChecked;
    ghost var t := d.View();
    ghost var nodes, root, levels := d.pageMap.nodes, d.pageMap.root, d.pageMap.levels;
    FixedCount(t);
    RadixCompact.CompactAll(d.pageMap);
    forall a: nat | a / PAGE < |t.pages| && (old(Walks(d, a)) || Resolve(t, a).Some?)
      ensures d.View().pages[a / PAGE] == t.pages[a / PAGE]
    {
      assert d.pageMap.Section(a / PAGE) == t.pages[a / PAGE];
    }
    forall p | 0 <= p < |t.pages| ensures PageAfter(t, d.View(), p) {
      assert RadixCompact.LedTo(nodes, root, levels, 0, d.pageMap.Section(p));
      LedPage(t, nodes, root, levels, d.pageMap.Section(p));
      assert d.View().pages[p] == d.pageMap.Section(p);
      assert t.pages[p] != UNASSIGNED ==> d.View().pages[p] == t.pages[p];
    }
    AllChecked(t, d.View());
  }

  /** A page leads where it led before, or was unassigned and now leads where another page led. */
  ghost predicate PageAfter(t: Table, u: Table, p: nat)
    requires p < |t.pages| && p < |u.pages|
  {
    u.pages[p] == t.pages[p] || (t.pages[p] == UNASSIGNED && u.pages[p] in t.pages)
  }

  lemma LedPage(t: Table, nodes: seq<Node>, root: Entry, levels: nat, section: nat)
    requires t.pages == PageList(nodes, root, levels) && RadixCompact.LedTo(nodes, root, levels, 0, section)
    ensures section == UNASSIGNED || section in t.pages
  {
    hide Find, Pages;
    if section != UNASSIGNED {
      var q: nat :| Within(q, 0, levels) && Find(nodes, root, levels, q) == section;
      assert t.pages[q] == section;
    }
  }

  /** With the comparison, every access is answered as it was without. */
  ghost predicate SameChecked(t: Table, u: Table) {
    |t.pages| == |u.pages| && forall a: nat | a / PAGE < |t.pages| :: Checked(u, a) == Resolve(t, a)
  }

  lemma AllChecked(t: Table, u: Table)
    requires OwnPages(t) && |u.pages| == |t.pages| && u.sections == t.sections && u.subs == t.subs
    requires UNASSIGNED !in t.subs && forall p | 0 <= p < |t.pages| :: PageAfter(t, u, p)
    ensures SameChecked(t, u)
  {
    hide OwnPages;
    forall a: nat | a / PAGE < |t.pages| ensures Checked(u, a) == Resolve(t, a) {
      var p := a / PAGE;
      assert PageAfter(t, u, p);
      AlwaysCovered(t, a);
      if u.pages[p] != t.pages[p] {
        var q :| 0 <= q < |t.pages| && t.pages[q] == u.pages[p];
        StrayNotCovered(t, u, a, q);
      }
    }
  }

  /** The walk to the page of the address ends at a leaf. */
  ghost predicate Walks(d: Dispatch, a: nat)
    reads d.pageMap
  {
    RadixCompact.LeafWalk(d.pageMap.nodes, d.pageMap.root, d.pageMap.levels, a / PAGE)
  }

  /**
   From the region tree to the committed dispatch table: at every 64-bit address, what the table
   reaches, if the section's range is compared with the address, is what the tree maps there; and
   where the tree maps something, it is reached without the comparison.
   */
  method RebuildDispatch(root: Option<Region>, levels: nat) returns (ok: bool, d: Dispatch, ghost view: seq<FlatRange>)
    requires 0 < levels <= MAX_LEVELS && TWO_64 <= Pages(levels) * PAGE
    ensures fresh(d) && fresh(d.pageMap) && Flat(view)
    ensures forall a :: At(view, a) == if root.Some? && 0 <= a < TWO_64 then Lookup(root.value, 0, a, false) else None
    ensures forall i | 0 <= i < |view| :: 0 <= view[i].addr.start <= End(view[i].addr)
    ensures ok <==> SectionsSuffice(view)
    ensures ok ==> forall a: nat | a < TWO_64 ::
              var tree := if root.Some? then Lookup(root.value, 0, a, false) else None;
              && a / PAGE < |d.View().pages| && Checked(d.View(), a) == tree
              && (tree.Some? ==> Resolve(d.View(), a) == tree)
  {
    hide Pages, TableOk, SubsUsed, Find, MapOk, EntryOk, Flat, Resolve, Lookup, SectionsOf, Checked, OwnPages;
    ok, d, view := BuildDispatch(root, levels);
    if ok {
      CommitDispatch(d);
    }
  }

  /** A view that shows nothing outside the 64-bit space has no range that leaves it. */
  lemma ViewBounds(view: seq<FlatRange>, levels: nat)
    requires Flat(view) && TWO_64 <= Pages(levels) * PAGE
    requires forall a :: At(view, a).Some? ==> 0 <= a < TWO_64
    ensures forall i | 0 <= i < |view| :: 0 <= view[i].addr.start <= End(view[i].addr) <= Pages(levels) * PAGE
  {
    hide Pages, Flat;
    forall i | 0 <= i < |view| ensures 0 <= view[i].addr.start <= End(view[i].addr) <= Pages(levels) * PAGE {
      RangePositive(view, i);
      AtSome(view, i, view[i].addr.start);
      AtSome(view, i, End(view[i].addr) - 1);
    }
  }

  lemma {:induction false} AtSome(view: seq<FlatRange>, i: nat, a: int)
    requires i < |view| && Contains(view[i].addr, a)
    ensures At(view, a).Some?
    decreases |view|
  {
    if i > 0 {
      AtSome(view[1..], i - 1, a);
    }
  }
}
