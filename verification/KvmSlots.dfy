/**
 The KVM slot table (qemu/kvm.c): RAM registration and removal as override and subtraction on the
 map from guest to host addresses, and what the workaround for old kernels makes of that.
 */
module KvmSlots {
  import opened Helpers

  /** A `KVMSlot`; one of size 0 is unused. */
  datatype Slot = Slot(start: nat, size: nat, ram: int)

  function End(s: Slot): nat { s.start + s.size }

  predicate Holds(s: Slot, g: int) { s.start <= g < End(s) }

  /** Guest address g is backed by host address h. */
  predicate Maps(slots: seq<Slot>, g: int, h: int) {
    exists i :: 0 <= i < |slots| && Backs(slots[i], g, h)
  }

  predicate Backs(s: Slot, g: int, h: int) {
    Holds(s, g) && h == s.ram + (g - s.start)
  }

  predicate Overlaps(s: Slot, lo: nat, hi: nat) {
    s.size > 0 && s.start < hi && lo < End(s)
  }

  /** Slots in use are page-aligned and do not overlap. */
  predicate Disjoint(slots: seq<Slot>) {
    forall i, j | 0 <= i < j < |slots| && slots[i].size > 0 && slots[j].size > 0 ::
      End(slots[i]) <= slots[j].start || End(slots[j]) <= slots[i].start
  }

  predicate Aligned(s: Slot, page: nat)
    requires page > 0
  {
    s.start % page == 0 && s.size % page == 0
  }

  predicate Ok(slots: seq<Slot>, page: nat) {
    page > 0 && Disjoint(slots) && forall i | 0 <= i < |slots| :: Aligned(slots[i], page)
  }

  // ---------------------------------------------------------------- counting

  function Overlapping(slots: seq<Slot>, lo: nat, hi: nat): nat {
    if slots == [] then 0 else (if Overlaps(slots[0], lo, hi) then 1 else 0) + Overlapping(slots[1..], lo, hi)
  }

  /** How many parts of a slot stick out of the range that it overlaps. */
  function PartsOf(s: Slot, lo: nat, hi: nat): nat {
    if !Overlaps(s, lo, hi) then 0 else (if s.start < lo then 1 else 0) + (if hi < End(s) then 1 else 0)
  }

  function Parts(slots: seq<Slot>, lo: nat, hi: nat): nat {
    if slots == [] then 0 else PartsOf(slots[0], lo, hi) + Parts(slots[1..], lo, hi)
  }

  function Unused(slots: seq<Slot>): nat {
    if slots == [] then 0 else (if slots[0].size == 0 then 1 else 0) + Unused(slots[1..])
  }

  lemma {:induction false} CountSet(slots: seq<Slot>, i: nat, s: Slot, lo: nat, hi: nat)
    requires i < |slots|
    ensures Overlapping(slots[i := s], lo, hi) == Overlapping(slots, lo, hi)
              - (if Overlaps(slots[i], lo, hi) then 1 else 0) + (if Overlaps(s, lo, hi) then 1 else 0)
    ensures Parts(slots[i := s], lo, hi) == Parts(slots, lo, hi) - PartsOf(slots[i], lo, hi) + PartsOf(s, lo, hi)
    ensures Unused(slots[i := s]) == Unused(slots)
              - (if slots[i].size == 0 then 1 else 0) + (if s.size == 0 then 1 else 0)
    decreases |slots|
  {
    if i == 0 {
      assert slots[i := s][1..] == slots[1..];
    } else {
      assert slots[i := s][1..] == slots[1..][i - 1 := s];
      CountSet(slots[1..], i - 1, s, lo, hi);
    }
  }

  lemma {:induction false} SomeUnused(slots: seq<Slot>)
    requires Unused(slots) > 0
    ensures exists i :: 0 <= i < |slots| && slots[i].size == 0
    decreases |slots|
  {
    if slots[0].size != 0 {
      SomeUnused(slots[1..]);
      var i :| 0 <= i < |slots[1..]| && slots[1..][i].size == 0;
      assert slots[i + 1].size == 0;
    }
  }

  lemma {:induction false} CountNone(slots: seq<Slot>, lo: nat, hi: nat)
    ensures Overlapping(slots, lo, hi) == 0 <==> forall k | 0 <= k < |slots| :: !Overlaps(slots[k], lo, hi)
    ensures Overlapping(slots, lo, hi) == 0 ==> Parts(slots, lo, hi) == 0
    decreases |slots|
  {
    if slots != [] {
      CountNone(slots[1..], lo, hi);
      assert forall k | 0 < k < |slots| :: slots[k] == slots[1..][k - 1];
      assert forall k | 0 <= k < |slots[1..]| :: slots[1..][k] == slots[k + 1];
    }
  }

  /** A slot that covers the whole range is the only one that overlaps it. */
  lemma OnlyOne(slots: seq<Slot>, i: nat, lo: nat, hi: nat)
    requires Disjoint(slots) && i < |slots| && slots[i].start <= lo < hi <= End(slots[i])
    ensures Overlapping(slots, lo, hi) == 1 && Parts(slots, lo, hi) == PartsOf(slots[i], lo, hi)
    ensures forall k | 0 <= k < |slots| && Overlaps(slots[k], lo, hi) :: k == i
  {
    hide Overlapping, Parts;
    var t := slots[i := slots[i].(size := 0)];
    CountSet(slots, i, slots[i].(size := 0), lo, hi);
    CountNone(t, lo, hi);
  }

  /** A slot already backs the whole range with the memory at `ram`. */
  predicate Present(slots: seq<Slot>, lo: nat, hi: nat, ram: int) {
    exists i :: 0 <= i < |slots| && Provides(slots[i], lo, hi, ram)
  }

  predicate Provides(s: Slot, lo: nat, hi: nat, ram: int) {
    s.start <= lo && hi <= End(s) && ram - lo == s.ram - s.start
  }

  /**
   The table has a slot for every part that is registered: an overlapping slot is given up, each
   part of it that sticks out needs one, and so does the range itself if it is added.
   */
  predicate EnoughSlots(slots: seq<Slot>, lo: nat, hi: nat, add: bool) {
    Parts(slots, lo, hi) + (if add then 1 else 0) <= Unused(slots) + Overlapping(slots, lo, hi)
  }

  /** With enough slots, the parts of each overlapping slot find room when its turn comes. */
  lemma RoomForParts(slots: seq<Slot>, i: nat, lo: nat, hi: nat, add: bool)
    requires Disjoint(slots) && i < |slots| && lo < hi && Overlaps(slots[i], lo, hi) && EnoughSlots(slots, lo, hi, add)
    ensures PartsOf(slots[i], lo, hi) <= Unused(slots) + 1
  {
    hide Overlapping, Parts, Unused, Disjoint;
    if slots[i].start < lo && hi < End(slots[i]) {
      OnlyOne(slots, i, lo, hi);
    }
  }

  /** The slot found first decides whether the range is present. */
  lemma PresentIsFound(slots: seq<Slot>, i: nat, lo: nat, hi: nat, ram: int)
    requires Disjoint(slots) && i < |slots| && lo < hi && Overlaps(slots[i], lo, hi)
    ensures Present(slots, lo, hi, ram) <==> Provides(slots[i], lo, hi, ram)
  {
  }

  /** Once a slot has been carved, none covers the whole range. */
  lemma CarvedAbsent(was: seq<Slot>, slots: seq<Slot>, i: nat, lo: nat, hi: nat, ram: int)
    requires Disjoint(was) && i < |was| == |slots| && lo < hi && Overlaps(was[i], lo, hi)
    requires forall k | 0 <= k < |slots| && Overlaps(slots[k], lo, hi) :: k != i && slots[k] == was[k]
    ensures !Present(slots, lo, hi, ram)
  {
    forall k | 0 <= k < |slots| ensures !Provides(slots[k], lo, hi, ram) {
      assert Overlaps(slots[k], lo, hi) ==> slots[k] == was[k];
    }
  }

  // -------------------------------------------- the workaround for old kernels

  /** The size of the slot in use that starts at x, or 0. */
  function SizeAt(slots: seq<Slot>, x: nat): nat {
    if slots == [] then 0
    else if slots[0].start == x && slots[0].size > 0 then slots[0].size
    else SizeAt(slots[1..], x)
  }

  /**
   Where the range begins to be set if slots cannot be joined: slots that follow each other from its
   start are registered again as they are.
   */
  function Skip(slots: seq<Slot>, lo: nat, hi: nat): (s: nat)
    ensures lo <= s && (lo < hi ==> s < hi)
    decreases hi - lo
  {
    var n := SizeAt(slots, lo);
    if 0 < n < hi - lo then Skip(slots, lo + n, hi) else lo
  }

  function SetFrom(slots: seq<Slot>, lo: nat, hi: nat, workaround: bool): (s: nat)
    ensures lo <= s && (lo < hi ==> s < hi)
  {
    if workaround then Skip(slots, lo, hi) else lo
  }

  /** The same slots are in use, whatever their numbers. */
  ghost predicate SameUsed(was: seq<Slot>, slots: seq<Slot>) {
    forall s: Slot | s.size > 0 :: s in slots <==> s in was
  }

  lemma {:induction false} SizeAtSome(slots: seq<Slot>, x: nat)
    requires SizeAt(slots, x) > 0
    ensures exists i :: 0 <= i < |slots| && slots[i].start == x && slots[i].size == SizeAt(slots, x)
    decreases |slots|
  {
    if !(slots[0].start == x && slots[0].size > 0) {
      SizeAtSome(slots[1..], x);
      var i :| 0 <= i < |slots[1..]| && slots[1..][i].start == x && slots[1..][i].size == SizeAt(slots, x);
      assert slots[i + 1].start == x && slots[i + 1].size == SizeAt(slots, x);
    }
  }

  lemma {:induction false} SizeAtPositive(slots: seq<Slot>, i: nat)
    requires i < |slots| && slots[i].size > 0
    ensures SizeAt(slots, slots[i].start) > 0
    decreases |slots|
  {
    if i > 0 {
      SizeAtPositive(slots[1..], i - 1);
    }
  }

  lemma SizeAtIs(slots: seq<Slot>, mem: Slot)
    requires Disjoint(slots) && mem in slots && mem.size > 0
    ensures SizeAt(slots, mem.start) == mem.size
  {
    var i :| 0 <= i < |slots| && slots[i] == mem;
    SizeAtPositive(slots, i);
    SizeAtSome(slots, mem.start);
    var j :| 0 <= j < |slots| && slots[j].start == mem.start && slots[j].size == SizeAt(slots, mem.start);
    assert i == j;
  }

  lemma SlotAt(was: seq<Slot>, slots: seq<Slot>, x: nat) returns (k: nat)
    requires SameUsed(was, slots) && SizeAt(was, x) > 0
    ensures k < |slots| && slots[k].start == x && slots[k].size == SizeAt(was, x)
  {
    SizeAtSome(was, x);
    var j :| 0 <= j < |was| && was[j].start == x && was[j].size == SizeAt(was, x);
    assert was[j] in was && was[j] in slots;
    k :| 0 <= k < |slots| && slots[k] == was[j];
  }

  lemma SkipNext(was: seq<Slot>, slots: seq<Slot>, i: nat, lo: nat, hi: nat)
    requires Disjoint(was) && SameUsed(was, slots) && i < |slots|
    requires slots[i].start == lo && 0 < slots[i].size < hi - lo
    ensures Skip(was, lo, hi) == Skip(was, lo + slots[i].size, hi)
  {
    assert slots[i] in slots;
    SizeAtIs(was, slots[i]);
  }

  /** If the lowest slot in the range does not start it, or reaches its end, the range is set from here. */
  lemma SkipStops(was: seq<Slot>, slots: seq<Slot>, i: nat, lo: nat, hi: nat)
    requires SameUsed(was, slots) && Disjoint(slots) && lo < hi && i < |slots| && Overlaps(slots[i], lo, hi)
    requires forall k | 0 <= k < |slots| && Overlaps(slots[k], lo, hi) :: slots[i].start <= slots[k].start
    requires !(slots[i].start == lo && slots[i].size < hi - lo)
    ensures Skip(was, lo, hi) == lo
  {
    if SizeAt(was, lo) > 0 {
      var k := SlotAt(was, slots, lo);
      assert Overlaps(slots[k], lo, hi);
      assert k == i;
    }
  }

  lemma SkipNone(was: seq<Slot>, slots: seq<Slot>, lo: nat, hi: nat)
    requires SameUsed(was, slots) && lo < hi && forall k | 0 <= k < |slots| :: !Overlaps(slots[k], lo, hi)
    ensures Skip(was, lo, hi) == lo
  {
    if SizeAt(was, lo) > 0 {
      var _ := SlotAt(was, slots, lo);
    }
  }

  lemma SameUsedMaps(was: seq<Slot>, slots: seq<Slot>)
    requires SameUsed(was, slots)
    ensures forall g, h :: Maps(slots, g, h) <==> Maps(was, g, h)
    ensures forall lo, hi, ram | lo < hi :: Present(slots, lo, hi, ram) <==> Present(was, lo, hi, ram)
  {
    forall g, h ensures Maps(slots, g, h) <==> Maps(was, g, h) {
      if Maps(slots, g, h) {
        MovedBacks(slots, was, g, h);
      }
      if Maps(was, g, h) {
        MovedBacks(was, slots, g, h);
      }
    }
    forall lo: nat, hi: nat, ram: int | lo < hi ensures Present(slots, lo, hi, ram) <==> Present(was, lo, hi, ram) {
      if Present(slots, lo, hi, ram) {
        MovedProvides(slots, was, lo, hi, ram);
      }
      if Present(was, lo, hi, ram) {
        MovedProvides(was, slots, lo, hi, ram);
      }
    }
  }

  lemma MovedBacks(u: seq<Slot>, v: seq<Slot>, g: int, h: int)
    requires Maps(u, g, h) && forall s: Slot | s.size > 0 && s in u :: s in v
    ensures Maps(v, g, h)
  {
    var i :| 0 <= i < |u| && Backs(u[i], g, h);
    assert u[i] in u && u[i] in v;
    var j :| 0 <= j < |v| && v[j] == u[i];
    assert Backs(v[j], g, h);
  }

  lemma MovedProvides(u: seq<Slot>, v: seq<Slot>, lo: nat, hi: nat, ram: int)
    requires Present(u, lo, hi, ram) && lo < hi && forall s: Slot | s.size > 0 && s in u :: s in v
    ensures Present(v, lo, hi, ram)
  {
    var i :| 0 <= i < |u| && Provides(u[i], lo, hi, ram);
    assert u[i] in u && u[i] in v;
    var j :| 0 <= j < |v| && v[j] == u[i];
    assert Provides(v[j], lo, hi, ram);
  }

  lemma SameUsedAgain(was: seq<Slot>, slots: seq<Slot>, i: nat, s1: seq<Slot>, s2: seq<Slot>)
    requires SameUsed(was, slots) && i < |slots| && s1 == slots[i := slots[i].(size := 0)] && PutAway(s1, s2, slots[i])
    ensures SameUsed(was, s2)
  {
    var j :| 0 <= j < |s1| && s1[j].size == 0 && s2 == s1[j := slots[i]];
    forall s: Slot | s.size > 0 ensures s in s2 <==> s in slots {
      if s in slots {
        var k :| 0 <= k < |slots| && slots[k] == s;
        assert k != i ==> s2[k] == s;
        assert k == i ==> s2[j] == s;
      }
    }
  }

  /** Address g has the memory that the range from lo on is to have. */
  predicate Backed(slots: seq<Slot>, lo: nat, ram: int, g: int) {
    Maps(slots, g, ram + (g - lo))
  }

  /**
   With the workaround, the range ends up with the new memory everywhere exactly if the slots that
   were registered again had that memory already.
   */
  lemma WorkaroundExact(was: seq<Slot>, slots: seq<Slot>, lo: nat, from: nat, hi: nat, ram: int)
    requires Disjoint(was) && lo <= from <= hi && SameOutside(was, slots, from, hi)
    requires forall g, h | from <= g < hi :: Maps(slots, g, h) <==> h == ram + (g - lo)
    ensures (forall g, h | lo <= g < hi :: Maps(slots, g, h) <==> h == ram + (g - lo)) <==>
            forall g | lo <= g < from :: Backed(was, lo, ram, g)
  {
    hide Maps, Disjoint;
    if forall g | lo <= g < from :: Backed(was, lo, ram, g) {
      forall g, h | lo <= g < from ensures Maps(slots, g, h) <==> h == ram + (g - lo) {
        assert Backed(was, lo, ram, g);
        if Maps(was, g, h) {
          OneHost(was, g, h, ram + (g - lo));
        }
      }
    } else {
      var g :| lo <= g < from && !Backed(was, lo, ram, g);
      assert !Maps(slots, g, ram + (g - lo));
    }
  }

  lemma OneHost(slots: seq<Slot>, g: int, h: int, h': int)
    requires Disjoint(slots) && Maps(slots, g, h) && Maps(slots, g, h')
    ensures h == h'
  {
    var i :| 0 <= i < |slots| && Backs(slots[i], g, h);
    OnlyHolder(slots, i, g, h');
  }

  /** A slot at the start of a larger range that is added with other memory keeps its old memory. */
  lemma WorkaroundKeepsOld()
    ensures var was := [Slot(0, 1, 100), Slot(0, 0, 0)];
            Disjoint(was) && SetFrom(was, 0, 2, true) == 1 && Maps(was, 0, 100) && !Maps(was, 0, 200)
  {
    var was := [Slot(0, 1, 100), Slot(0, 0, 0)];
    assert was[1..] == [Slot(0, 0, 0)];
    assert SizeAt(was, 0) == 1 && SizeAt(was, 1) == 0;
    assert Backs(was[0], 0, 100);
  }

  // ------------------------------------------------------------ single changes

  /** Replacing one slot replaces exactly what that slot mapped. */
  lemma MapsSet(slots: seq<Slot>, i: nat, s: Slot, g: int, h: int)
    requires i < |slots| && Disjoint(slots)
    ensures slots[i].size == 0 ==> (Maps(slots[i := s], g, h) <==> Maps(slots, g, h) || Backs(s, g, h))
    ensures s.size == 0 ==> (Maps(slots[i := s], g, h) <==> Maps(slots, g, h) && !Holds(slots[i], g))
  {
    var t := slots[i := s];
    if Maps(slots, g, h) {
      var k :| 0 <= k < |slots| && Backs(slots[k], g, h);
      if k != i {
        assert Backs(t[k], g, h);
      }
    }
    if Backs(s, g, h) {
      assert Backs(t[i], g, h);
    }
    if Maps(t, g, h) {
      var k :| 0 <= k < |t| && Backs(t[k], g, h);
      if k != i {
        assert Backs(slots[k], g, h);
      }
    }
  }

  lemma OkSet(slots: seq<Slot>, i: nat, s: Slot, page: nat)
    requires Ok(slots, page) && i < |slots| && Aligned(s, page)
    requires s.size > 0 ==> forall k | 0 <= k < |slots| && k != i :: !Overlaps(slots[k], s.start, End(s))
    ensures Ok(slots[i := s], page)
  {
    var t := slots[i := s];
    forall j, k | 0 <= j < k < |t| && t[j].size > 0 && t[k].size > 0
      ensures End(t[j]) <= t[k].start || End(t[k]) <= t[j].start
    {
      assert j != i && k != i ==> End(slots[j]) <= slots[k].start || End(slots[k]) <= slots[j].start;
    }
  }

  /** In a table without overlaps, only the slot that holds an address decides what it maps to. */
  lemma OnlyHolder(slots: seq<Slot>, i: nat, g: int, h: int)
    requires Disjoint(slots) && i < |slots| && Holds(slots[i], g)
    ensures Maps(slots, g, h) <==> Backs(slots[i], g, h)
  {
  }

  // ------------------------------------------------------------- whole pages

  /** How far the start must be moved up to a page boundary. */
  function Delta(start: nat, page: nat): nat
    requires page > 0
  {
    (page - start % page) % page
  }

  /** The start of the whole pages inside a section, and their total size. */
  function WholePages(start: nat, size: nat, page: nat): (r: (nat, nat))
    requires page > 0
  {
    var delta := Delta(start, page);
    if delta > size then (start, 0)
    else (start + delta, (size - delta) - (size - delta) % page)
  }

  lemma AlignedSum(a: nat, b: nat, m: nat)
    requires m > 0 && a % m == 0 && b % m == 0
    ensures (a + b) % m == 0 && (a >= b ==> (a - b) % m == 0)
  {
    Distribute(m, a / m, b / m);
    DivUnique(a + b, m, a / m + b / m, 0);
    if a >= b {
      Distribute(m, a / m, -(b / m));
      assert a - b == m * (a / m - b / m);
      QuotientMono(b, a, m);
      DivUnique(a - b, m, a / m - b / m, 0);
    }
  }

  lemma DeltaAligns(start: nat, page: nat)
    requires page > 0
    ensures Delta(start, page) < page && (start + Delta(start, page)) % page == 0
  {
    var r := start % page;
    var q := start / page;
    if r == 0 {
      DivUnique(page, page, 1, 0);
    } else {
      DivUnique(page - r, page, 0, page - r);
      Distribute(page, q, 1);
      DivUnique(start + (page - r), page, q + 1, 0);
    }
  }

  /** What is registered is page-aligned and inside the section, and no whole page of it is left out. */
  lemma WholePagesExact(start: nat, size: nat, page: nat)
    requires page > 0
    ensures var (lo, len) := WholePages(start, size, page);
            && start <= lo && lo + len <= start + size && len % page == 0 && (len > 0 ==> lo % page == 0)
            && forall p: nat | p % page == 0 && start <= p && p + page <= start + size ::
                 lo <= p && p + page <= lo + len
  {
    hide Delta;
    DeltaAligns(start, page);
    ZeroAligned(page);
    if Delta(start, page) <= size {
      RoundedDown(size - Delta(start, page), page);
      forall p: nat | p % page == 0 && start <= p && p + page <= start + size
        ensures var (lo, len) := WholePages(start, size, page); lo <= p && p + page <= lo + len
      {
        PageInside(start, size, page, p);
      }
    } else {
      forall p: nat | p % page == 0 && start <= p && p + page <= start + size ensures start + Delta(start, page) <= p {
        PageAbove(start, page, p);
      }
    }
  }

  lemma ZeroAligned(page: nat)
    requires page > 0
    ensures 0 % page == 0
  {
    DivUnique(0, page, 0, 0);
  }

  lemma RoundedDown(rest: nat, page: nat)
    requires page > 0
    ensures (rest - rest % page) % page == 0 && rest - rest % page == page * (rest / page) >= 0
  {
    DivUnique(page * (rest / page), page, rest / page, 0);
  }

  /** No page boundary lies between a section's start and its first page boundary. */
  lemma PageAbove(start: nat, page: nat, p: nat)
    requires page > 0 && p % page == 0 && start <= p
    ensures start + Delta(start, page) <= p
  {
    DeltaAligns(start, page);
    var a := start + Delta(start, page);
    if p < a {
      AlignedSum(a, p, page);
      DivUnique(a - p, page, 0, a - p);
    }
  }

  lemma PageInside(start: nat, size: nat, page: nat, p: nat)
    requires page > 0 && p % page == 0 && start <= p && p + page <= start + size && Delta(start, page) <= size
    ensures var a := start + Delta(start, page); a <= p && p + page <= a + page * ((size - Delta(start, page)) / page)
  {
    var a := start + Delta(start, page);
    PageAbove(start, page, p);
    DeltaAligns(start, page);
    AlignedSum(p, a, page);
    var k := (p - a) / page;
    assert p - a == page * k;
    var rest := size - Delta(start, page);
    Distribute(page, k, 1);
    var q := rest / page;
    if q < k + 1 {
      MulMono(page, q, k);
    }
    MulMono(page, k + 1, if q < k + 1 then k + 1 else q);
  }

  // ---------------------------------------------------------------- the table

  /** What the map looks like outside the range that is being set. */
  ghost predicate SameOutside(was: seq<Slot>, slots: seq<Slot>, lo: nat, hi: nat) {
    forall g, h | !(lo <= g < hi) :: Maps(slots, g, h) <==> Maps(was, g, h)
  }

  /**
   Cutting the range out of the slot i, with the parts before and after it registered again in
   unused slots j and k.
   */
  lemma CarveSame(was: seq<Slot>, i: nat, s1: seq<Slot>, s2: seq<Slot>, s3: seq<Slot>, lo: nat, hi: nat, g: int, h: int)
    requires Disjoint(was) && Disjoint(s1) && Disjoint(s2) && i < |was| && lo < hi && Overlaps(was[i], lo, hi)
             && !(lo <= g < hi)
    requires s1 == was[i := was[i].(size := 0)]
    requires if was[i].start < lo then PutAway(s1, s2, Before(was[i], lo)) else s2 == s1
    requires if hi < End(was[i]) then PutAway(s2, s3, After(was[i], hi)) else s3 == s2
    ensures Maps(s3, g, h) <==> Maps(was, g, h)
  {
    MapsSet(was, i, was[i].(size := 0), g, h);
    if Holds(was[i], g) {
      OnlyHolder(was, i, g, h);
    }
    hide Maps, Disjoint;
    if was[i].start < lo {
      var j :| 0 <= j < |s1| && s1[j].size == 0 && s2 == s1[j := Before(was[i], lo)];
      MapsSet(s1, j, Before(was[i], lo), g, h);
    }
    if hi < End(was[i]) {
      var k :| 0 <= k < |s2| && s2[k].size == 0 && s3 == s2[k := After(was[i], hi)];
      MapsSet(s2, k, After(was[i], hi), g, h);
    }
  }

  /** The prefix slot. */
  function Before(s: Slot, lo: nat): Slot
    requires s.start <= lo
  {
    Slot(s.start, lo - s.start, s.ram)
  }

  /** The suffix slot. */
  function After(s: Slot, hi: nat): Slot
    requires s.start <= hi <= End(s)
  {
    Slot(hi, s.size - (hi - s.start), s.ram + (hi - s.start))
  }

  /** The part has been stored in a slot that was unused. */
  predicate PutAway(was: seq<Slot>, slots: seq<Slot>, part: Slot) {
    exists j :: 0 <= j < |was| && was[j].size == 0 && slots == was[j := part]
  }

  /** The table without slot i is free where that slot was. */
  lemma PartFree(was: seq<Slot>, slots: seq<Slot>, i: nat, lo: nat, hi: nat)
    requires Disjoint(was) && i < |was| && was[i].start <= lo < hi <= End(was[i])
             && slots == was[i := was[i].(size := 0)]
    ensures forall k | 0 <= k < |slots| :: !Overlaps(slots[k], lo, hi)
  {
  }

  lemma StillFree(was: seq<Slot>, slots: seq<Slot>, part: Slot, lo: nat, hi: nat)
    requires PutAway(was, slots, part) && End(part) <= lo
    requires forall k | 0 <= k < |was| :: !Overlaps(was[k], lo, hi)
    ensures forall k | 0 <= k < |slots| :: !Overlaps(slots[k], lo, hi)
  {
  }

  lemma NotInRange(slots: seq<Slot>, part: Slot, lo: nat, hi: nat)
    requires !Overlaps(part, lo, hi)
    ensures PartsOf(part, lo, hi) == 0 && forall s: Slot | s.size == 0 :: !Overlaps(s, lo, hi)
  {
  }

  lemma CarveFacts(was: seq<Slot>, i: nat, lo: nat, hi: nat, page: nat)
    requires Ok(was, page) && i < |was| && lo < hi && lo % page == 0 && hi % page == 0 && Overlaps(was[i], lo, hi)
    ensures var m := was[i];
            && m.size > 0 && m.start < hi && lo < End(m)
            && !Overlaps(m.(size := 0), lo, hi) && PartsOf(m.(size := 0), lo, hi) == 0
            && PartsOf(m, lo, hi) == (if m.start < lo then 1 else 0) + (if hi < End(m) then 1 else 0)
            && Aligned(m.(size := 0), page)
            && (m.start < lo ==> Aligned(Before(m, lo), page) && !Overlaps(Before(m, lo), lo, hi))
            && (hi < End(m) ==> Aligned(After(m, hi), page) && !Overlaps(After(m, hi), lo, hi))
  {
    hide Disjoint;
    var m := was[i];
    assert Aligned(m, page);
    ZeroAligned(page);
    if m.start < lo {
      AlignedSum(lo, m.start, page);
    }
    if hi < End(m) {
      AlignedSum(m.start, m.size, page);
      AlignedSum(End(m), hi, page);
    }
  }

  lemma CarveKeeps(was: seq<Slot>, i: nat, s1: seq<Slot>, s2: seq<Slot>, s3: seq<Slot>, lo: nat, hi: nat)
    requires Disjoint(was) && Disjoint(s1) && Disjoint(s2) && i < |was| && lo < hi && Overlaps(was[i], lo, hi)
    requires s1 == was[i := was[i].(size := 0)]
    requires if was[i].start < lo then PutAway(s1, s2, Before(was[i], lo)) else s2 == s1
    requires if hi < End(was[i]) then PutAway(s2, s3, After(was[i], hi)) else s3 == s2
    ensures SameOutside(was, s3, lo, hi)
    ensures forall k | 0 <= k < |s3| && Overlaps(s3[k], lo, hi) :: k != i && s3[k] == was[k]
  {
    hide Maps, Disjoint;
    forall g, h | !(lo <= g < hi) ensures Maps(s3, g, h) <==> Maps(was, g, h) {
      CarveSame(was, i, s1, s2, s3, lo, hi, g, h);
    }
  }

  class SlotTable {
    const page: nat
    const slots: array<Slot>

    ghost predicate Valid()
      reads slots
    {
      Ok(slots[..], page)
    }

    constructor (page: nat, nrSlots: nat)
      requires page > 0
      ensures Valid() && fresh(slots) && slots.Length == nrSlots && this.page == page
      ensures forall i | 0 <= i < nrSlots :: slots[i].size == 0
    {
      this.page := page;
      slots := new Slot[nrSlots](_ => Slot(0, 0, 0));
      ZeroAligned(page);
    }

    /** `kvm_lookup_overlapping_slot`: the lowest slot that overlaps the range, or -1. */
    method LookupOverlapping(lo: nat, hi: nat) returns (found: int)
      ensures -1 <= found < slots.Length
      ensures found == -1 ==> forall i | 0 <= i < slots.Length :: !Overlaps(slots[i], lo, hi)
      ensures found >= 0 ==> Overlaps(slots[found], lo, hi)
                             && forall i | 0 <= i < slots.Length && Overlaps(slots[i], lo, hi) ::
                                  slots[found].start <= slots[i].start
    {
      found := -1;
      for i := 0 to slots.Length
        invariant -1 <= found < i
        invariant found == -1 ==> forall k | 0 <= k < i :: !Overlaps(slots[k], lo, hi)
        invariant found >= 0 ==> Overlaps(slots[found], lo, hi)
                                 && forall k | 0 <= k < i && Overlaps(slots[k], lo, hi) ::
                                      slots[found].start <= slots[k].start
      {
        var mem := slots[i];
        if mem.size == 0 || (found >= 0 && slots[found].start < mem.start) {
          continue;
        }
        if hi > mem.start && lo < mem.start + mem.size {
          found := i;
        }
      }
    }

    /** `kvm_alloc_slot`; the caller must know that there is an unused slot. */
    method AllocSlot() returns (i: nat)
      requires Unused(slots[..]) > 0
      ensures i < slots.Length && slots[i].size == 0
    {
      SomeUnused(slots[..]);
      i := 0;
      while slots[i].size != 0
        invariant i < slots.Length
        invariant forall k | 0 <= k < i :: slots[k].size != 0
        decreases slots.Length - i
      {
        assert exists k :: i < k < slots.Length && slots[..][k].size == 0 by {
          var k :| 0 <= k < |slots[..]| && slots[..][k].size == 0;
          assert k > i;
        }
        i := i + 1;
      }
    }

    /**
     A slot is written and told to KVM, which refuses overlapping slots: the new contents must not
     overlap any other slot.
     */
    method Register(i: nat, s: Slot, ghost lo: nat, ghost hi: nat)
      requires Valid() && i < slots.Length && Aligned(s, page)
      requires s.size > 0 ==> forall k | 0 <= k < slots.Length && k != i :: !Overlaps(slots[k], s.start, End(s))
      modifies slots
      ensures Valid() && slots[..] == old(slots[..])[i := s]
      ensures Overlapping(slots[..], lo, hi) == old(Overlapping(slots[..], lo, hi))
                - (if Overlaps(old(slots[i]), lo, hi) then 1 else 0) + (if Overlaps(s, lo, hi) then 1 else 0)
      ensures Parts(slots[..], lo, hi) ==
                old(Parts(slots[..], lo, hi)) - PartsOf(old(slots[i]), lo, hi) + PartsOf(s, lo, hi)
      ensures Unused(slots[..]) == old(Unused(slots[..]))
                - (if old(slots[i]).size == 0 then 1 else 0) + (if s.size == 0 then 1 else 0)
    {
      hide Overlapping, Unused, Parts, Disjoint;
      CountSet(slots[..], i, s, lo, hi);
      OkSet(slots[..], i, s, page);
      slots[i] := s;
    }

    /** A part of a carved slot is registered in an unused one; the range is untouched by it. */
    method RegisterPart(part: Slot, ghost lo: nat, ghost hi: nat)
      requires Valid() && Aligned(part, page) && part.size > 0 && Unused(slots[..]) > 0 && !Overlaps(part, lo, hi)
      requires forall k | 0 <= k < slots.Length :: !Overlaps(slots[k], part.start, End(part))
      modifies slots
      ensures Valid() && PutAway(old(slots[..]), slots[..], part)
      ensures Overlapping(slots[..], lo, hi) == old(Overlapping(slots[..], lo, hi))
      ensures Parts(slots[..], lo, hi) == old(Parts(slots[..], lo, hi))
      ensures Unused(slots[..]) == old(Unused(slots[..])) - 1
    {
      hide Overlapping, Unused, Parts, Disjoint, Overlaps;
      NotInRange(slots[..], part, lo, hi);
      var j := AllocSlot();
      Register(j, part, lo, hi);
    }

    /**
     One turn of the overlap loop: the slot is unregistered, and what lies outside the range
     registered again, in that slot and, if there are two parts, in an unused one.
     */
    method Carve(i: nat, lo: nat, hi: nat)
      requires Valid() && i < slots.Length && lo < hi && lo % page == 0 && hi % page == 0
      requires Overlaps(slots[i], lo, hi) && PartsOf(slots[i], lo, hi) <= Unused(slots[..]) + 1
      modifies slots
      ensures Valid() && SameOutside(old(slots[..]), slots[..], lo, hi)
      ensures Overlapping(slots[..], lo, hi) == old(Overlapping(slots[..], lo, hi)) - 1
      ensures Parts(slots[..], lo, hi) == old(Parts(slots[..], lo, hi)) - PartsOf(old(slots[i]), lo, hi)
      ensures Unused(slots[..]) == old(Unused(slots[..])) + 1 - PartsOf(old(slots[i]), lo, hi)
      ensures forall k | 0 <= k < slots.Length && Overlaps(slots[k], lo, hi) :: k != i && slots[k] == old(slots[k])
    {
      hide Overlapping, Unused, Parts, Maps, Disjoint, Overlaps, SameOutside;
      var mem := slots[i];
      ghost var was := slots[..];
      CarveFacts(was, i, lo, hi, page);
      Register(i, mem.(size := 0), lo, hi);
      ghost var s1 := slots[..];
      if mem.start < lo {
        PartFree(was, s1, i, mem.start, lo);
        RegisterPart(Slot(mem.start, lo - mem.start, mem.ram), lo, hi);
      }
      ghost var s2 := slots[..];
      if mem.start + mem.size > hi {
        PartFree(was, s1, i, hi, End(mem));
        if mem.start < lo {
          StillFree(s1, s2, Before(mem, lo), hi, End(mem));
        }
        var sizeDelta := hi - mem.start;
        RegisterPart(Slot(hi, mem.size - sizeDelta, mem.ram + sizeDelta), lo, hi);
      }
      CarveKeeps(was, i, s1, s2, slots[..], lo, hi);
    }

    /** The branch of the overlap loop for kernels that cannot join slots: the slot is registered again as it was. */
    method RegisterAgain(i: nat, ghost lo: nat, ghost hi: nat, ghost was: seq<Slot>)
      requires Valid() && i < slots.Length && slots[i].size > 0 && !Overlaps(slots[i], lo, hi)
      requires SameUsed(was, slots[..])
      modifies slots
      ensures Valid() && SameUsed(was, slots[..]) && Unused(slots[..]) == old(Unused(slots[..]))
      ensures Overlapping(slots[..], lo, hi) == old(Overlapping(slots[..], lo, hi))
      ensures Parts(slots[..], lo, hi) == old(Parts(slots[..], lo, hi))
    {
      hide Overlapping, Unused, Parts, Maps, Disjoint, Overlaps, SameUsed, PutAway;
      var mem := slots[i];
      ghost var before := slots[..];
      assert Aligned(mem, page);
      ZeroAligned(page);
      NotInRange(before, mem, lo, hi);
      NotInRange(before, mem.(size := 0), lo, hi);
      Register(i, mem.(size := 0), lo, hi);
      ghost var s1 := slots[..];
      PartFree(before, s1, i, mem.start, End(mem));
      RegisterPart(mem, lo, hi);
      SameUsedAgain(was, before, i, s1, slots[..]);
    }

    /** The overlap loop and the registration of the range; it is set from `SetFrom` on. */
    method SetRange(start0: nat, size0: nat, ram0: int, add: bool, broken: bool)
      requires Valid() && size0 > 0 && start0 % page == 0 && size0 % page == 0
      requires var hi := start0 + size0;
               var from := SetFrom(slots[..], start0, hi, broken && add);
               (add && Present(slots[..], from, hi, ram0 + (from - start0))) || EnoughSlots(slots[..], from, hi, add)
      modifies slots
      ensures Valid()
      ensures var hi := start0 + size0;
              var from := SetFrom(old(slots[..]), start0, hi, broken && add);
              && SameOutside(old(slots[..]), slots[..], from, hi)
              && (forall g, h | from <= g < hi :: Maps(slots[..], g, h) <==> add && h == ram0 + (g - start0))
              && if add && old(Present(slots[..], from, hi, ram0 + (from - start0)))
                 then Unused(slots[..]) == old(Unused(slots[..]))
                 else Unused(slots[..]) == old(Unused(slots[..]) + Overlapping(slots[..], from, hi)
                                               - Parts(slots[..], from, hi)) - (if add then 1 else 0)
    {
      hide Overlapping, Unused, Parts, Maps, Disjoint, Present, SameUsed, Skip, Overlaps, SameOutside;
      var start, size, ram := start0, size0, ram0;
      ghost var was := slots[..];
      ghost var hi := start + size;
      ghost var from := SetFrom(was, start, hi, broken && add);
      ghost var room := Unused(was) + Overlapping(was, from, hi) - Parts(was, from, hi);
      ghost var carved := false;
      AlignedSum(start, size, page);
      SameStart(was, from, hi);
      while true
        invariant start + size == hi && start0 <= start <= from && size > 0 && start % page == 0
        invariant ram == ram0 + (start - start0)
        invariant Valid() && SameOutside(was, slots[..], from, hi)
        invariant !carved ==> SameUsed(was, slots[..]) && SetFrom(was, start, hi, broken && add) == from
        invariant !carved ==> Unused(slots[..]) == Unused(was)
        invariant carved ==> start == from && Carved(slots[..], from, hi, ram) && !(add && Present(was, from, hi, ram))
        invariant Unused(slots[..]) + Overlapping(slots[..], from, hi) - Parts(slots[..], from, hi) == room
        decreases hi - start, Overlapping(slots[..], start, hi)
      {
        var i := LookupOverlapping(start, start + size);
        if i == -1 {
          break;
        }
        var mem := slots[i];
        ghost var before := slots[..];
        FoundFacts(before, i, start, hi, ram);
        if add && start >= mem.start && start + size <= mem.start + mem.size && ram - start == mem.ram - mem.start {
          if !carved {
            SkipStops(was, before, i, start, hi);
            SameUsedMaps(was, before);
          }
          HolderMaps(before, i, start, hi, ram);
          return;
        }
        if broken && mem.start == start && mem.size < size && add {
          SkipNext(was, before, i, start, hi);
          SkippedApart(mem, from, hi);
          SizeAligned(before, i, page);
          AlignedSum(start, mem.size, page);
          RegisterAgain(i, from, hi, was);
          SameUsedMaps(was, slots[..]);
          SameMapsOutside(was, slots[..], from, hi);
          start := start + mem.size;
          ram := ram + mem.size;
          size := size - mem.size;
          continue;
        }
        if !carved {
          if broken && add {
            SkipStops(was, before, i, start, hi);
          }
          SameUsedMaps(was, before);
        }
        RoomForParts(before, i, start, hi, add);
        Carve(i, start, start + size);
        OutsideOn(was, before, slots[..], from, hi);
        CarvedNow(before, slots[..], i, start, hi, ram);
        carved := true;
      }
      if !carved && broken && add {
        SkipNone(was, slots[..], start, hi);
      }
      if !carved {
        SameUsedMaps(was, slots[..]);
      }
      NoneLeft(slots[..], start, hi, ram);
      if !add {
        return;
      }
      ghost var cleared := slots[..];
      var j := AllocSlot();
      SizeFrom(start, size, hi, page);
      FreeSlot(cleared, j, Slot(start, size, ram), start, hi);
      Register(j, Slot(start, size, ram), start, hi);
      RangeAdded(was, cleared, j, start, hi, ram);
    }

    /**
     `kvm_set_phys_mem` for a section of a region whose host memory starts at `ramPtr`.  Adding
     overrides the map with the whole pages of the section, and removing subtracts them; everything
     else keeps its host address.  The slots needed are exactly those that the call registers.  With
     the workaround (`broken`), slots that follow each other from the start keep what they had.
     */
    method SetPhysMem(sectionStart: nat, sectionSize: nat, offset: nat, ramPtr: int, isRam: bool, writeable: bool,
                      romdMode: bool, readonlyAllowed: bool, broken: bool, add0: bool)
      requires Valid()
      requires var (lo, len) := WholePages(sectionStart, sectionSize, page);
               var add := add0 && (isRam || romdMode);
               var from := SetFrom(slots[..], lo, lo + len, broken && add);
               || len == 0 || (!isRam && (writeable || !readonlyAllowed))
               || (add && Present(slots[..], from, lo + len, ramPtr + offset + (from - sectionStart)))
               || EnoughSlots(slots[..], from, lo + len, add)
      modifies slots
      ensures Valid()
      ensures var (lo, len) := WholePages(sectionStart, sectionSize, page);
              var add := add0 && (isRam || romdMode);
              var from := SetFrom(old(slots[..]), lo, lo + len, broken && add);
              var ram := ramPtr + offset - sectionStart;
              if len == 0 || (!isRam && (writeable || !readonlyAllowed)) then slots[..] == old(slots[..])
              else
                && (forall g, h :: Maps(slots[..], g, h) <==>
                      if from <= g < lo + len then add && h == ram + g else old(Maps(slots[..], g, h)))
                && if add && old(Present(slots[..], from, lo + len, ram + from))
                   then Unused(slots[..]) == old(Unused(slots[..]))
                   else Unused(slots[..]) == old(Unused(slots[..]) + Overlapping(slots[..], from, lo + len)
                                                 - Parts(slots[..], from, lo + len)) - (if add then 1 else 0)
    {
      hide Overlapping, Unused, Parts, Maps, Disjoint, Present, Skip;
      WholePagesExact(sectionStart, sectionSize, page);
      DeltaAligns(sectionStart, page);
      var delta := (page - sectionStart % page) % page;
      if delta > sectionSize {
        return;
      }
      var start := sectionStart + delta;
      var size := sectionSize - delta;
      size := size - size % page;
      if size == 0 || start % page != 0 {
        return;
      }
      var add := add0;
      if !isRam {
        if writeable || !readonlyAllowed {
          return;
        } else if !romdMode {
          add := false;
        }
      }
      SetRange(start, size, ramPtr + offset + delta, add, broken);
    }
  }

  // ------------------------------------------------- steps of the overlap loop

  /** Part of the range has been cleared: no slot backs all of it, and none starts where it starts. */
  predicate Carved(slots: seq<Slot>, lo: nat, hi: nat, ram: int) {
    !Present(slots, lo, hi, ram) && forall k | 0 <= k < |slots| && Overlaps(slots[k], lo, hi) :: slots[k].start > lo
  }

  lemma CarvedNow(was: seq<Slot>, slots: seq<Slot>, i: nat, lo: nat, hi: nat, ram: int)
    requires Disjoint(was) && i < |was| == |slots| && lo < hi && Overlaps(was[i], lo, hi)
    requires forall k | 0 <= k < |was| && Overlaps(was[k], lo, hi) :: was[i].start <= was[k].start
    requires forall k | 0 <= k < |slots| && Overlaps(slots[k], lo, hi) :: k != i && slots[k] == was[k]
    ensures Carved(slots, lo, hi, ram)
  {
    CarvedAbsent(was, slots, i, lo, hi, ram);
  }

  lemma FoundFacts(slots: seq<Slot>, i: nat, lo: nat, hi: nat, ram: int)
    requires Disjoint(slots) && i < |slots| && lo < hi && Overlaps(slots[i], lo, hi)
    ensures slots[i].size > 0 && (Present(slots, lo, hi, ram) <==> Provides(slots[i], lo, hi, ram))
  {
    PresentIsFound(slots, i, lo, hi, ram);
  }

  lemma SkippedApart(mem: Slot, from: nat, hi: nat)
    requires End(mem) <= from
    ensures !Overlaps(mem, from, hi)
  {
  }

  lemma SizeAligned(slots: seq<Slot>, i: nat, page: nat)
    requires Ok(slots, page) && i < |slots|
    ensures slots[i].size % page == 0
  {
    assert Aligned(slots[i], page);
  }

  lemma SizeFrom(start: nat, size: nat, hi: nat, page: nat)
    requires page > 0 && start % page == 0 && hi % page == 0 && start + size == hi
    ensures size % page == 0
  {
    AlignedSum(hi, start, page);
  }

  lemma SameStart(was: seq<Slot>, from: nat, hi: nat)
    ensures SameUsed(was, was) && SameOutside(was, was, from, hi)
  {
  }

  lemma SameMapsOutside(was: seq<Slot>, slots: seq<Slot>, lo: nat, hi: nat)
    requires forall g, h :: Maps(slots, g, h) <==> Maps(was, g, h)
    ensures SameOutside(was, slots, lo, hi)
  {
  }

  lemma OutsideOn(was: seq<Slot>, u: seq<Slot>, v: seq<Slot>, lo: nat, hi: nat)
    requires SameOutside(was, u, lo, hi) && SameOutside(u, v, lo, hi)
    ensures SameOutside(was, v, lo, hi)
  {
    hide Maps;
  }

  lemma FreeSlot(slots: seq<Slot>, j: nat, s: Slot, lo: nat, hi: nat)
    requires j < |slots| && slots[j].size == 0 && s.start == lo && End(s) == hi
    requires forall k | 0 <= k < |slots| :: !Overlaps(slots[k], lo, hi)
    ensures forall k | 0 <= k < |slots| && k != j :: !Overlaps(slots[k], s.start, End(s))
  {
  }

  lemma RangeAdded(was: seq<Slot>, cleared: seq<Slot>, j: nat, lo: nat, hi: nat, ram: int)
    requires Disjoint(cleared) && j < |cleared| && cleared[j].size == 0 && lo < hi && SameOutside(was, cleared, lo, hi)
    requires forall g, h | lo <= g < hi :: !Maps(cleared, g, h)
    ensures var slots := cleared[j := Slot(lo, hi - lo, ram)];
            && SameOutside(was, slots, lo, hi)
            && forall g, h | lo <= g < hi :: Maps(slots, g, h) <==> h == ram + (g - lo)
  {
    hide Maps, Disjoint;
    var s := Slot(lo, hi - lo, ram);
    var slots := cleared[j := s];
    forall g, h ensures Maps(slots, g, h) <==> Maps(cleared, g, h) || (lo <= g < hi && h == ram + (g - lo)) {
      MapsSet(cleared, j, s, g, h);
      assert Backs(s, g, h) <==> lo <= g < hi && h == ram + (g - lo);
    }
  }

  lemma HolderMaps(slots: seq<Slot>, i: nat, lo: nat, hi: nat, ram: int)
    requires Disjoint(slots) && i < |slots| && Provides(slots[i], lo, hi, ram)
    ensures forall g, h | lo <= g < hi :: Maps(slots, g, h) <==> h == ram + (g - lo)
  {
    hide Maps, Disjoint;
    forall g, h | lo <= g < hi ensures Maps(slots, g, h) <==> h == ram + (g - lo) {
      OnlyHolder(slots, i, g, h);
    }
  }

  lemma NoneLeft(slots: seq<Slot>, lo: nat, hi: nat, ram: int)
    requires (forall k | 0 <= k < |slots| :: !Overlaps(slots[k], lo, hi)) && lo < hi
    ensures (forall g, h | lo <= g < hi :: !Maps(slots, g, h)) && !Present(slots, lo, hi, ram)
    ensures Overlapping(slots, lo, hi) == 0 && Parts(slots, lo, hi) == 0
  {
    hide Maps, Overlapping, Parts;
    CountNone(slots, lo, hi);
    forall g, h | lo <= g < hi ensures !Maps(slots, g, h) {
      NotMapped(slots, lo, hi, g, h);
    }
  }

  lemma NotMapped(slots: seq<Slot>, lo: nat, hi: nat, g: int, h: int)
    requires (forall k | 0 <= k < |slots| :: !Overlaps(slots[k], lo, hi)) && lo <= g < hi
    ensures !Maps(slots, g, h)
  {
  }
}
