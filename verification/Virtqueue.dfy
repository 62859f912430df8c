/**
 The driver side of a split virtqueue (qemu/vhost-net/kernel-virtio-net.c; section 2.6 of
 VIRTIO 1.1): a free list threaded through the descriptor table, chains in flight, and rings
 indexed by 16-bit counters.
 */
module Virtqueues {
  import opened Helpers

  /** A `vring_desc`, its flags spelt out. */
  datatype Desc = Desc(addr: nat, len: nat, next: nat, hasNext: bool, write: bool, indirect: bool)

  /** One buffer segment as the device sees it. */
  datatype Buf = Buf(addr: nat, len: nat, write: bool)

  type Token = nat

  /**
   A request in flight: its descriptors, what they describe, its indirect table and where that is, and
   when and for whom it was added.
   */
  datatype Buffer = Buffer(
    chain: seq<nat>, bufs: seq<Buf>, table: Option<seq<Desc>>, tableAddr: Option<nat>, serial: nat, token: Token)

  const WRAP: nat := 0x1_0000
  const WORD: nat := 0x1_0000_0000
  const DESC_BYTES: nat := 16

  /** The owner of a descriptor that is on the free list. */
  const FREE: int := -1

  /** The tables of a queue together with the abstract state that they represent. */
  datatype Tables = Tables(
    num: nat,
    desc: seq<Desc>,
    data: seq<Option<Token>>,
    indir: seq<Option<seq<Desc>>>,
    freeHead: nat,
    numFree: nat,
    free: seq<nat>,
    owner: seq<int>,
    inflight: map<nat, Buffer>)

  // -------------------------------------------------------------- invariants

  predicate Threaded(desc: seq<Desc>, s: seq<nat>) {
    && (forall k | 0 <= k < |s| :: s[k] < |desc|)
    && (forall k | 0 <= k < |s| - 1 :: desc[s[k]].next == s[k + 1])
  }

  predicate Carries(d: Desc, b: Buf, hasNext: bool) {
    d.addr == b.addr && d.len == b.len && d.write == b.write && d.hasNext == hasNext && !d.indirect
  }

  /** The device, following the descriptors from the head, finds exactly the segments of the buffer. */
  predicate Shows(desc: seq<Desc>, indir: Option<seq<Desc>>, head: nat, b: Buffer) {
    && b.bufs != [] && b.chain != [] && b.chain[0] == head && b.table == indir && NoDup(b.chain)
    && Threaded(desc, b.chain)
    && match b.table
       case None => && |b.chain| == |b.bufs| && b.tableAddr == None
                    && forall k | 0 <= k < |b.bufs| :: Carries(desc[b.chain[k]], b.bufs[k], k + 1 < |b.bufs|)
       case Some(table) => && b.chain == [head] && |table| == |b.bufs|
                           && desc[head].indirect && !desc[head].hasNext && !desc[head].write
                           && b.tableAddr == Some(desc[head].addr) && desc[head].len == DESC_BYTES * |table|
                           && forall k | 0 <= k < |table| ::
                                table[k].next == k + 1 && Carries(table[k], b.bufs[k], k + 1 < |table|)
  }

  predicate Sizes(t: Tables) {
    |t.desc| == t.num && |t.data| == t.num && |t.indir| == t.num && |t.owner| == t.num
  }

  /** The free list has `num_free` members and starts at `free_head`. */
  predicate FreeOk(t: Tables) {
    && |t.free| == t.numFree && NoDup(t.free) && Threaded(t.desc, t.free)
    && (t.free != [] ==> t.free[0] == t.freeHead)
  }

  /** Every descriptor is on the free list or in exactly one chain in flight. */
  ghost predicate Partition(t: Tables)
    requires Sizes(t)
  {
    && (forall i | 0 <= i < t.num :: t.owner[i] == FREE || t.owner[i] in t.inflight)
    && (forall i | 0 <= i < t.num :: i in t.free <==> t.owner[i] == FREE)
    && (forall i <- t.free :: i < t.num)
    && (forall h <- t.inflight :: forall i | 0 <= i < t.num :: i in t.inflight[h].chain <==> t.owner[i] == h)
    && (forall h <- t.inflight :: forall i <- t.inflight[h].chain :: i < t.num)
  }

  predicate InFlightOk(t: Tables)
    requires Sizes(t)
  {
    && (forall h <- t.inflight ::
          h < t.num && t.data[h] == Some(t.inflight[h].token) && Shows(t.desc, t.indir[h], h, t.inflight[h]))
    && (forall i | 0 <= i < t.num && i !in t.inflight :: t.data[i] == None && t.indir[i] == None)
  }

  ghost predicate Ok(t: Tables) {
    Sizes(t) && FreeOk(t) && Partition(t) && InFlightOk(t)
  }

  // ------------------------------------------------------- what the device sees

  /** The segments that a device finds by following at most n descriptors of a table from i on. */
  function Chain(table: seq<Desc>, i: nat, n: nat): Option<seq<Buf>>
    decreases n
  {
    if n == 0 || i >= |table| || table[i].indirect then None
    else
      var d := table[i];
      var buf := Buf(d.addr, d.len, d.write);
      if !d.hasNext then Some([buf])
      else
        var rest := Chain(table, d.next, n - 1);
        if rest.Some? then Some([buf] + rest.value) else None
  }

  /**
   The request that a device finds from a head on: an indirect descriptor sends it to the table at that
   address, of that length.
   */
  function Sees(desc: seq<Desc>, memory: map<nat, seq<Desc>>, head: nat): Option<seq<Buf>> {
    if head >= |desc| then None
    else if !desc[head].indirect then Chain(desc, head, |desc|)
    else if desc[head].addr !in memory || desc[head].len != DESC_BYTES * |memory[desc[head].addr]| then None
    else Chain(memory[desc[head].addr], 0, |memory[desc[head].addr]|)
  }

  lemma {:induction false} ChainFrom(table: seq<Desc>, idx: seq<nat>, bufs: seq<Buf>, k: nat, n: nat)
    requires |idx| == |bufs| && k < |idx| && |idx| - k <= n && Threaded(table, idx)
    requires forall j | 0 <= j < |idx| :: Carries(table[idx[j]], bufs[j], j + 1 < |idx|)
    ensures Chain(table, idx[k], n) == Some(bufs[k..])
    decreases |idx| - k
  {
    if k + 1 < |idx| {
      ChainFrom(table, idx, bufs, k + 1, n - 1);
      assert bufs[k..] == [bufs[k]] + bufs[k + 1..];
    } else {
      assert bufs[k..] == [bufs[k]];
    }
  }

  /**
   A device that starts from the head of a buffer in flight, and finds an indirect table where the
   driver put it, sees exactly the segments of the request, in order and with their directions.
   */
  lemma DeviceSees(t: Tables, memory: map<nat, seq<Desc>>, head: nat)
    requires Ok(t) && head in t.inflight
    requires var b := t.inflight[head];
             b.table.Some? ==> b.tableAddr.Some? && b.tableAddr.value in memory
                               && memory[b.tableAddr.value] == b.table.value
    ensures Sees(t.desc, memory, head) == Some(t.inflight[head].bufs)
  {
    hide FreeOk, Partition, NoDup, Chain;
    var b := t.inflight[head];
    assert Shows(t.desc, t.indir[head], head, b);
    assert b.bufs[0..] == b.bufs;
    match b.table
    case None =>
      ChainLength(t, head);
      ChainFrom(t.desc, b.chain, b.bufs, 0, |t.desc|);
    case Some(table) =>
      var idx := seq(|table|, i => i);
      assert Threaded(table, idx);
      ChainFrom(table, idx, b.bufs, 0, |table|);
  }

  lemma ChainLength(t: Tables, h: nat)
    requires Ok(t) && h in t.inflight
    ensures |t.inflight[h].chain| <= |t.desc|
  {
    hide FreeOk, Partition, Threaded, NoDup;
    var chain := t.inflight[h].chain;
    ChainInside(t, h);
    SeqCard(chain);
    RangeCard(t.num, Members(chain));
  }

  // ------------------------------------------------- taking from the free list

  /** The first n free descriptors become the chain of a buffer. */
  function Taken(t: Tables, n: nat, desc: seq<Desc>, b: Buffer): Tables
    requires Sizes(t) && 0 < n <= |t.free| && t.free[0] < t.num && |desc| == t.num && t.free[n - 1] < t.num
  {
    var h := t.free[0];
    t.(desc := desc,
       data := t.data[h := Some(b.token)],
       indir := t.indir[h := b.table],
       freeHead := desc[t.free[n - 1]].next,
       numFree := |t.free| - n,
       free := t.free[n..],
       owner := seq(t.num, i requires 0 <= i < t.num => if i in t.free[..n] then h else t.owner[i]),
       inflight := t.inflight[h := b])
  }

  /** A new descriptor table that differs only in the first n free descriptors, not in the links. */
  ghost predicate Fills(t: Tables, n: nat, desc: seq<Desc>) {
    && n <= |t.free| && |desc| == |t.desc|
    && (forall i | 0 <= i < |desc| :: desc[i].next == t.desc[i].next)
    && (forall i | 0 <= i < |desc| && i !in t.free[..n] :: desc[i] == t.desc[i])
  }

  lemma FreeInside(t: Tables, k: nat)
    requires Ok(t) && k < |t.free|
    ensures t.free[k] < t.num && t.owner[t.free[k]] == FREE && t.free[k] !in t.inflight
  {
    assert t.free[k] in t.free;
    assert t.free[k] in t.inflight ==> t.free[k] in t.inflight[t.free[k]].chain;
  }

  lemma TakenFree(t: Tables, n: nat, desc: seq<Desc>, b: Buffer)
    requires Ok(t) && 0 < n <= |t.free| && Fills(t, n, desc) && t.free[0] < t.num && t.free[n - 1] < t.num
    ensures FreeOk(Taken(t, n, desc, b))
  {
    hide Partition, InFlightOk;
    var rest := t.free[n..];
    forall k | 0 <= k < |rest| ensures rest[k] == t.free[n + k] {
    }
    if rest != [] {
      assert desc[t.free[n - 1]].next == t.free[n];
    }
  }

  lemma TakenPartition(t: Tables, n: nat, desc: seq<Desc>, b: Buffer)
    requires Ok(t) && 0 < n <= |t.free| && Fills(t, n, desc) && t.free[0] < t.num && t.free[n - 1] < t.num
    requires b.chain == t.free[..n] && t.free[0] !in t.inflight
    ensures Partition(Taken(t, n, desc, b))
  {
    hide InFlightOk, Threaded;
    var u := Taken(t, n, desc, b);
    var h := t.free[0];
    assert t.free == t.free[..n] + t.free[n..];
    assert h in t.free[..n];
    forall i | 0 <= i < t.num ensures i in u.free <==> u.owner[i] == FREE {
      assert i in t.free[..n] ==> i !in t.free[n..];
    }
    assert forall i <- u.free :: i in t.free;
    assert forall i <- b.chain :: i in t.free;
    forall i | 0 <= i < t.num ensures u.owner[i] == FREE || u.owner[i] in u.inflight {
    }
    forall g | g in u.inflight ensures forall i | 0 <= i < t.num :: i in u.inflight[g].chain <==> u.owner[i] == g {
      forall i | 0 <= i < t.num ensures i in u.inflight[g].chain <==> u.owner[i] == g {
        if g != h {
          assert i in t.inflight[g].chain <==> t.owner[i] == g;
        } else {
          assert i !in t.free[..n] ==> t.owner[i] != h;
        }
      }
    }
  }

  lemma TakenInFlight(t: Tables, n: nat, desc: seq<Desc>, b: Buffer)
    requires Ok(t) && 0 < n <= |t.free| && Fills(t, n, desc) && t.free[0] < t.num && t.free[n - 1] < t.num
    requires Shows(desc, b.table, t.free[0], b)
    ensures InFlightOk(Taken(t, n, desc, b))
  {
    hide FreeOk;
    var u := Taken(t, n, desc, b);
    var h := t.free[0];
    forall g | g in t.inflight && g != h ensures Shows(desc, u.indir[g], g, t.inflight[g]) {
      OtherShows(t, desc, n, g);
    }
  }

  /** A chain in flight shows what it showed when only free descriptors are written. */
  lemma OtherShows(t: Tables, desc: seq<Desc>, n: nat, g: nat)
    requires Ok(t) && Fills(t, n, desc) && g in t.inflight
    ensures g < t.num && Shows(desc, t.indir[g], g, t.inflight[g])
  {
    hide FreeOk, NoDup;
    var b := t.inflight[g];
    forall k | 0 <= k < |b.chain| ensures desc[b.chain[k]] == t.desc[b.chain[k]] {
      var i := b.chain[k];
      assert i in b.chain;
      assert t.owner[i] == g;
      assert i !in t.free;
      assert i in t.free[..n] ==> i in t.free;
    }
  }

  lemma TakenOk(t: Tables, n: nat, desc: seq<Desc>, b: Buffer)
    requires Ok(t) && 0 < n <= |t.free| && Fills(t, n, desc)
    requires b.chain == t.free[..n] && Shows(desc, b.table, t.free[0], b)
    ensures t.free[0] < t.num && t.free[n - 1] < t.num && t.free[0] !in t.inflight
    ensures Ok(Taken(t, n, desc, b))
  {
    hide FreeOk, Partition, InFlightOk, Shows;
    FreeInside(t, 0);
    FreeInside(t, n - 1);
    TakenFree(t, n, desc, b);
    TakenPartition(t, n, desc, b);
    TakenInFlight(t, n, desc, b);
  }

  // ----------------------------------------------------- giving a chain back

  function Last(s: seq<nat>): nat
    requires s != []
  {
    s[|s| - 1]
  }

  /** The chain with this head goes back to the front of the free list. */
  function Given(t: Tables, h: nat): Tables
    requires Sizes(t) && h in t.inflight && h < t.num && t.inflight[h].chain != [] && Last(t.inflight[h].chain) < t.num
  {
    var chain := t.inflight[h].chain;
    t.(desc := t.desc[Last(chain) := t.desc[Last(chain)].(next := t.freeHead)],
       data := t.data[h := None],
       indir := t.indir[h := None],
       freeHead := h,
       numFree := t.numFree + |chain|,
       free := chain + t.free,
       owner := seq(t.num, i requires 0 <= i < t.num => if t.owner[i] == h then FREE else t.owner[i]),
       inflight := t.inflight - {h})
  }

  lemma ChainInside(t: Tables, h: nat)
    requires Ok(t) && h in t.inflight
    ensures h < t.num && t.inflight[h].chain != [] && NoDup(t.inflight[h].chain)
            && Threaded(t.desc, t.inflight[h].chain)
    ensures forall i <- t.inflight[h].chain :: i < t.num && t.owner[i] == h
    ensures forall g <- t.inflight, i <- t.inflight[g].chain :: g != h ==> i !in t.inflight[h].chain
    ensures forall i <- t.free :: i !in t.inflight[h].chain
    ensures h in t.inflight[h].chain && Last(t.inflight[h].chain) in t.inflight[h].chain
  {
    hide FreeOk;
  }

  lemma GivenFree(t: Tables, h: nat)
    requires Ok(t) && h in t.inflight && h < t.num && t.inflight[h].chain != [] && Last(t.inflight[h].chain) < t.num
    ensures FreeOk(Given(t, h))
  {
    hide Partition, InFlightOk;
    ChainInside(t, h);
    var chain := t.inflight[h].chain;
    var u := Given(t, h);
    ChainStart(t, h);
    forall k | 0 <= k < |u.free| - 1 ensures u.desc[u.free[k]].next == u.free[k + 1] {
      if k < |chain| - 1 {
        assert chain[k] != Last(chain);
      } else if k >= |chain| {
        assert t.free[k - |chain|] in t.free;
        assert t.free[k - |chain|] != Last(chain);
      }
    }
    forall i, j | 0 <= i < j < |u.free| ensures u.free[i] != u.free[j] {
      if i < |chain| <= j {
        assert t.free[j - |chain|] in t.free;
      }
    }
  }

  lemma ChainStart(t: Tables, h: nat)
    requires Ok(t) && h in t.inflight
    ensures t.inflight[h].chain != [] && t.inflight[h].chain[0] == h
  {
  }

  lemma GivenPartition(t: Tables, h: nat)
    requires Ok(t) && h in t.inflight && h < t.num && t.inflight[h].chain != [] && Last(t.inflight[h].chain) < t.num
    ensures Partition(Given(t, h))
  {
    hide FreeOk, InFlightOk, Threaded;
    var chain := t.inflight[h].chain;
    var u := Given(t, h);
    forall g | g in u.inflight ensures forall i | 0 <= i < t.num :: i in u.inflight[g].chain <==> u.owner[i] == g {
      forall i | 0 <= i < t.num ensures i in u.inflight[g].chain <==> u.owner[i] == g {
        assert i in t.inflight[g].chain <==> t.owner[i] == g;
      }
    }
    forall i | 0 <= i < t.num ensures i in u.free <==> u.owner[i] == FREE {
      assert i in chain <==> t.owner[i] == h;
    }
  }

  lemma GivenInFlight(t: Tables, h: nat)
    requires Ok(t) && h in t.inflight && h < t.num && t.inflight[h].chain != [] && Last(t.inflight[h].chain) < t.num
    ensures InFlightOk(Given(t, h))
  {
    hide FreeOk, Partition;
    var u := Given(t, h);
    forall g | g in u.inflight ensures Shows(u.desc, u.indir[g], g, u.inflight[g]) {
      StillShows(t, h, g);
    }
  }

  lemma StillShows(t: Tables, h: nat, g: nat)
    requires Ok(t) && h in t.inflight && g in t.inflight && g != h
    requires t.inflight[h].chain != [] && Last(t.inflight[h].chain) < t.num
    ensures g < t.num
    ensures var last := Last(t.inflight[h].chain);
            Shows(t.desc[last := t.desc[last].(next := t.freeHead)], t.indir[g], g, t.inflight[g])
  {
    hide FreeOk, Partition, NoDup;
    ChainInside(t, h);
    var b := t.inflight[g];
    forall k | 0 <= k < |b.chain| ensures b.chain[k] != Last(t.inflight[h].chain) {
      assert b.chain[k] in b.chain;
    }
  }

  lemma GivenOk(t: Tables, h: nat)
    requires Ok(t) && h in t.inflight
    ensures h < t.num && t.inflight[h].chain != [] && Last(t.inflight[h].chain) < t.num
    ensures Ok(Given(t, h))
  {
    hide FreeOk, Partition, InFlightOk;
    ChainInside(t, h);
    GivenFree(t, h);
    GivenPartition(t, h);
    GivenInFlight(t, h);
  }

  // ---------------------------------------------------------------- counting

  function Members(s: seq<nat>): set<nat> { set x <- s }

  lemma {:induction false} SeqCard(s: seq<nat>)
    requires NoDup(s)
    ensures |Members(s)| == |s|
  {
    if s != [] {
      var rest := s[1..];
      SeqCard(rest);
      assert Members(s) == Members(rest) + {s[0]};
      assert s[0] !in Members(rest);
    }
  }

  lemma {:induction false} RangeCard(n: nat, s: set<nat>)
    requires forall x <- s :: x < n
    ensures |s| <= n
  {
    if n > 0 {
      RangeCard(n - 1, s - {n - 1});
    } else {
      assert s == {};
    }
  }

  /** There are never more buffers in flight than descriptors that are not free. */
  lemma InFlightBound(t: Tables)
    requires Ok(t)
    ensures |t.free| + |t.inflight| <= t.num
  {
    hide FreeOk, Partition, InFlightOk, NoDup;
    var free := Members(t.free);
    FreeNoDup(t);
    SeqCard(t.free);
    forall h | h in t.inflight ensures h < t.num {
      ChainInside(t, h);
    }
    RangeCard(t.num, free + t.inflight.Keys);
    assert free !! t.inflight.Keys;
    assert |free + t.inflight.Keys| == |free| + |t.inflight.Keys|;
  }

  lemma FreeNoDup(t: Tables)
    requires Ok(t)
    ensures NoDup(t.free) && forall i <- t.free :: i < t.num && i !in t.inflight
  {
    hide NoDup, Threaded;
    forall i | i in t.free ensures i < t.num && i !in t.inflight {
      var k :| 0 <= k < |t.free| && t.free[k] == i;
      FreeInside(t, k);
    }
  }

  // ------------------------------------------------------- history and rings

  /**
   Every buffer ever added has been returned exactly once or is in flight.  `log` holds the heads
   of all buffers added, in order; `done` holds the serial numbers of those returned, in order.
   */
  predicate HistoryOk(inflight: map<nat, Buffer>, log: seq<nat>, done: seq<nat>) {
    && NoDup(done) && |log| == |done| + |inflight|
    && (forall s <- done :: s < |log|)
    && (forall h <- inflight ::
          inflight[h].serial < |log| && inflight[h].serial !in done && log[inflight[h].serial] == h)
    && (forall k | 0 <= k < |log| :: k in done || (log[k] in inflight && inflight[log[k]].serial == k))
  }

  /** The available ring holds the heads of the last `num` buffers added. */
  predicate RingOk(num: nat, ring: seq<nat>, log: seq<nat>) {
    && 0 < num == |ring|
    && forall k | 0 <= k < |log| && |log| - num <= k :: ring[k % num] == log[k]
  }

  lemma RingPut(num: nat, ring: seq<nat>, log: seq<nat>, head: nat)
    requires RingOk(num, ring, log)
    ensures RingOk(num, ring[|log| % num := head], log + [head])
  {
    var n := |log|;
    forall k | 0 <= k <= n && n + 1 - num <= k ensures ring[n % num := head][k % num] == (log + [head])[k] {
      if k < n {
        SlotsDiffer(num, k, n);
      }
    }
  }

  lemma RingSize(num: nat, ring: seq<nat>, log: seq<nat>)
    requires RingOk(num, ring, log)
    ensures 0 < num == |ring|
  {
  }

  lemma CountNext(count: nat)
    ensures (count % WRAP + 1) % WRAP == (count + 1) % WRAP
  {
  }

  /** The 16-bit index and the mask select the slot that the unbounded count selects. */
  lemma SlotOfWrapped(num: nat, count: nat)
    requires num > 0 && WRAP % num == 0
    ensures (count % WRAP) % num == count % num
  {
    var q := count / WRAP;
    var r := WRAP / num;
    assert WRAP == num * r;
    var x := count % WRAP;
    assert count == num * (r * q) + x;
    Distribute(num, r * q, x / num);
    DivUnique(count, num, r * q + x / num, x % num);
  }

  /**
   As long as a device has consumed at least as many available entries as it has returned
   buffers, every entry that it has not consumed is still in the ring.
   */
  lemma UnconsumedIntact(t: Tables, ring: seq<nat>, log: seq<nat>, done: seq<nat>, consumed: nat, k: nat)
    requires Ok(t) && HistoryOk(t.inflight, log, done) && RingOk(t.num, ring, log)
    requires |done| <= consumed <= k < |log|
    ensures ring[k % t.num] == log[k]
  {
    hide Ok;
    InFlightBound(t);
  }

  /** The slot of entry k has not been written again. */
  predicate StillThere(num: nat, log: seq<nat>, k: nat)
    requires num > 0
  {
    forall j | k < j < |log| :: j % num != k % num
  }

  /** Every unconsumed entry is still there exactly if the driver is no more than a ring ahead of the device. */
  lemma IntactIff(num: nat, log: seq<nat>, consumed: nat)
    requires num > 0
    ensures (forall k | consumed <= k < |log| :: StillThere(num, log, k)) <==> |log| - num <= consumed
  {
    if |log| - num <= consumed {
      forall k, j | consumed <= k < j < |log| ensures j % num != k % num {
        SlotsDiffer(num, k, j);
      }
    } else {
      var k := consumed;
      Distribute(num, k / num, 1);
      DivUnique(k + num, num, k / num + 1, k % num);
      assert !StillThere(num, log, k);
    }
  }

  lemma SlotsDiffer(num: nat, k: nat, j: nat)
    requires num > 0 && k < j < k + num
    ensures j % num != k % num
  {
    var d := j / num - k / num;
    assert num * d == (j - k) - (j % num - k % num);
    assert d >= 1 ==> num * d >= num;
  }

  lemma HistoryAdd(inflight: map<nat, Buffer>, log: seq<nat>, done: seq<nat>, h: nat, b: Buffer)
    requires HistoryOk(inflight, log, done) && h !in inflight && b.serial == |log|
    ensures HistoryOk(inflight[h := b], log + [h], done)
  {
    assert inflight[h := b].Keys == inflight.Keys + {h};
    assert |inflight[h := b]| == |inflight| + 1;
  }

  lemma HistoryReturn(inflight: map<nat, Buffer>, log: seq<nat>, done: seq<nat>, h: nat)
    requires HistoryOk(inflight, log, done) && h in inflight
    ensures HistoryOk(inflight - {h}, log, done + [inflight[h].serial])
  {
    var rest := inflight - {h};
    var s := inflight[h].serial;
    assert rest.Keys == inflight.Keys - {h};
    assert |rest| == |inflight| - 1;
    forall g | g in rest ensures rest[g].serial !in done + [s] {
      assert log[rest[g].serial] == g;
    }
  }

  // ------------------------------------------------------------ writing chains

  datatype Sg = Sg(addr: nat, len: nat)

  /** The segments of a request: those the device reads, then those it writes. */
  function Segments(outs: seq<Sg>, ins: seq<Sg>): (bufs: seq<Buf>)
    ensures |bufs| == |outs| + |ins|
  {
    seq(|outs| + |ins|, k requires 0 <= k < |outs| + |ins| =>
      if k < |outs| then Buf(outs[k].addr, outs[k].len, false)
      else Buf(ins[k - |outs|].addr, ins[k - |outs|].len, true))
  }

  /** The first m descriptors of a chain have been filled; nothing else and no link has changed. */
  ghost predicate Filled(was: seq<Desc>, desc: seq<Desc>, idx: seq<nat>, bufs: seq<Buf>, m: nat) {
    && |desc| == |was| && m <= |idx| && |idx| == |bufs|
    && (forall k | 0 <= k < |idx| :: idx[k] < |was|)
    && (forall i | 0 <= i < |was| :: desc[i].next == was[i].next)
    && (forall i | 0 <= i < |was| && i !in idx[..m] :: desc[i] == was[i])
    && (forall k | 0 <= k < m :: Carries(desc[idx[k]], bufs[k], true))
  }

  lemma FillNext(was: seq<Desc>, desc: seq<Desc>, idx: seq<nat>, bufs: seq<Buf>, m: nat)
    requires Filled(was, desc, idx, bufs, m) && m < |idx| && NoDup(idx)
    ensures var i := idx[m];
            var d := Desc(bufs[m].addr, bufs[m].len, desc[i].next, true, bufs[m].write, false);
            Filled(was, desc[i := d], idx, bufs, m + 1)
  {
    var i := idx[m];
    var desc' := desc[i := Desc(bufs[m].addr, bufs[m].len, desc[i].next, true, bufs[m].write, false)];
    assert idx[..m + 1] == idx[..m] + [i];
    forall k | 0 <= k < m + 1 ensures Carries(desc'[idx[k]], bufs[k], true) {
    }
  }

  /** One descriptor is filled, and the next one is found through its link. */
  method WriteSegment(d: array<Desc>, i: nat, buf: Buf, ghost was: seq<Desc>, ghost idx: seq<nat>, ghost bufs: seq<Buf>,
                      ghost m: nat) returns (next: nat)
    requires Filled(was, d[..], idx, bufs, m) && m < |idx| && NoDup(idx) && Threaded(was, idx)
    requires i == idx[m] && buf == bufs[m]
    modifies d
    ensures Filled(was, d[..], idx, bufs, m + 1)
    ensures next == if m + 1 < |idx| then idx[m + 1] else was[Last(idx)].next
  {
    hide NoDup, Carries;
    FillNext(was, d[..], idx, bufs, m);
    d[i] := Desc(buf.addr, buf.len, d[i].next, true, buf.write, false);
    next := d[i].next;
  }

  /** The loops of `virtqueue_add` over the scatter lists, on the ring's table or an indirect one. */
  method WriteChain(d: array<Desc>, first: nat, outs: seq<Sg>, ins: seq<Sg>, ghost idx: seq<nat>) returns (i: nat)
    requires |idx| == |outs| + |ins| > 0 && NoDup(idx) && Threaded(d[..], idx) && idx[0] == first
    modifies d
    ensures forall j | 0 <= j < d.Length :: d[j].next == old(d[j].next)
    ensures forall j | 0 <= j < d.Length && j !in idx :: d[j] == old(d[j])
    ensures forall k | 0 <= k < |idx| :: Carries(d[idx[k]], Segments(outs, ins)[k], k + 1 < |idx|)
    ensures i == d[Last(idx)].next
  {
    hide NoDup, Carries, Segments, Filled, Threaded;
    ghost var was := d[..];
    ghost var bufs := Segments(outs, ins);
    i := first;
    var prev := first;
    FillStart(was, idx, bufs);
    for n := 0 to |outs|
      invariant Filled(was, d[..], idx, bufs, n)
      invariant if n < |idx| then i == idx[n] else i == was[Last(idx)].next
      invariant n > 0 ==> prev == idx[n - 1]
    {
      SegmentAt(outs, ins, n);
      prev := i;
      i := WriteSegment(d, i, Buf(outs[n].addr, outs[n].len, false), was, idx, bufs, n);
    }
    for n := |outs| to |outs| + |ins|
      invariant Filled(was, d[..], idx, bufs, n)
      invariant if n < |idx| then i == idx[n] else i == was[Last(idx)].next
      invariant n > 0 ==> prev == idx[n - 1]
    {
      SegmentAt(outs, ins, n);
      prev := i;
      i := WriteSegment(d, i, Buf(ins[n - |outs|].addr, ins[n - |outs|].len, true), was, idx, bufs, n);
    }
    ghost var full := d[..];
    LastInside(was, full, idx, bufs);
    d[prev] := d[prev].(hasNext := false);
    LastCleared(was, full, d[..], idx, bufs);
  }

  lemma FillStart(was: seq<Desc>, idx: seq<nat>, bufs: seq<Buf>)
    requires Threaded(was, idx) && |idx| == |bufs| > 0
    ensures Filled(was, was, idx, bufs, 0) && Last(idx) < |was|
  {
  }

  lemma LastInside(was: seq<Desc>, full: seq<Desc>, idx: seq<nat>, bufs: seq<Buf>)
    requires Filled(was, full, idx, bufs, |idx|) && idx != []
    ensures Last(idx) < |full| == |was|
  {
  }

  lemma SegmentAt(outs: seq<Sg>, ins: seq<Sg>, n: nat)
    requires n < |outs| + |ins|
    ensures Segments(outs, ins)[n] == if n < |outs| then Buf(outs[n].addr, outs[n].len, false)
                                      else Buf(ins[n - |outs|].addr, ins[n - |outs|].len, true)
  {
  }

  lemma LastCleared(was: seq<Desc>, full: seq<Desc>, desc: seq<Desc>, idx: seq<nat>, bufs: seq<Buf>)
    requires Filled(was, full, idx, bufs, |idx|) && idx != [] && NoDup(idx)
    requires desc == full[Last(idx) := full[Last(idx)].(hasNext := false)]
    ensures forall k | 0 <= k < |idx| :: idx[k] < |desc| && Carries(desc[idx[k]], bufs[k], k + 1 < |idx|)
    ensures forall j | 0 <= j < |desc| && j !in idx :: desc[j] == was[j]
    ensures |desc| == |was| && forall j | 0 <= j < |desc| :: desc[j].next == was[j].next
  {
    assert idx[..|idx|] == idx;
    assert Last(idx) in idx;
  }

  /** The ring's own descriptors carry the segments. */
  lemma ShowsDirect(t: Tables, n: nat, desc: seq<Desc>, b: Buffer)
    requires Ok(t) && 0 < n <= |t.free| && |desc| == t.num && b.chain == t.free[..n] && |b.bufs| == n
    requires b.table == None && b.tableAddr == None
    requires forall j | 0 <= j < t.num :: desc[j].next == t.desc[j].next
    requires forall j | 0 <= j < t.num && j !in t.free[..n] :: desc[j] == t.desc[j]
    requires forall k | 0 <= k < n :: t.free[k] < t.num && Carries(desc[t.free[k]], b.bufs[k], k + 1 < n)
    ensures Fills(t, n, desc) && Shows(desc, None, t.free[0], b)
  {
    hide Partition, InFlightOk, Carries;
  }

  /** One descriptor of the ring points to a table whose descriptors carry the segments. */
  lemma ShowsIndirect(t: Tables, desc: seq<Desc>, table: seq<Desc>, b: Buffer)
    requires Ok(t) && t.free != [] && |desc| == t.num && b.chain == t.free[..1] && b.bufs != []
             && b.table == Some(table)
    requires t.free[0] < t.num && |table| == |b.bufs|
    requires var d := desc[t.free[0]];
             && desc == t.desc[t.free[0] := d] && d.next == t.desc[t.free[0]].next
             && d.indirect && !d.hasNext && !d.write && b.tableAddr == Some(d.addr) && d.len == DESC_BYTES * |table|
    requires forall k | 0 <= k < |table| :: table[k].next == k + 1 && Carries(table[k], b.bufs[k], k + 1 < |table|)
    ensures Fills(t, 1, desc) && Shows(desc, Some(table), t.free[0], b)
  {
    hide Partition, InFlightOk, Carries;
    assert t.free[..1] == [t.free[0]];
  }

  lemma FreeThreaded(t: Tables, n: nat)
    requires Ok(t) && 0 < n <= |t.free|
    ensures NoDup(t.free[..n]) && Threaded(t.desc, t.free[..n]) && t.free[0] == t.freeHead && t.free[0] < t.num
    ensures |t.free| == t.numFree && Sizes(t)
  {
    hide Partition, InFlightOk;
  }

  lemma FreeCount(t: Tables)
    requires Ok(t)
    ensures |t.free| == t.numFree && Sizes(t) && |t.desc| == t.num
  {
    hide Partition, InFlightOk;
  }

  lemma InitOk(t: Tables)
    requires Sizes(t) && t.num > 0 && t.freeHead == 0 && t.numFree == t.num && t.inflight == map[]
    requires t.free == seq(t.num, i => i) && t.owner == seq(t.num, _ => FREE)
    requires forall i | 0 <= i < t.num :: t.data[i] == None && t.indir[i] == None
    requires forall i | 0 <= i < t.num - 1 :: t.desc[i].next == i + 1
    ensures Ok(t)
  {
    forall i | 0 <= i < t.num ensures i in t.free {
      assert t.free[i] == i;
    }
  }

  // --------------------------------------------------------------- the queue

  datatype AddResult = Added | BrokenQueue | NoSpace

  class Virtqueue {
    const num: nat
    const indirect: bool
    const desc: array<Desc>
    const data: array<Option<Token>>
    const indir: array<Option<seq<Desc>>>
    const availRing: array<nat>
    var freeHead: nat
    var numFree: nat
    var availIdx: nat
    var lastUsedIdx: nat
    var numAdded: nat
    var usedEvent: nat
    var broken: bool
    ghost var free: seq<nat>
    ghost var owner: seq<int>
    ghost var inflight: map<nat, Buffer>
    ghost var log: seq<nat>
    ghost var done: seq<nat>

    ghost function View(): Tables
      reads this, desc, data, indir
    {
      Tables(num, desc[..], data[..], indir[..], freeHead, numFree, free, owner, inflight)
    }

    ghost predicate Valid()
      reads this, desc, data, indir, availRing
    {
      && Ok(View()) && HistoryOk(inflight, log, done) && RingOk(num, availRing[..], log)
      && num <= WRAP && WRAP % num == 0
      && availIdx == |log| % WRAP && lastUsedIdx == |done| % WRAP
    }

    /** `__vring_new_virtqueue`, for a number of descriptors that is a power of two. */
    constructor (num: nat, indirect: bool)
      requires 0 < num <= WRAP && WRAP % num == 0
      ensures Valid() && fresh(desc) && fresh(data) && fresh(indir) && fresh(availRing)
      ensures this.num == num && this.indirect == indirect && numFree == num && inflight == map[] && log == []
              && done == []
      ensures !broken && numAdded == 0 && usedEvent == 0 && free == seq(num, i => i)
    {
      hide Ok;
      this.num := num;
      this.indirect := indirect;
      var table := new Desc[num](_ => Desc(0, 0, 0, false, false, false));
      for i := 0 to num - 1
        invariant forall k | 0 <= k < i :: table[k].next == k + 1
        invariant fresh(table)
      {
        table[i] := table[i].(next := i + 1);
      }
      desc := table;
      data := new Option<Token>[num](_ => None);
      indir := new Option<seq<Desc>>[num](_ => None);
      availRing := new nat[num](_ => 0);
      freeHead, numFree, availIdx, lastUsedIdx, broken := 0, num, 0, 0, false;
      numAdded, usedEvent := 0, 0;
      free := seq(num, i => i);
      owner := seq(num, _ => FREE);
      inflight, log, done := map[], [], [];
      new;
      InitOk(View());
    }

    /** `more_used`: the device has written used entries that have not been looked at. */
    predicate MoreUsed(usedIdx: nat)
      reads this
    {
      lastUsedIdx != usedIdx
    }

    /**
     `alloc_indirect`, when the allocation succeeds: a table whose entries are linked in order.
     */
    method AllocIndirect(total: nat) returns (table: array<Desc>)
      ensures fresh(table) && table.Length == total && forall i | 0 <= i < total :: table[i].next == i + 1
    {
      table := new Desc[total](_ => Desc(0, 0, 0, false, false, false));
      for i := 0 to total
        invariant forall k | 0 <= k < i :: table[k].next == k + 1
      {
        table[i] := table[i].(next := i + 1);
      }
    }

    /** The end of `virtqueue_add`: the token is stored, the head made available, and the addition counted. */
    method Publish(head: nat, token: Token)
      requires RingOk(num, availRing[..], log) && WRAP % num == 0 && availIdx == |log| % WRAP
      requires head < data.Length
      modifies this`availIdx, this`numAdded, this`log, data, availRing
      ensures data[..] == old(data[..])[head := Some(token)]
      ensures log == old(log) + [head] && RingOk(num, availRing[..], log) && availIdx == |log| % WRAP
      ensures numAdded == (old(numAdded) + 1) % WORD
    {
      hide RingOk;
      data[head] := Some(token);
      RingSize(num, availRing[..], log);
      SlotOfWrapped(num, |log|);
      CountNext(|log|);
      RingPut(num, availRing[..], log, head);
      var avail := availIdx % num;
      availRing[avail] := head;
      availIdx := (availIdx + 1) % WRAP;
      numAdded := (numAdded + 1) % WORD;
      log := log + [head];
    }

    /** The part of `virtqueue_add` that writes descriptors, when it goes through an indirect table. */
    method FillTable(outs: seq<Sg>, ins: seq<Sg>, token: Token, tableAddr: nat) returns (ghost b: Buffer)
      requires Ok(View()) && 0 < |outs| + |ins| && numFree > 0
      modifies this`freeHead, desc, indir
      ensures free != [] && free[0] == old(freeHead) < num && desc.Length == indir.Length == num
      ensures b == Buffer(free[..1], Segments(outs, ins), b.table, Some(tableAddr), |log|, token) && b.table.Some?
      ensures Fills(old(View()), 1, desc[..]) && Shows(desc[..], b.table, free[0], b)
      ensures freeHead == desc[free[0]].next && indir[..] == old(indir[..])[free[0] := b.table]
    {
      hide Ok, Segments, NoDup, Carries, Threaded, Shows, Fills;
      ghost var t := View();
      FreeCount(t);
      FreeThreaded(t, 1);
      var head := freeHead;
      var total := |outs| + |ins|;
      var table := AllocIndirect(total);
      ghost var idx := seq(total, i => i);
      IdentityThreaded(table[..], idx);
      var _ := WriteChain(table, 0, outs, ins, idx);
      desc[head] := Desc(tableAddr, DESC_BYTES * total, desc[head].next, false, false, true);
      freeHead := desc[head].next;
      indir[head] := Some(table[..]);
      b := Buffer(free[..1], Segments(outs, ins), Some(table[..]), Some(tableAddr), |log|, token);
      assert forall k | 0 <= k < total :: idx[k] == k;
      ShowsIndirect(t, desc[..], table[..], b);
    }

    /** The part of `virtqueue_add` that writes descriptors, when it uses those of the ring. */
    method FillRing(outs: seq<Sg>, ins: seq<Sg>, token: Token) returns (ghost b: Buffer)
      requires Ok(View()) && 0 < |outs| + |ins| <= numFree
      modifies this`freeHead, desc
      ensures var n := |outs| + |ins|;
              && n <= |free| && free[0] == old(freeHead) < num && free[n - 1] < desc.Length == num
              && b == Buffer(free[..n], Segments(outs, ins), None, None, |log|, token)
              && Fills(old(View()), n, desc[..]) && Shows(desc[..], None, free[0], b)
              && freeHead == desc[free[n - 1]].next && indir.Length == num && indir[free[0]] == None
    {
      hide Ok, Segments, NoDup, Carries, Shows, Fills;
      ghost var t := View();
      var n := |outs| + |ins|;
      FreeCount(t);
      FreeThreaded(t, n);
      NoTable(t);
      freeHead := WriteChain(desc, freeHead, outs, ins, free[..n]);
      b := Buffer(free[..n], Segments(outs, ins), None, None, |log|, token);
      forall k | 0 <= k < n ensures t.free[k] < t.num && Carries(desc[t.free[k]], b.bufs[k], k + 1 < n) {
        assert free[..n][k] == free[k];
      }
      ShowsDirect(t, n, desc[..], b);
    }

    /** The part of `virtqueue_add` after the descriptors have been written. */
    method Commit(head: nat, descsUsed: nat, token: Token, ghost t: Tables, ghost b: Buffer)
      requires Ok(t) && HistoryOk(inflight, log, done) && RingOk(num, availRing[..], log)
      requires num <= WRAP && WRAP % num == 0 && availIdx == |log| % WRAP && lastUsedIdx == |done| % WRAP
      requires t == View().(desc := t.desc, indir := t.indir, freeHead := t.freeHead)
      requires 0 < descsUsed <= |t.free| && Fills(t, descsUsed, desc[..]) && Shows(desc[..], b.table, t.free[0], b)
      requires b.chain == t.free[..descsUsed] && b.serial == |log| && b.token == token && head == t.free[0]
      requires head < |t.indir| && indir[..] == t.indir[head := b.table]
      requires t.free[descsUsed - 1] < desc.Length == num && freeHead == desc[t.free[descsUsed - 1]].next
      modifies this`numFree, this`availIdx, this`numAdded, this`free, this`owner, this`inflight, this`log, data,
        availRing
      ensures Valid() && head !in old(inflight)
      ensures numFree == old(numFree) - descsUsed && free == old(free)[descsUsed..]
      ensures inflight == old(inflight)[head := b] && log == old(log) + [head]
      ensures numAdded == (old(numAdded) + 1) % WORD
    {
      hide Ok, HistoryOk, RingOk, Shows, Fills;
      FreeCount(t);
      TakenOk(t, descsUsed, desc[..], b);
      numFree := numFree - descsUsed;
      ghost var u := Taken(t, descsUsed, desc[..], b);
      HistoryAdd(inflight, log, done, head, b);
      free, owner, inflight := u.free, u.owner, u.inflight;
      Publish(head, token);
      assert View() == u;
    }

    /**
     `virtqueue_add`.  On success the free list loses its first descriptors, one for an indirect
     table and else one per segment, and the device, starting from the new head, sees exactly the
     segments of the request; no other buffer in flight is touched.  The indirect path never runs
     out of space.  The device is notified from here if the queue is full and there is something to
     send, and when a 16-bit count of additions is about to wrap.
     */
    method Add(outs: seq<Sg>, ins: seq<Sg>, token: Token, tableAddr: Option<nat>) returns (r: AddResult, notify: bool)
      requires Valid() && 0 < |outs| + |ins| <= num
      modifies this, desc, data, indir, availRing
      ensures Valid() && broken == old(broken) && done == old(done) && lastUsedIdx == old(lastUsedIdx)
      ensures notify <==> (r == NoSpace && outs != []) || (r == Added && numAdded == WRAP - 1)
      ensures numAdded == if r == Added then (old(numAdded) + 1) % WORD else old(numAdded)
      ensures var n := |outs| + |ins|;
              var viaTable := indirect && n > 1 && old(numFree) > 0 && tableAddr.Some?;
              var used := if viaTable then 1 else n;
              if old(broken) then r == BrokenQueue
              else if old(numFree) < used then r == NoSpace && !viaTable
              else
                && r == Added && numFree == old(numFree) - used && log == old(log) + [old(freeHead)]
                && free == old(free)[used..] && old(freeHead) !in old(inflight)
                && inflight.Keys == old(inflight).Keys + {old(freeHead)}
                && (forall h <- old(inflight) :: inflight[h] == old(inflight)[h])
                && var b := inflight[old(freeHead)];
                   && b.bufs == Segments(outs, ins) && b.token == token && b.serial == |old(log)|
                   && b.chain == old(free)[..used] && b.table.Some? == viaTable
                   && b.tableAddr == if viaTable then tableAddr else None
      ensures r != Added ==> View() == old(View()) && log == old(log)
    {
      hide Ok, HistoryOk, RingOk, Segments, Shows, Fills;
      ghost var t := View();
      FreeCount(t);
      if broken {
        return BrokenQueue, false;
      }
      var total := |outs| + |ins|;
      var head := freeHead;
      var viaTable := indirect && total > 1 && numFree > 0 && tableAddr.Some?;
      var descsUsed := if viaTable then 1 else total;
      if numFree < descsUsed {
        return NoSpace, outs != [];
      }
      ghost var b: Buffer;
      if viaTable {
        b := FillTable(outs, ins, token, tableAddr.value);
      } else {
        b := FillRing(outs, ins, token);
      }
      Commit(head, descsUsed, token, t, b);
      r, notify := Added, numAdded == WRAP - 1;
    }

    /**
     `detach_buf`: the token is cleared, and the chain, found by following the descriptors from its
     head, goes back to the front of the free list.
     */
    method DetachBuf(head: nat)
      requires Ok(View()) && head in inflight
      modifies this`freeHead, this`numFree, this`free, this`owner, this`inflight, desc, data, indir
      ensures Ok(View()) && inflight == old(inflight) - {head}
      ensures free == old(inflight)[head].chain + old(free) && numFree == old(numFree) + |old(inflight)[head].chain|
    {
      hide Ok, Partition, FreeOk, InFlightOk;
      ghost var t := View();
      FreeCount(t);
      ChainInside(t, head);
      ChainStart(t, head);
      GivenOk(t, head);
      ghost var chain := inflight[head].chain;
      data[head] := None;
      var i := head;
      ghost var k := 0;
      ChainFlags(t, head);
      while desc[i].hasNext
        invariant k < |chain| && i == chain[k] && i < num && numFree == t.numFree + k
        invariant View() == t.(data := t.data[head := None], numFree := numFree)
        decreases |chain| - k
      {
        i := desc[i].next;
        k := k + 1;
        numFree := numFree + 1;
      }
      desc[i] := desc[i].(next := freeHead);
      freeHead := head;
      numFree := numFree + 1;
      indir[head] := None;
      ghost var u := Given(t, head);
      free, owner, inflight := u.free, u.owner, u.inflight;
      assert View() == u;
    }

    /** The end of `virtqueue_get_buf`: the buffer with this head is returned. */
    method ReturnBuf(id: nat, noInterrupt: bool)
      requires Valid() && id in inflight
      modifies this, desc, data, indir
      ensures Valid() && log == old(log) && availIdx == old(availIdx) && broken == old(broken)
      ensures inflight == old(inflight) - {id} && done == old(done) + [old(inflight)[id].serial]
      ensures old(inflight)[id].serial !in old(done)
      ensures free == old(inflight)[id].chain + old(free) && numFree == old(numFree) + |old(inflight)[id].chain|
      ensures usedEvent == if noInterrupt then old(usedEvent) else (|old(done)| + 1) % WRAP
    {
      hide Ok, HistoryOk, RingOk;
      HistoryReturn(inflight, log, done, id);
      NotYetDone(inflight, log, done, id);
      CountNext(|done|);
      done := done + [inflight[id].serial];
      DetachBuf(id);
      lastUsedIdx := (lastUsedIdx + 1) % WRAP;
      if !noInterrupt {
        usedEvent := lastUsedIdx;
      }
    }

    /**
     `virtqueue_get_buf`, for whatever the device has written to the used ring.  The k-th buffer
     returned is the one named in slot k of the ring, modulo its size.  A head that is in flight
     yields its token and the length written, and the buffer is never returned again; any other id
     is refused and the queue is marked broken, with the tables left as they are.  Unless interrupts
     are suppressed, the device is asked for one as soon as it uses another buffer.
     */
    method GetBuf(usedIdx: nat, usedIds: seq<nat>, usedLens: seq<nat>, noInterrupt: bool)
      returns (ret: Option<Token>, len: nat)
      requires Valid() && |usedIds| == |usedLens| == num
      modifies this, desc, data, indir
      ensures Valid() && log == old(log) && availIdx == old(availIdx)
      ensures ret.Some? <==> && !old(broken) && usedIdx != |old(done)| % WRAP
                             && usedIds[|old(done)| % num] in old(inflight)
      ensures var id := usedIds[|old(done)| % num];
              if old(broken) || usedIdx == |old(done)| % WRAP then
                && ret == None && View() == old(View()) && broken == old(broken) && done == old(done)
                && usedEvent == old(usedEvent)
              else if id !in old(inflight) then
                && ret == None && View() == old(View()) && broken && done == old(done)
                && usedEvent == old(usedEvent)
              else
                && ret == Some(old(inflight)[id].token) && broken == old(broken)
                && len == usedLens[|old(done)| % num]
                && usedEvent == (if noInterrupt then old(usedEvent) else (|old(done)| + 1) % WRAP)
                && inflight == old(inflight) - {id} && done == old(done) + [old(inflight)[id].serial]
                && old(inflight)[id].serial !in old(done)
                && numFree == old(numFree) + |old(inflight)[id].chain|
                && free == old(inflight)[id].chain + old(free)
    {
      hide Ok, HistoryOk, RingOk;
      RingSize(num, availRing[..], log);
      ret, len := None, 0;
      if broken {
        return;
      }
      if !MoreUsed(usedIdx) {
        return;
      }
      ghost var t := View();
      FreeCount(t);
      SlotOfWrapped(num, |done|);
      var id := usedIds[lastUsedIdx % num];
      len := usedLens[lastUsedIdx % num];
      KnownHeads(t, id);
      if id >= num {
        broken := true;
        return;
      }
      if data[id] == None {
        broken := true;
        return;
      }
      ret := data[id];
      TokenOf(t, id);
      ReturnBuf(id, noInterrupt);
    }
  }

  lemma TokenOf(t: Tables, h: nat)
    requires Ok(t) && h in t.inflight
    ensures h < |t.data| && t.data[h] == Some(t.inflight[h].token)
  {
    hide Partition, FreeOk, Shows;
  }

  lemma NotYetDone(inflight: map<nat, Buffer>, log: seq<nat>, done: seq<nat>, h: nat)
    requires HistoryOk(inflight, log, done) && h in inflight
    ensures inflight[h].serial !in done
  {
  }

  /** A stored token marks exactly the heads in flight. */
  lemma KnownHeads(t: Tables, id: nat)
    requires Ok(t)
    ensures id in t.inflight <==> id < |t.data| && t.data[id] != None
    ensures id in t.inflight ==> t.data[id] == Some(t.inflight[id].token)
  {
    hide FreeOk, Partition, Shows;
  }

  /** In a chain in flight, all descriptors but the last say that there is a next one. */
  lemma ChainFlags(t: Tables, h: nat)
    requires Ok(t) && h in t.inflight
    ensures var chain := t.inflight[h].chain;
            forall k | 0 <= k < |chain| :: chain[k] < |t.desc| && (t.desc[chain[k]].hasNext <==> k + 1 < |chain|)
                                           && (k + 1 < |chain| ==> t.desc[chain[k]].next == chain[k + 1])
  {
    hide FreeOk, Partition, NoDup;
  }

  lemma NoTable(t: Tables)
    requires Ok(t) && t.free != []
    ensures t.free[0] < |t.indir| && t.indir[t.free[0]] == None
  {
    FreeInside(t, 0);
  }

  lemma IdentityThreaded(table: seq<Desc>, idx: seq<nat>)
    requires idx == seq(|table|, i => i) && forall i | 0 <= i < |table| :: table[i].next == i + 1
    ensures NoDup(idx) && Threaded(table, idx)
  {
  }

  lemma FreeStart(t: Tables)
    requires Ok(t) && t.free != []
    ensures t.freeHead == t.free[0]
  {
    hide Partition, InFlightOk;
  }

  /** A queue of two descriptors with a buffer of one segment in each. */
  method TwoInFlight() returns (q: Virtqueue)
    ensures fresh(q) && fresh(q.desc) && fresh(q.data) && fresh(q.indir) && fresh(q.availRing)
    ensures q.Valid() && q.num == 2 && !q.indirect && !q.broken && q.log == [0, 1] && q.done == [] && q.free == []
    ensures q.inflight.Keys == {0, 1} && q.inflight[0].serial == 0
    ensures q.inflight[1].serial == 1 && q.inflight[1].chain == [1]
  {
    hide Ok, HistoryOk, Segments, RingOk;
    q := new Virtqueue(2, false);
    assert q.free == [0, 1];
    FreeStart(q.View());
    var r, notify := q.Add([Sg(0, 1)], [], 7, None);
    FreeStart(q.View());
    r, notify := q.Add([Sg(0, 1)], [], 8, None);
  }

  /** The device returns the second buffer first. */
  method SecondReturned() returns (q: Virtqueue)
    ensures fresh(q) && fresh(q.desc) && fresh(q.data) && fresh(q.indir) && fresh(q.availRing)
    ensures q.Valid() && q.num == 2 && !q.indirect && !q.broken && q.log == [0, 1] && q.done == [1] && q.free == [1]
    ensures 0 in q.inflight && 1 !in q.inflight && q.inflight[0].serial == 0 && q.numFree == 1 && q.freeHead == 1
  {
    hide Ok, HistoryOk, RingOk;
    q := TwoInFlight();
    var token, len := q.GetBuf(1, [1, 0], [0, 0], true);
    FreeStart(q.View());
    FreeCount(q.View());
  }

  /**
   A device that returns a buffer before it has consumed an earlier entry can lose that entry: of
   two buffers the second is returned first, its head is added again, and the slot of the first,
   which is still in flight, now holds that head.
   */
  method EarlyReturnLosesEntry() returns (q: Virtqueue)
    ensures fresh(q) && q.Valid() && q.num == 2 && q.log == [0, 1, 1] && q.done == [1]
    ensures 0 in q.inflight && q.inflight[0].serial == 0
    ensures q.availRing.Length == 2 && q.availRing[0 % 2] != q.log[0]
  {
    hide Ok, HistoryOk, Segments, RingOk;
    q := SecondReturned();
    var r, notify := q.Add([Sg(0, 1)], [], 9, None);
    RingSize(q.num, q.availRing[..], q.log);
    RingHolds(q.num, q.availRing[..], q.log, 2);
  }

  lemma RingHolds(num: nat, ring: seq<nat>, log: seq<nat>, k: nat)
    requires RingOk(num, ring, log) && k < |log| <= k + num
    ensures k % num < |ring| && ring[k % num] == log[k]
  {
  }
}
