/** `VuVirtq`: the queue object of libvhost-user.  Its methods update the ring
    memory, the in-flight log and the volatile fields in place, store by store;
    each is tied to the queue functions of `Vring` and `Inflight`, and, for pop,
    push and recovery with in-flight tracking on, to the steps the crash-safety
    theorems are about. */
module VuVirtqObject {
  import opened Common
  import opened Vring
  import RingIndex
  import opened Inflight
  import opened CrashSafety
  import FetchOrder
  import opened Regions
  import opened ChainMap

  // ----- the whole effect of the calls that touch the in-flight log -----

  /** A fetched head entered in the log: counter first, then the mark. */
  function EnterLog(q: Queue, head: nat): Queue
    requires head < |q.shm.desc|
  {
    SetMark(StampCounter(q, head), head, true)
  }

  /** `vu_queue_push` with in-flight tracking: fill, note the batch head,
      publish, clear the mark, bring the log's used index up to date. */
  function PushTracked(q: Queue, e: UsedElem): Queue
    requires WellFormed(q) && e.id < q.num
  {
    var filled := Fill(q, e, 0);
    var published := Flush(filled.(shm := filled.shm.(lastBatchHead := e.id)), 1);
    var cleared := SetMark(published, e.id, false);
    cleared.(shm := cleared.shm.(logUsedIdx := cleared.vq.usedIdx))
  }

  /** What a push does on a broken device: neither the used ring nor the index
      moves, but the log does. */
  function PushBroken(q: Queue, e: UsedElem): Queue
    requires WellFormed(q) && e.id < q.num
  {
    var cleared := SetMark(q.(shm := q.shm.(lastBatchHead := e.id)), e.id, false);
    cleared.(shm := cleared.shm.(logUsedIdx := cleared.vq.usedIdx))
  }

  /** With and without tracking, a push publishes the element, its length included,
      as the next used entry: that slot and the index change, and no other slot. */
  lemma PushPublishes(q: Queue, k: RingIndex.Counters, e: UsedElem)
    requires RingIndex.RingInv(q, k) && e.id < q.num && q.vq.inuse > 0
    ensures var slot := k.used % q.num;
            forall r :: r == PushTracked(q, e) || r == RingIndex.PushOne(q, e) ==>
              && r.shm.usedRing == q.shm.usedRing[slot := e]
              && r.shm.usedIdx == r.vq.usedIdx == U16(k.used + 1) && r.vq.inuse == q.vq.inuse - 1
  {
    RingIndex.FillPlaces(q, k, e, 0);
    WrapAdd(k.used, 1);
  }

  /** A push on a broken device forgets the request: its mark goes, no other does, and
      nothing is published. */
  lemma BrokenPushLoses(q: Queue, e: UsedElem)
    requires WellFormed(q) && e.id < q.num
    ensures var r := PushBroken(q, e);
            && !r.shm.desc[e.id].inflight && (forall d :: 0 <= d < q.num && d != e.id ==> r.shm.desc[d] == q.shm.desc[d])
            && r.shm.usedRing == q.shm.usedRing && r.shm.usedIdx == q.shm.usedIdx && r.vq == q.vq
            && r.shm.availIdx == q.shm.availIdx && r.shm.availRing == q.shm.availRing
            && r.shm.logUsedIdx == q.vq.usedIdx && r.shm.lastBatchHead == e.id
  {
  }

  /** Recovery's scan on top of what `inuse` was: `Scanned` when that was 0. */
  function ScannedOver(vq: Vq, list: seq<InflightDesc>): (r: Vq)
    ensures vq.inuse == 0 && |list| < WRAP32 ==> r == Scanned(vq, list)
  {
    var inuse := U32(vq.inuse + |list|);
    vq.(inuse := inuse,
        lastAvailIdx := U16(inuse + vq.usedIdx),
        shadowAvailIdx := U16(inuse + vq.usedIdx),
        resubmit := list,
        counter := if inuse == 0 then 0 else if list == [] then 1 else U64(list[0].counter + 1))
  }

  /** Whatever `inuse` was, afterwards it is the distance between the two indices in
      16 bits, and the list is what is resubmitted. */
  lemma ScannedOverDistance(vq: Vq, list: seq<InflightDesc>)
    requires vq.inuse + |list| < WRAP32
    ensures var r := ScannedOver(vq, list);
            && r.inuse == vq.inuse + |list| && U16(r.lastAvailIdx - r.usedIdx) == U16(r.inuse)
            && r.shadowAvailIdx == r.lastAvailIdx && r.usedIdx == vq.usedIdx && r.resubmit == list
            && (list != [] ==> r.counter == U64(list[0].counter + 1))
  {
    var n := vq.inuse + |list|;
    WrapIsMod(n);
    WrapIsMod(n + vq.usedIdx);
    WrapIsMod(U16(n + vq.usedIdx) - vq.usedIdx);
  }

  /** `chains` has the chain of each head, as guest memory has it: `ring` is the
      descriptor table and `tables` what its indirect descriptors point to. */
  ghost predicate ChainsAre(t: seq<Region>, ring: seq<Desc>, tables: seq<seq<Desc>>, chains: seq<Option<Element>>)
    requires Ordered(t)
  {
    && |ring| == |tables| == |chains|
    && forall h :: 0 <= h < |ring| ==> OneRegion(t, ring[h], tables[h]) && chains[h] == ChainOf(t, ring, h, tables[h])
  }

  /** Pushing in one call is the five push steps of the crash model, ending
      where the call ends. */
  lemma PushIsRun(s: State, e: UsedElem)
    requires Inv(s) && s.pc.Idle? && WellFormed(s.q) && e.id in s.held
    ensures e.id < s.q.num
    ensures exists t ::
              Run(s, [PushFill(e.id, e.len), PushBatch, PushPublish, PushClear, PushLog], t)
              && t.pc.Idle? && t.q == PushTracked(s.q, e)
  {
    HeldIsInFlight(s, e.id);
    var s1 := FillUsed(s, e.id, e.len);
    var s2 := NoteBatch(s1);
    var s5 := PushEnd(s2);
    RunOne(s1, PushBatch, [PushPublish, PushClear, PushLog], s5);
    RunOne(s, PushFill(e.id, e.len), [PushBatch, PushPublish, PushClear, PushLog], s5);
    assert UsedElem(e.id, e.len) == e;
  }

  /** The last three steps of a push. */
  lemma PushEnd(s2: State) returns (s5: State)
    requires WellFormed(s2.q) && s2.pc.PushBatched? && s2.pc.head < s2.q.num && s2.pc.head in s2.h.pos
    ensures s5 == Relog(ClearMark(Publish(s2)), Idle) && Run(s2, [PushPublish, PushClear, PushLog], s5)
  {
    var s3 := Publish(s2);
    var s4 := ClearMark(s3);
    s5 := Relog(s4, Idle);
    RunOne(s4, PushLog, [], s5);
    RunOne(s3, PushClear, [PushLog], s5);
    RunOne(s2, PushPublish, [PushClear, PushLog], s5);
  }

  lemma RunOne(s: State, step: Step, rest: seq<Step>, t: State)
    requires Enabled(s, step) && Run(Apply(s, step), rest, t)
    ensures Run(s, [step] + rest, t)
  {
    assert ([step] + rest)[1..] == rest;
  }

  /** A pop from the avail ring is the three fetch steps. */
  lemma PopIsRun(s: State)
    requires Inv(s) && MayFetch(s)
    ensures s.h.fetched < |s.h.avail|
    ensures var head := s.h.avail[s.h.fetched];
            && head < s.q.num
            && exists t ::
                 Run(s, [PopFetch, PopCounter, PopMark], t) && t.pc.Idle?
                 && t.q == EnterLog(PopIndices(EmptyCheck(s.q).0), head)
  {
    FetchShape(s);
    HistOf(s);
    var s1 := FetchNext(s);
    var s3 := PopEnd(s1);
    RunOne(s, PopFetch, [PopCounter, PopMark], s3);
  }

  /** The last two steps of a pop. */
  lemma PopEnd(s1: State) returns (s3: State)
    requires WellFormed(s1.q) && s1.pc.PopGot? && s1.pc.head < s1.q.num
    ensures s3 == Mark(Stamp(s1)) && Run(s1, [PopCounter, PopMark], s3)
  {
    var s2 := Stamp(s1);
    s3 := Mark(s2);
    RunOne(s2, PopMark, [], s3);
    RunOne(s1, PopCounter, [PopMark], s3);
  }

  lemma OldestIsNext(s: State)
    requires Inv(s) && MayFetch(s)
    ensures s.h.fetched < |s.h.avail| && s.h.avail[s.h.fetched] < s.q.num
    ensures var q1 := EmptyCheck(s.q).0; q1.vq.inuse < q1.num && NextHead(q1) == s.h.avail[s.h.fetched]
  {
    HistOf(s);
    RingsOf(s);
    VolatileOf(s);
    FetchIsNext(s);
  }

  lemma ScanIsRun(s: State, list: seq<InflightDesc>)
    requires s.pc.RecSettled? && WellFormed(s.q) && QsortResult(Marked(s.q.shm.desc), list)
    ensures Run(s, [RecScan(list)], Scan(s, list))
  {
    RunOne(s, RecScan(list), [], Scan(s, list));
  }

  lemma ResettleIsRun(s: State, rest: seq<Step>, t: State)
    requires s.pc.RecMismatch? && WellFormed(s.q) && s.q.shm.lastBatchHead < s.q.num
    requires Run(Relog(ClearBatch(s), RecSettled), rest, t)
    ensures Run(s, [RecClear, RecLog] + rest, t)
  {
    RunOne(ClearBatch(s), RecLog, rest, t);
    RunOne(s, RecClear, [RecLog] + rest, t);
    assert [RecClear] + ([RecLog] + rest) == [RecClear, RecLog] + rest;
  }

  /** Recovery in one call is its steps in the crash model. */
  lemma RecoverIsRun(s: State, list: seq<InflightDesc>)
    requires s.pc.Down? && WellFormed(s.q) && s.q.shm.lastBatchHead < s.q.num
    requires QsortResult(Marked(Resettled(s.q).shm.desc), list)
    ensures exists steps, t ::
              Run(s, steps, t) && t.pc.Idle?
              && t.q == Resettled(s.q).(vq := Scanned(Resettled(s.q).vq, list))
  {
    var s1 := ReadUsed(s);
    if s1.pc.RecSettled? {
      ScanIsRun(s1, list);
      RunOne(s, RecRead, [RecScan(list)], Scan(s1, list));
    } else {
      var s3 := Relog(ClearBatch(s1), RecSettled);
      ScanIsRun(s3, list);
      ResettleIsRun(s1, [RecScan(list)], Scan(s3, list));
      RunOne(s, RecRead, [RecClear, RecLog] + [RecScan(list)], Scan(s3, list));
    }
  }

  // ----- qsort with the in-flight comparison -----

  ghost predicate Descending(list: seq<InflightDesc>) {
    forall i, j :: 0 <= i < j < |list| ==> list[i].counter > list[j].counter
  }

  /** Any sorting routine may stand for `qsort`; this one inserts. */
  method Qsort(list: seq<InflightDesc>) returns (out: seq<InflightDesc>)
    ensures QsortResult(list, out)
  {
    FetchOrder.ConsistentIffNarrow(list);
    out := [];
    for i := 0 to |list|
      invariant multiset(out) == multiset(list[..i])
      invariant Consistent(list) ==> Descending(out)
    {
      var x := list[i];
      var k := |out|;
      while k > 0 && Compare(out[k - 1], x) > 0
        invariant 0 <= k <= |out|
        invariant forall j :: k <= j < |out| ==> Compare(out[j], x) > 0
      {
        k := k - 1;
      }
      if Consistent(list) { InsertDescends(list, i, out, k); }
      InsertPermutes(list, i, out, k);
      out := out[..k] + [x] + out[k..];
    }
    assert list[..|list|] == list;
  }

  lemma InsertPermutes(list: seq<InflightDesc>, i: nat, out: seq<InflightDesc>, k: nat)
    requires i < |list| && multiset(out) == multiset(list[..i]) && k <= |out|
    ensures multiset(out[..k] + [list[i]] + out[k..]) == multiset(list[..i + 1])
  {
    assert out == out[..k] + out[k..];
    assert list[..i + 1] == list[..i] + [list[i]];
  }

  lemma InsertDescends(list: seq<InflightDesc>, i: nat, out: seq<InflightDesc>, k: nat)
    requires i < |list| && multiset(out) == multiset(list[..i]) && k <= |out|
    requires FetchOrder.NarrowSpan(list) && Descending(out)
    requires forall j :: k <= j < |out| ==> Compare(out[j], list[i]) > 0
    requires k > 0 ==> Compare(out[k - 1], list[i]) <= 0
    ensures Descending(out[..k] + [list[i]] + out[k..])
  {
    forall j | 0 <= j < |out|
      ensures NearBy(out[j], list[i])
    {
      assert out[j] in multiset(out);
      assert out[j] in list[..i];
      var m :| 0 <= m < i && list[m] == out[j];
    }
    PlaceDescends(out, k, list[i]);
  }

  ghost predicate NearBy(a: InflightDesc, b: InflightDesc) {
    a.counter != b.counter && -2 * VIRTQUEUE_MAX_SIZE < a.counter - b.counter < 2 * VIRTQUEUE_MAX_SIZE
  }

  lemma PlaceDescends(out: seq<InflightDesc>, k: nat, x: InflightDesc)
    requires k <= |out| && Descending(out) && forall j :: 0 <= j < |out| ==> NearBy(out[j], x)
    requires forall j :: k <= j < |out| ==> Compare(out[j], x) > 0
    requires k > 0 ==> Compare(out[k - 1], x) <= 0
    ensures Descending(out[..k] + [x] + out[k..])
  {
    assert forall j :: k <= j < |out| ==> NearBy(out[j], x) && out[j].counter < x.counter;
    assert k > 0 ==> NearBy(out[k - 1], x) && out[k - 1].counter > x.counter;
  }

  // ----- the object -----

  class VuVirtq {
    const num: nat

    // memory shared with the driver and the front end
    var availIdx: uint16
    const availRing: array<nat>
    var usedEvent: uint16
    var ringUsedIdx: uint16
    const usedRing: array<UsedElem>
    const desc: array<DescState>
    var lastBatchHead: nat
    var logUsedIdx: uint16

    // volatile
    var lastAvailIdx: uint16
    var shadowAvailIdx: uint16
    var usedIdx: uint16
    var signalledUsed: uint16
    var signalledUsedValid: bool
    var inuse: uint32
    var counter: uint64
    var resubmit: seq<InflightDesc>

    // the device
    var inflightTracking: bool
    var logVersion: nat
    var eventIdx: bool
    var notification: bool
    var availEvent: uint16
    var broken: bool

    ghost predicate Valid()
      reads this, availRing, usedRing, desc
    {
      && QueueSize(num) && availRing.Length == num && usedRing.Length == num && desc.Length == num
      && forall k :: 0 <= k < |resubmit| ==> resubmit[k].index < num
    }

    /** A new queue of `num` entries, the start of every run. */
    constructor (num: nat, tracking: bool, event: bool)
      requires QueueSize(num)
      ensures Valid() && fresh(availRing) && fresh(usedRing) && fresh(desc)
      ensures Q() == NewQueue(num) && inflightTracking == tracking && eventIdx == event && !broken
    {
      this.num := num;
      availRing := new nat[num](_ => 0);
      usedRing := new UsedElem[num](_ => UsedElem(0, 0));
      desc := new DescState[num](_ => DescState(false, 0));
      availIdx, usedEvent, ringUsedIdx, lastBatchHead, logUsedIdx := 0, 0, 0, 0, 0;
      lastAvailIdx, shadowAvailIdx, usedIdx, signalledUsed, signalledUsedValid := 0, 0, 0, 0, false;
      inuse, counter, resubmit := 0, 0, [];
      inflightTracking, logVersion, eventIdx, notification, availEvent, broken := tracking, 0, event, true, 0, false;
      new;
      assert availRing[..] == seq(num, _ => 0);
      assert usedRing[..] == seq(num, _ => UsedElem(0, 0));
      assert desc[..] == seq(num, _ => DescState(false, 0));
    }

    ghost function Q(): (q: Queue)
      reads this, availRing, usedRing, desc
    {
      Queue(num,
            Shm(availIdx, availRing[..], usedEvent, ringUsedIdx, usedRing[..], desc[..], lastBatchHead, logUsedIdx),
            Vq(lastAvailIdx, shadowAvailIdx, usedIdx, signalledUsed, signalledUsedValid, inuse, counter, resubmit))
    }

    method QueueEmpty() returns (empty: bool)
      requires Valid()
      modifies this`shadowAvailIdx
      ensures Valid()
      ensures broken ==> empty && Q() == old(Q())
      ensures !broken ==> Q() == EmptyCheck(old(Q())).0 && empty == EmptyCheck(old(Q())).1
    {
      if broken {
        return true;
      }
      if shadowAvailIdx != lastAvailIdx {
        return false;
      }
      shadowAvailIdx := availIdx;
      return shadowAvailIdx == lastAvailIdx;
    }

    /** `vu_queue_pop`. */
    method QueuePop(dev: VuDev, ring: seq<Desc>, tables: seq<seq<Desc>>, ghost chains: seq<Option<Element>>)
      returns (head: Option<nat>, elem: Option<Element>)
      requires Valid() && dev.Valid() && |ring| == num && ChainsAre(dev.table, ring, tables, chains)
      modifies this`resubmit, this`lastAvailIdx, this`shadowAvailIdx, this`availEvent, this`broken, this`inuse, this`counter, desc
      ensures Valid()
      ensures elem == if head.Some? && head.value < num then chains[head.value] else None
      ensures old(broken) ==> head == None && Q() == old(Q()) && broken && availEvent == old(availEvent)
      ensures !old(broken) && old(resubmit) != [] ==>
                var n := |old(resubmit)| - 1;
                var index := old(resubmit)[n].index;
                && Q() == old(Q()).(vq := old(Q()).vq.(resubmit := old(resubmit)[..n]))
                && head == (if chains[index].Some? then Some(index) else None)
                && broken == (chains[index] == None) && availEvent == old(availEvent)
      ensures !old(broken) && old(resubmit) == [] ==>
                && FetchedBy(old(Q()), chains, inflightTracking, Q(), head, broken)
                && availEvent == if eventIdx && notification && HeadRead(old(Q())).1.Some? then lastAvailIdx else old(availEvent)
    {
      if broken {
        return None, None;
      }
      if resubmit != [] {
        var i := |resubmit| - 1;
        var index := resubmit[i].index;
        resubmit := resubmit[..i];
        elem := QueueMapDesc(dev, ring, index, tables[index]);
        broken := elem == None;
        return if broken then None else Some(index), elem;
      }
      head, elem := FetchHead(dev, ring, tables, chains);
    }

    /** The part of `vu_queue_pop` up to the head of the next avail entry. */
    method ReadHead() returns (next: Option<nat>)
      requires Valid() && !broken
      modifies this`lastAvailIdx, this`shadowAvailIdx, this`availEvent, this`broken
      ensures Valid() && (Q(), next, broken) == HeadRead(old(Q()))
      ensures availEvent == if eventIdx && notification && next.Some? then lastAvailIdx else old(availEvent)
    {
      var empty := QueueEmpty();
      if empty {
        return None;
      }
      if inuse >= num {
        broken := true;
        return None;
      }
      var head := availRing[lastAvailIdx % num];
      lastAvailIdx := U16(lastAvailIdx + 1);
      if head >= num {
        broken := true;
        return None;
      }
      if eventIdx && notification {
        availEvent := lastAvailIdx;
      }
      return Some(head);
    }

    /** The part that takes the next avail entry. */
    method FetchHead(dev: VuDev, ring: seq<Desc>, tables: seq<seq<Desc>>, ghost chains: seq<Option<Element>>)
      returns (head: Option<nat>, elem: Option<Element>)
      requires Valid() && !broken && dev.Valid() && |ring| == num && ChainsAre(dev.table, ring, tables, chains)
      modifies this`lastAvailIdx, this`shadowAvailIdx, this`availEvent, this`broken, this`inuse, this`counter, desc
      ensures Valid() && FetchedBy(old(Q()), chains, inflightTracking, Q(), head, broken)
      ensures elem == if head.Some? && head.value < num then chains[head.value] else None
      ensures availEvent == if eventIdx && notification && HeadRead(old(Q())).1.Some? then lastAvailIdx else old(availEvent)
    {
      var next := ReadHead();
      if next == None {
        return None, None;
      }
      elem := TakeHead(dev, ring, tables, chains, next.value);
      return if elem == None then None else next, elem;
    }

    /** Map the chain of a head and, if that succeeds, count and log it. */
    method TakeHead(dev: VuDev, ring: seq<Desc>, tables: seq<seq<Desc>>, ghost chains: seq<Option<Element>>, next: nat)
      returns (elem: Option<Element>)
      requires Valid() && !broken && next < num && dev.Valid() && |ring| == num && ChainsAre(dev.table, ring, tables, chains)
      modifies this`broken, this`inuse, this`counter, desc
      ensures Valid() && elem == chains[next] && broken == (elem == None)
      ensures Q() == Taken(old(Q()), next, elem.Some?, inflightTracking)
    {
      elem := QueueMapDesc(dev, ring, next, tables[next]);
      if elem == None {
        broken := true;
        return;
      }
      inuse := U32(inuse + 1);
      InflightGet(next);
    }

    /** `vu_queue_inflight_get`. */
    method InflightGet(head: nat)
      requires Valid() && head < num
      modifies this`counter, desc
      ensures Valid() && Q() == if inflightTracking then EnterLog(old(Q()), head) else old(Q())
    {
      if inflightTracking {
        desc[head] := desc[head].(counter := counter);
        counter := U64(counter + 1);
        desc[head] := desc[head].(inflight := true);
      }
    }

    /** A pop in a running device returns the chain of the oldest request not yet
        fetched. */
    method PopOldest(dev: VuDev, ring: seq<Desc>, tables: seq<seq<Desc>>, ghost chains: seq<Option<Element>>, ghost s: State)
      returns (head: Option<nat>, elem: Option<Element>)
      requires Valid() && !broken && dev.Valid() && |ring| == num && ChainsAre(dev.table, ring, tables, chains)
      requires Inv(s) && MayFetch(s) && s.q == Q()
      modifies this, desc
      ensures s.h.fetched < |s.h.avail| && s.h.avail[s.h.fetched] < num
      ensures var oldest := s.h.avail[s.h.fetched];
              && elem == chains[oldest]
              && head == (if elem.Some? then Some(oldest) else None) && broken == (elem == None)
    {
      OldestIsNext(s);
      head, elem := FetchHead(dev, ring, tables, chains);
    }

    /** A pop in a running device that has fetched every request returns nothing and
        leaves device and queue as they are. */
    method PopDrained(dev: VuDev, ring: seq<Desc>, tables: seq<seq<Desc>>, ghost chains: seq<Option<Element>>, ghost s: State)
      returns (head: Option<nat>, elem: Option<Element>)
      requires Valid() && !broken && dev.Valid() && |ring| == num && ChainsAre(dev.table, ring, tables, chains)
      requires Inv(s) && s.pc.Idle? && s.q == Q() && resubmit == [] && s.h.fetched == |s.h.avail|
      modifies this, desc
      ensures head == None && elem == None && !broken && Q() == old(Q()) && availEvent == old(availEvent)
    {
      VolatileOf(s);
      HeadReadExact(s.q, CountersOf(s));
      head, elem := QueuePop(dev, ring, tables, chains);
    }

    /** A pop of any queue whose fields are true counters wrapped. `next` is the entry
        it is about: the last one to resubmit, else the next one of the avail ring, if
        any. It breaks the device if and only if there is such an entry and that is no
        index or its chain does not map. */
    method PopExact(dev: VuDev, ring: seq<Desc>, tables: seq<seq<Desc>>, ghost chains: seq<Option<Element>>,
                    ghost k: RingIndex.Counters, ghost next: Option<nat>)
      returns (head: Option<nat>, elem: Option<Element>)
      requires Valid() && !broken && dev.Valid() && |ring| == num && ChainsAre(dev.table, ring, tables, chains)
      requires RingIndex.RingInv(Q(), k)
      requires next == if resubmit != [] then Some(resubmit[|resubmit| - 1].index)
                       else if k.last < k.avail then Some(availRing[k.last % num]) else None
      modifies this, desc
      ensures broken <==> next.Some? && (next.value >= num || chains[next.value] == None)
      ensures head == if broken then None else next
      ensures elem == if head == None then None else chains[head.value]
      ensures next == None ==> Q() == old(Q())
      ensures lastAvailIdx == U16(k.last + if old(resubmit) == [] && next.Some? then 1 else 0)
      ensures inuse == old(inuse) + if old(resubmit) == [] && head.Some? then 1 else 0
      ensures resubmit == if old(resubmit) == [] then [] else old(resubmit)[..|old(resubmit)| - 1]
      ensures availEvent == if eventIdx && notification && old(resubmit) == [] && next.Some? && next.value < num
                              then lastAvailIdx else old(availEvent)
    {
      HeadReadExact(Q(), k);
      head, elem := QueuePop(dev, ring, tables, chains);
    }

    method QueueUnpop()
      requires Valid()
      modifies this`lastAvailIdx, this`inuse
      ensures Valid() && Q() == Unpop(old(Q()))
    {
      lastAvailIdx := U16(lastAvailIdx - 1);
      inuse := U32(inuse - 1);
    }

    method QueueRewind(count: nat) returns (ok: bool)
      requires Valid()
      modifies this`lastAvailIdx, this`inuse
      ensures Valid() && (Q(), ok) == Rewind(old(Q()), count)
    {
      if count > inuse {
        return false;
      }
      lastAvailIdx := U16(lastAvailIdx - count);
      inuse := inuse - count;
      return true;
    }

    method QueueFill(e: UsedElem, idx: nat)
      requires Valid()
      modifies usedRing
      ensures Valid() && Q() == if broken then old(Q()) else Fill(old(Q()), e, idx)
    {
      if broken {
        return;
      }
      usedRing[(idx + usedIdx) % num] := e;
    }

    method QueueFlush(count: nat)
      requires Valid()
      modifies this`ringUsedIdx, this`usedIdx, this`inuse, this`signalledUsedValid
      ensures Valid() && Q() == if broken then old(Q()) else Flush(old(Q()), count)
    {
      if broken {
        return;
      }
      var prev := usedIdx;
      var next := U16(prev + count);
      ringUsedIdx := next;
      usedIdx := next;
      inuse := U32(inuse - count);
      if S16(next - signalledUsed) < U16(next - prev) {
        signalledUsedValid := false;
      }
    }

    method QueuePush(e: UsedElem)
      requires Valid() && e.id < num
      modifies this, usedRing, desc
      ensures Valid() && broken == old(broken) && inflightTracking == old(inflightTracking)
      ensures !broken ==>
                Q() == if inflightTracking then PushTracked(old(Q()), e) else RingIndex.PushOne(old(Q()), e)
      ensures broken ==> Q() == if inflightTracking then PushBroken(old(Q()), e) else old(Q())
    {
      QueueFill(e, 0);
      if inflightTracking {
        lastBatchHead := e.id;
      }
      QueueFlush(1);
      if inflightTracking {
        desc[e.id] := desc[e.id].(inflight := false);
        logUsedIdx := usedIdx;
      }
    }

    method VringNotify(mode: NotifyMode) returns (notify: bool)
      requires Valid()
      modifies this
      ensures Valid() && (!broken ==> (Q(), notify) == Notify(old(Q()), mode))
      ensures broken && mode.notifyOnEmpty && old(inuse) == 0 ==> (Q(), notify) == (old(Q()), true)
      ensures broken && !(mode.notifyOnEmpty && old(inuse) == 0) ==>
                (Q(), notify) == Notify(old(Q()), mode.(notifyOnEmpty := false))
      ensures broken == old(broken) && inflightTracking == old(inflightTracking)
    {
      if mode.notifyOnEmpty && inuse == 0 {
        var empty := QueueEmpty();
        if empty {
          return true;
        }
      }
      if !mode.eventIdx {
        return !mode.noInterrupt;
      }
      var valid, prev := signalledUsedValid, signalledUsed;
      signalledUsedValid := true;
      signalledUsed := usedIdx;
      return !valid || NeedEvent(usedEvent, usedIdx, prev);
    }

    /** The first half of recovery: read the used index and, if the log lags
        it, finish the interrupted completion. */
    method Resettle()
      requires Valid() && lastBatchHead < num
      modifies this`usedIdx, this`logUsedIdx, desc
      ensures Valid() && Q() == Resettled(old(Q()))
    {
      usedIdx := ringUsedIdx;
      if logUsedIdx != usedIdx {
        desc[lastBatchHead] := desc[lastBatchHead].(inflight := false);
        logUsedIdx := usedIdx;
      }
    }

    method CountMarked()
      requires Valid() && inuse + num < WRAP32
      modifies this`inuse
      ensures Valid() && inuse == old(inuse) + |Marked(desc[..])| < WRAP32
    {
      for i := 0 to desc.Length
        invariant inuse == old(inuse) + |Marked(desc[..i])| && |Marked(desc[..i])| <= i
      {
        MarkedStep(desc[..], i);
        if desc[i].inflight {
          inuse := U32(inuse + 1);
        }
      }
      assert desc[..desc.Length] == desc[..];
    }

    method CollectMarked()
      requires Valid() && resubmit == []
      modifies this`resubmit
      ensures Valid() && resubmit == Marked(desc[..])
    {
      for i := 0 to desc.Length
        invariant resubmit == Marked(desc[..i])
      {
        MarkedStep(desc[..], i);
        if desc[i].inflight {
          resubmit := resubmit + [InflightDesc(i, desc[i].counter)];
        }
      }
      assert desc[..desc.Length] == desc[..];
    }

    /** The resubmit list of a queue in use; a zeroed list gives counter 1. */
    method BuildResubmit()
      requires Valid() && resubmit == [] && counter == 0 && inuse >= |Marked(desc[..])|
      modifies this`resubmit, this`counter
      ensures Valid() && QsortResult(Marked(desc[..]), resubmit)
      ensures counter == if inuse == 0 then 0 else if resubmit == [] then 1 else U64(resubmit[0].counter + 1)
    {
      if inuse != 0 {
        CollectMarked();
        if |resubmit| > 1 {
          var sorted := Qsort(resubmit);
          SameEntries(resubmit, sorted, num);
          resubmit := sorted;
        }
        counter := if resubmit == [] then 1 else U64(resubmit[0].counter + 1);
      }
    }

    /** The indices recovery sets from the number of marks. */
    method PlaceIndices()
      requires Valid() && inuse + num < WRAP32
      modifies this`resubmit, this`counter, this`inuse, this`lastAvailIdx, this`shadowAvailIdx
      ensures Valid() && resubmit == [] && counter == 0
      ensures inuse == old(inuse) + |Marked(desc[..])| && lastAvailIdx == shadowAvailIdx == U16(inuse + usedIdx)
    {
      resubmit := [];
      counter := 0;
      CountMarked();
      lastAvailIdx := U16(inuse + usedIdx);
      shadowAvailIdx := lastAvailIdx;
    }

    /** The second half of recovery: rebuild the volatile fields from the log. */
    method ScanLog()
      requires Valid() && inuse + num < WRAP32
      modifies this`resubmit, this`counter, this`inuse, this`lastAvailIdx, this`shadowAvailIdx
      ensures Valid() && |resubmit| <= num && QsortResult(Marked(old(Q()).shm.desc), resubmit)
      ensures Q() == old(Q()).(vq := ScannedOver(old(Q()).vq, resubmit))
    {
      ghost var q := Q();
      PlaceIndices();
      BuildResubmit();
      ScannedFields(q.vq, Marked(q.shm.desc), resubmit, inuse, q.shm.desc);
      assert Q() == q.(vq := ScannedOver(q.vq, resubmit));
    }

    /** `vu_check_queue_inflights`: nothing without the log, only a version on a log
        that has none, else settle and scan. */
    method CheckQueueInflights()
      requires Valid() && lastBatchHead < num && inuse + num < WRAP32
      modifies this, desc
      ensures Valid() && broken == old(broken) && inflightTracking == old(inflightTracking)
      ensures !inflightTracking ==> Q() == old(Q()) && logVersion == old(logVersion)
      ensures inflightTracking && old(logVersion) == 0 ==> Q() == old(Q()) && logVersion == 1
      ensures inflightTracking && old(logVersion) != 0 ==>
                && QsortResult(Marked(Resettled(old(Q())).shm.desc), resubmit)
                && Q() == Resettled(old(Q())).(vq := ScannedOver(Resettled(old(Q())).vq, resubmit))
                && (old(inuse) == 0 ==> Q() == Resettled(old(Q())).(vq := Scanned(Resettled(old(Q())).vq, resubmit)))
    {
      if !inflightTracking {
        return;
      }
      if logVersion == 0 {
        logVersion := 1;
        return;
      }
      Resettle();
      ScanLog();
    }
  }

  /** A pop as far as the head of the next avail entry: the queue, the head, and
      whether the device broke. */
  function HeadRead(q: Queue): (Queue, Option<nat>, bool)
    requires WellFormed(q)
  {
    var (q1, empty) := EmptyCheck(q);
    if empty then (q1, None, false)
    else if q1.vq.inuse >= q1.num then (q1, None, true)
    else
      var next := NextHead(q1);
      var q2 := q1.(vq := q1.vq.(lastAvailIdx := U16(q1.vq.lastAvailIdx + 1)));
      if next >= q.num then (q2, None, true) else (q2, Some(next), false)
  }

  /** On the true counters: an empty ring gives no head and leaves device and queue
      as they are; else the head is the next entry's, the index moves by one, and the
      device breaks if and only if the head is no index. */
  lemma HeadReadExact(q: Queue, k: RingIndex.Counters)
    requires RingIndex.RingInv(q, k)
    ensures k.last == k.avail ==> HeadRead(q) == (q, None, false)
    ensures k.last < k.avail ==>
              var (r, next, failed) := HeadRead(q);
              var entry := q.shm.availRing[k.last % q.num];
              && failed == (entry >= q.num) && next == (if failed then None else Some(entry))
              && r == q.(vq := q.vq.(lastAvailIdx := U16(k.last + 1), shadowAvailIdx := r.vq.shadowAvailIdx))
              && r.vq.shadowAvailIdx == U16(if k.shadow == k.last then k.avail else k.shadow)
  {
    RingIndex.EmptyAgrees(q, k);
    RingIndex.InuseIsDistance(q, k);
    SlotUnwrap(k.last, q.num);
    WrapAdd(k.last, 1);
    WrapInjective(k.last, k.shadow);
  }

  function Counted(q: Queue): Queue {
    q.(vq := q.vq.(inuse := U32(q.vq.inuse + 1)))
  }

  /** What taking the next avail entry does to the queue and returns. */
  ghost predicate FetchedBy(q: Queue, chains: seq<Option<Element>>, tracking: bool, r: Queue, head: Option<nat>, broken: bool)
    requires WellFormed(q) && |chains| == q.num
  {
    var (q1, next, failed) := HeadRead(q);
    match next
    case None => head == None && r == q1 && broken == failed
    case Some(h) =>
      && h < |chains|
      && head == (if chains[h] == None then None else Some(h)) && broken == (chains[h] == None)
      && r == Taken(q1, h, chains[h].Some?, tracking)
  }

  /** The queue once a head's chain is mapped or not: counted, and entered in the
      log when there is one. */
  function Taken(q: Queue, head: nat, mapped: bool, tracking: bool): Queue {
    if !mapped then q
    else if tracking && head < |q.shm.desc| then EnterLog(Counted(q), head)
    else Counted(q)
  }

  /** A fetch that succeeds is the pop of the crash model. */
  lemma FetchIsPop(q: Queue, chains: seq<Option<Element>>, r: Queue, head: nat)
    requires WellFormed(q) && |chains| == q.num && FetchedBy(q, chains, true, r, Some(head), false)
    ensures head < q.num && r == EnterLog(PopIndices(EmptyCheck(q).0), head) && head == NextHead(EmptyCheck(q).0)
  {
  }

  lemma ScannedFields(vq: Vq, marked: seq<InflightDesc>, list: seq<InflightDesc>, inuse: nat, desc: seq<DescState>)
    requires marked == Marked(desc) && multiset(list) == multiset(marked) && inuse == vq.inuse + |marked| < WRAP32
    ensures |list| == |marked| <= |desc|
    ensures ScannedOver(vq, list) ==
            vq.(inuse := inuse, lastAvailIdx := U16(inuse + vq.usedIdx), shadowAvailIdx := U16(inuse + vq.usedIdx),
                resubmit := list,
                counter := if inuse == 0 then 0 else if list == [] then 1 else U64(list[0].counter + 1))
  {
    SameSize(marked, list);
    RingIndex.MarkedBound(desc);
  }

  lemma SameSize(a: seq<InflightDesc>, b: seq<InflightDesc>)
    requires multiset(a) == multiset(b)
    ensures |a| == |b|
  {
    assert |multiset(a)| == |a| && |multiset(b)| == |b|;
  }

  lemma SameEntries(a: seq<InflightDesc>, b: seq<InflightDesc>, num: nat)
    requires multiset(a) == multiset(b) && forall k :: 0 <= k < |a| ==> a[k].index < num
    ensures |a| == |b| && forall k :: 0 <= k < |b| ==> b[k].index < num
  {
    SameSize(a, b);
    forall k | 0 <= k < |b|
      ensures b[k].index < num
    {
      assert b[k] in multiset(b);
      assert b[k] in a;
    }
  }

  lemma MarkedStep(desc: seq<DescState>, i: nat)
    requires i < |desc|
    ensures Marked(desc[..i + 1]) ==
            if desc[i].inflight then Marked(desc[..i]) + [InflightDesc(i, desc[i].counter)] else Marked(desc[..i])
  {
    assert desc[..i + 1][..i] == desc[..i];
  }
}
