/** What the 16-bit ring indices mean.  Unbounded counters stand behind the
    wrapped ones; `RingInv` ties the two together and every run of driver and
    device calls keeps it.  From it follow the meaning of `inuse`, of the
    cached avail index, of the event-index notification test, and the
    equivalence of batched and single completion. */
module RingIndex {
  import opened Vring

  /** True, never wrapping, values of the avail index, the next entry to pop,
      the cached avail index, the used index and the used index at the last
      signal. */
  datatype Counters = Counters(avail: nat, last: nat, shadow: nat, used: nat, sig: nat)

  predicate RingInv(q: Queue, k: Counters) {
    && WellFormed(q)
    && q.shm.availIdx == U16(k.avail)
    && q.vq.lastAvailIdx == U16(k.last)
    && q.vq.shadowAvailIdx == U16(k.shadow)
    && q.vq.usedIdx == U16(k.used)
    && q.shm.usedIdx == U16(k.used)
    && k.used <= k.last <= k.shadow <= k.avail <= k.used + q.num
    && q.vq.inuse == k.last - k.used
    && (q.vq.signalledUsedValid ==> q.vq.signalledUsed == U16(k.sig) && k.sig <= k.used < k.sig + 0x8000)
  }

  datatype RingOp =
    | DriverAdd(head: nat)
    | PopOne
    | UnpopOne
    | RewindBy(count: nat)
    | FillAt(elem: UsedElem, idx: nat)
    | FlushBy(count: nat)
    | NotifyWith(mode: NotifyMode)
    | DriverEvent(event: uint16)
    | LogStore(desc: seq<DescState>, batch: nat, used: uint16)
    | Recover(list: seq<InflightDesc>)

  /** What the caller of each operation owes: a driver keeps at most `num`
      buffers outstanding, a device neither returns nor completes more
      elements than it holds, and recovery finds no more marks in the log than
      buffers outstanding.  `LogStore` is any change of the in-flight log. */
  ghost predicate Enabled(q: Queue, op: RingOp) {
    match op
    case LogStore(desc, batch, used) => |desc| == q.num
    case Recover(list) => FromLog(q, list) && |list| <= U16(q.shm.availIdx - q.shm.usedIdx)
    case DriverAdd(head) => U16(q.shm.availIdx - q.shm.usedIdx) < q.num
    case UnpopOne => q.vq.inuse > 0
    case FlushBy(count) => count <= q.vq.inuse
    case _ => true
  }

  /** `list` is what recovery sorts out of the log. */
  ghost predicate FromLog(q: Queue, list: seq<InflightDesc>) {
    q.shm.lastBatchHead < |q.shm.desc| && QsortResult(Marked(Resettled(q.(vq := FreshVq)).shm.desc), list)
  }

  function Step(q: Queue, op: RingOp): Queue
    requires WellFormed(q)
  {
    match op
    case LogStore(desc, batch, used) =>
      q.(shm := q.shm.(desc := desc, lastBatchHead := batch, logUsedIdx := used))
    case Recover(list) =>
      if q.shm.lastBatchHead < |q.shm.desc| then Recovered(q, list) else q
    case DriverAdd(head) =>
      q.(shm := q.shm.(availRing := q.shm.availRing[q.shm.availIdx % q.num := head],
                       availIdx := U16(q.shm.availIdx + 1)))
    case PopOne =>
      var (q1, empty) := EmptyCheck(q);
      if empty || q1.vq.inuse >= q1.num then q1 else PopIndices(q1)
    case UnpopOne => Unpop(q)
    case RewindBy(count) => Rewind(q, count).0
    case FillAt(elem, idx) => Fill(q, elem, idx)
    case FlushBy(count) => Flush(q, count)
    case NotifyWith(mode) => Notify(q, mode).0
    case DriverEvent(event) => q.(shm := q.shm.(usedEvent := event))
  }

  /** The same step on the unbounded counters.  Only a pop and a notification
      look at the queue: they may refresh the cached avail index. */
  function CountersAfter(q: Queue, k: Counters, op: RingOp): Counters {
    match op
    case DriverAdd(head) => k.(avail := k.avail + 1)
    case PopOne =>
      if k.avail == k.last then k.(shadow := k.avail)
      else k.(shadow := if k.shadow == k.last then k.avail else k.shadow, last := k.last + 1)
    case UnpopOne => if k.last > 0 then k.(last := k.last - 1) else k
    case RewindBy(count) => if count > k.last - k.used || count > k.last then k else k.(last := k.last - count)
    case FillAt(elem, idx) => k
    case FlushBy(count) => k.(used := k.used + count)
    case NotifyWith(mode) =>
      var k1 := if mode.notifyOnEmpty && k.last == k.used && k.shadow == k.last then k.(shadow := k.avail) else k;
      if mode.notifyOnEmpty && k.last == k.used && k.avail == k.last then k1
      else if mode.eventIdx then k1.(sig := k.used)
      else k1
    case DriverEvent(event) => k
    case LogStore(_, _, _) => k
    case Recover(list) => k.(last := k.used + |list|, shadow := k.used + |list|)
  }

  // ----- consequences of the invariant -----

  /** `vu_queue_empty` with its cached index answers what reading avail.idx
      directly would. */
  lemma EmptyAgrees(q: Queue, k: Counters)
    requires RingInv(q, k)
    ensures EmptyCheck(q).1 <==> q.shm.availIdx == q.vq.lastAvailIdx
    ensures EmptyCheck(q).1 <==> k.avail == k.last
  {
    WrapInjective(k.last, k.shadow);
    WrapInjective(k.last, k.avail);
  }

  /** `inuse` is the wrapped distance from used_idx to last_avail_idx, at most
      the queue size; and a pop that finds an entry is never refused for
      exceeding the queue size. */
  lemma InuseIsDistance(q: Queue, k: Counters)
    requires RingInv(q, k)
    ensures q.vq.inuse == U16(q.vq.lastAvailIdx - q.vq.usedIdx) <= q.num
    ensures !EmptyCheck(q).1 ==> q.vq.inuse < q.num
  {
    WrapDistance(k.used, k.last);
    EmptyAgrees(q, k);
  }

  // ----- every step keeps the invariant -----

  lemma DriverAddKeeps(q: Queue, k: Counters, head: nat)
    requires RingInv(q, k) && Enabled(q, DriverAdd(head))
    ensures RingInv(Step(q, DriverAdd(head)), CountersAfter(q, k, DriverAdd(head)))
  {
    WrapDistance(k.used, k.avail);
    WrapAdd(k.avail, 1);
  }

  lemma EmptyCheckKeeps(q: Queue, k: Counters)
    requires RingInv(q, k)
    ensures RingInv(EmptyCheck(q).0, if k.shadow == k.last then k.(shadow := k.avail) else k)
  {
    WrapInjective(k.last, k.shadow);
  }

  lemma PopIndicesKeep(q: Queue, k: Counters)
    requires RingInv(q, k) && k.last < k.shadow
    ensures RingInv(PopIndices(q), k.(last := k.last + 1))
  {
    WrapAdd(k.last, 1);
  }

  lemma PopKeeps(q: Queue, k: Counters)
    requires RingInv(q, k)
    ensures RingInv(Step(q, PopOne), CountersAfter(q, k, PopOne))
  {
    EmptyAgrees(q, k);
    InuseIsDistance(q, k);
    EmptyCheckKeeps(q, k);
    if k.avail != k.last {
      PopIndicesKeep(EmptyCheck(q).0, if k.shadow == k.last then k.(shadow := k.avail) else k);
    }
  }

  lemma UnpopKeeps(q: Queue, k: Counters)
    requires RingInv(q, k) && Enabled(q, UnpopOne)
    ensures RingInv(Step(q, UnpopOne), CountersAfter(q, k, UnpopOne))
  {
    WrapAdd(k.last, -1);
  }

  lemma RewindKeeps(q: Queue, k: Counters, count: nat)
    requires RingInv(q, k)
    ensures RingInv(Step(q, RewindBy(count)), CountersAfter(q, k, RewindBy(count)))
  {
    if count <= k.last { WrapAdd(k.last, -(count as int)); }
  }

  /** The signed comparison of `vu_queue_flush` on true distances. */
  lemma SignedDistance(sig: nat, used: nat, count: nat)
    requires sig <= used < sig + 0x8000 && count <= VIRTQUEUE_MAX_SIZE
    ensures S16(U16(used + count) - U16(sig)) < U16(U16(used + count) - U16(used))
            <==> used + count >= sig + 0x8000
  {
    WrapDistance(sig, used + count);
    WrapDistance(used, used + count);
    assert U16(U16(used + count) - U16(sig)) == used + count - sig;
  }

  /** The validity flag survives a flush exactly when the true distance from
      the last signalled index is still below 2^15. */
  lemma FlushValidity(q: Queue, k: Counters, count: nat)
    requires RingInv(q, k) && Enabled(q, FlushBy(count))
    ensures Flush(q, count).vq.signalledUsedValid
            <==> q.vq.signalledUsedValid && k.used + count < k.sig + 0x8000
  {
    if q.vq.signalledUsedValid {
      assert count <= VIRTQUEUE_MAX_SIZE;
      assert Flush(q, count).vq.usedIdx == U16(k.used + count) by { WrapAdd(k.used, count); }
      SignedDistance(k.sig, k.used, count);
    }
  }

  lemma FlushKeeps(q: Queue, k: Counters, count: nat)
    requires RingInv(q, k) && Enabled(q, FlushBy(count))
    ensures RingInv(Flush(q, count), CountersAfter(q, k, FlushBy(count)))
  {
    FlushValidity(q, k, count);
    WrapAdd(k.used, count);
  }

  lemma NotifyKeeps(q: Queue, k: Counters, mode: NotifyMode)
    requires RingInv(q, k)
    ensures RingInv(Notify(q, mode).0, CountersAfter(q, k, NotifyWith(mode)))
  {
    EmptyAgrees(q, k);
    EmptyCheckKeeps(q, k);
  }

  lemma StepKeeps(q: Queue, k: Counters, op: RingOp)
    requires RingInv(q, k) && Enabled(q, op)
    ensures RingInv(Step(q, op), CountersAfter(q, k, op))
  {
    match op
    case DriverAdd(head) => DriverAddKeeps(q, k, head);
    case PopOne => PopKeeps(q, k);
    case UnpopOne => UnpopKeeps(q, k);
    case RewindBy(count) => RewindKeeps(q, k, count);
    case FillAt(elem, idx) =>
    case FlushBy(count) => FlushKeeps(q, k, count);
    case NotifyWith(mode) => NotifyKeeps(q, k, mode);
    case DriverEvent(event) =>
    case LogStore(_, _, _) =>
    case Recover(list) => RecoverKeeps(q, k, list);
  }

  // ----- recovery -----

  lemma {:induction false} MarkedBound(desc: seq<DescState>)
    ensures |Marked(desc)| <= |desc|
    decreases |desc|
  {
    if desc != [] { MarkedBound(desc[..|desc| - 1]); }
  }

  lemma FromLogSize(q: Queue, list: seq<InflightDesc>)
    requires WellFormed(q) && FromLog(q, list)
    ensures |list| <= q.num
  {
    var marked := Marked(Resettled(q.(vq := FreshVq)).shm.desc);
    MarkedBound(Resettled(q.(vq := FreshVq)).shm.desc);
    assert |multiset(list)| == |list| && |multiset(marked)| == |marked|;
  }

  lemma RecoveredFields(q: Queue, list: seq<InflightDesc>, used: nat)
    requires WellFormed(q) && FromLog(q, list) && q.shm.usedIdx == U16(used)
    ensures |list| <= q.num
    ensures var r := Recovered(q, list);
            && WellFormed(r) && r.num == q.num
            && r.shm == q.shm.(desc := r.shm.desc, logUsedIdx := r.shm.logUsedIdx)
            && r.vq.usedIdx == U16(used) && r.vq.inuse == |list|
            && r.vq.lastAvailIdx == r.vq.shadowAvailIdx == U16(used + |list|)
            && !r.vq.signalledUsedValid
  {
    FromLogSize(q, list);
    WrapAdd(used, |list|);
  }

  /** From any log, recovery leaves `inuse` equal to the distance between the
      two indices and at most the queue size. */
  lemma RecoveredInuse(q: Queue, list: seq<InflightDesc>)
    requires WellFormed(q) && FromLog(q, list)
    ensures var r := Recovered(q, list);
            r.vq.inuse == U16(r.vq.lastAvailIdx - r.vq.usedIdx) <= r.num
  {
    RecoveredFields(q, list, q.shm.usedIdx);
    WrapDistance(q.shm.usedIdx, q.shm.usedIdx + |list|);
  }

  lemma RecoverKeeps(q: Queue, k: Counters, list: seq<InflightDesc>)
    requires RingInv(q, k) && Enabled(q, Recover(list))
    ensures RingInv(Step(q, Recover(list)), CountersAfter(q, k, Recover(list)))
  {
    WrapDistance(k.used, k.avail);
    RecoveredFields(q, list, k.used);
  }

  /** With more marks than buffers outstanding, the recovered queue passes the
      avail index: it is not empty although nothing is left to fetch. */
  lemma RecoverKeepsIff(q: Queue, k: Counters, list: seq<InflightDesc>)
    requires RingInv(q, k) && FromLog(q, list)
    ensures |list| <= U16(q.shm.availIdx - q.shm.usedIdx) <==>
              exists m :: RingInv(Recovered(q, list), m) && m.avail == k.avail && m.used == k.used
    ensures |list| > U16(q.shm.availIdx - q.shm.usedIdx) ==> !EmptyCheck(Recovered(q, list)).1
  {
    WrapDistance(k.used, k.avail);
    RecoveredFields(q, list, k.used);
    if |list| <= U16(q.shm.availIdx - q.shm.usedIdx) {
      assert RingInv(Recovered(q, list), CountersAfter(q, k, Recover(list))) by { RecoverKeeps(q, k, list); }
    } else {
      WrapInjective(k.avail, k.used + |list|);
    }
  }

  /** A batch published by a plain flush leaves its marks, of which recovery
      clears one: two requests completed, one to be replayed. */
  lemma BatchLeavesMarks(q: Queue, k: Counters)
    requires q == Queue(2, Shm(2, [0, 1], 0, 0, [UsedElem(0, 0), UsedElem(0, 0)],
                               [DescState(true, 0), DescState(true, 1)], 0, 0), Vq(2, 2, 0, 0, false, 2, 2, []))
    requires k == Counters(2, 2, 2, 0, 0)
    ensures RingInv(q, k)
    ensures var done := Flush(FillEach(q, [UsedElem(0, 8), UsedElem(1, 8)]), 2);
            && FromLog(done, [InflightDesc(1, 1)])
            && U16(done.shm.availIdx - done.shm.usedIdx) == 0 < 1
  {
    var done := Flush(FillEach(q, [UsedElem(0, 8), UsedElem(1, 8)]), 2);
    var settled := [DescState(false, 0), DescState(true, 1)];
    assert Resettled(done.(vq := FreshVq)).shm.desc == settled;
    assert settled[..1] == [DescState(false, 0)] && [DescState(false, 0)][..0] == [];
    assert Marked(settled[..1]) == [];
    assert Marked(settled) == [InflightDesc(1, 1)];
  }

  // ----- runs -----

  /** `q1` is reached from `q0` by performing `ops` in order. */
  ghost predicate Run(q0: Queue, ops: seq<RingOp>, q1: Queue)
    decreases |ops|
  {
    WellFormed(q0) &&
    if ops == [] then q0 == q1
    else Enabled(q0, ops[0]) && Run(Step(q0, ops[0]), ops[1..], q1)
  }

  /** The true counters after a run. */
  ghost function RunCounters(q: Queue, k: Counters, ops: seq<RingOp>): Counters
    decreases |ops|
  {
    if ops == [] || !WellFormed(q) then k
    else RunCounters(Step(q, ops[0]), CountersAfter(q, k, ops[0]), ops[1..])
  }

  /** Over every run, recoveries included, the 16-bit fields are the run's true
      counters wrapped, `inuse` is the distance between the two indices and at
      most the queue size, and the cached emptiness test is exact. */
  lemma {:induction false} RingIndexTheorem(q0: Queue, k0: Counters, ops: seq<RingOp>, q1: Queue)
    requires RingInv(q0, k0) && Run(q0, ops, q1)
    ensures RingInv(q1, RunCounters(q0, k0, ops))
    ensures q1.vq.inuse == U16(q1.vq.lastAvailIdx - q1.vq.usedIdx) <= q1.num
    ensures EmptyCheck(q1).1 <==> q1.shm.availIdx == q1.vq.lastAvailIdx
    decreases |ops|
  {
    if ops == [] {
      InuseIsDistance(q0, k0);
      EmptyAgrees(q0, k0);
    } else {
      StepKeeps(q0, k0, ops[0]);
      RingIndexTheorem(Step(q0, ops[0]), CountersAfter(q0, k0, ops[0]), ops[1..], q1);
    }
  }

  // ----- event-index notification -----

  /** `event` is the wrapped index of an entry in [from, to). */
  ghost predicate PublishedBetween(event: nat, from: nat, to: nat) {
    exists i: nat :: from <= i < to && U16(i) == event
  }

  lemma EventDistance(event: nat, i: nat, to: nat)
    requires event < WRAP16 && i < to <= i + WRAP16 && U16(i) == event
    ensures U16(U16(to) - event - 1) == to - 1 - i
  {
    WrapAdd(to, -1);
    WrapDistance(i, to - 1);
  }

  lemma EventIndex(event: nat, to: nat)
    requires event < WRAP16 && U16(U16(to) - event - 1) < to
    ensures U16(to - 1 - U16(U16(to) - event - 1)) == event
  {
    WrapIsMod(to);
    WrapIsMod(U16(to) - event - 1);
    WrapIsMod(to - 1 - U16(U16(to) - event - 1));
  }

  lemma NeedEventExact(event: nat, from: nat, to: nat)
    requires event < WRAP16 && from <= to < from + WRAP16
    ensures NeedEvent(event, U16(to), U16(from)) <==> PublishedBetween(event, from, to)
  {
    WrapDistance(from, to);
    if NeedEvent(event, U16(to), U16(from)) {
      EventIndex(event, to);
      assert PublishedBetween(event, from, to);
    }
    if PublishedBetween(event, from, to) {
      var i: nat :| from <= i < to && U16(i) == event;
      EventDistance(event, i, to);
    }
  }

  /** Outside the notify-on-empty case, with event indices negotiated,
      `vring_notify` returns true when the last signalled index is no longer
      valid, and otherwise exactly when the driver's used_event is among the
      entries published since the last signal. */
  lemma NotifyExact(q: Queue, k: Counters, mode: NotifyMode)
    requires RingInv(q, k) && mode.eventIdx
    requires !(mode.notifyOnEmpty && k.last == k.used && k.avail == k.last)
    ensures Notify(q, mode).1
            <==> !q.vq.signalledUsedValid || PublishedBetween(q.shm.usedEvent, k.sig, k.used)
    ensures var q1 := Notify(q, mode).0; q1.vq.signalledUsedValid && q1.vq.signalledUsed == U16(k.used)
  {
    EmptyAgrees(q, k);
    if q.vq.signalledUsedValid {
      NeedEventExact(q.shm.usedEvent, k.sig, k.used);
    }
  }

  /** Nothing is in use and nothing is left to fetch, and the driver asked to hear of
      that. */
  predicate ToldEmpty(k: Counters, mode: NotifyMode) {
    mode.notifyOnEmpty && k.last == k.used && k.avail == k.last
  }

  /** The decision of `vring_notify` for every combination of features: always in
      the notify-on-empty case; else with event indices by what was published since
      the last signal, and without them by the driver's flag. The signal is recorded
      exactly when it was decided by event indices; else at most the cached avail
      index moves. */
  lemma NotifyIff(q: Queue, k: Counters, mode: NotifyMode)
    requires RingInv(q, k)
    ensures Notify(q, mode).1 <==>
              || ToldEmpty(k, mode)
              || (if mode.eventIdx then !q.vq.signalledUsedValid || PublishedBetween(q.shm.usedEvent, k.sig, k.used)
                  else !mode.noInterrupt)
    ensures var q1 := Notify(q, mode).0;
            && q1 == q.(vq := q.vq.(shadowAvailIdx := q1.vq.shadowAvailIdx, signalledUsed := q1.vq.signalledUsed,
                                    signalledUsedValid := q1.vq.signalledUsedValid))
            && (q1.vq.shadowAvailIdx == q.vq.shadowAvailIdx || q1.vq.shadowAvailIdx == U16(k.avail))
            && if mode.eventIdx && !ToldEmpty(k, mode) then q1.vq.signalledUsedValid && q1.vq.signalledUsed == U16(k.used)
               else q1.vq.signalledUsedValid == q.vq.signalledUsedValid && q1.vq.signalledUsed == q.vq.signalledUsed
  {
    EmptyAgrees(q, k);
    if mode.eventIdx && !ToldEmpty(k, mode) {
      NotifyExact(q, k, mode);
    }
  }

  /** The same at the end of any run, against the entries the run published since its
      last signal. */
  lemma NotifyAfterRun(q0: Queue, k0: Counters, ops: seq<RingOp>, q1: Queue, mode: NotifyMode)
    requires RingInv(q0, k0) && Run(q0, ops, q1)
    ensures var k1 := RunCounters(q0, k0, ops);
            Notify(q1, mode).1 <==>
              || ToldEmpty(k1, mode)
              || (if mode.eventIdx then !q1.vq.signalledUsedValid || PublishedBetween(q1.shm.usedEvent, k1.sig, k1.used)
                  else !mode.noInterrupt)
  {
    RingIndexTheorem(q0, k0, ops, q1);
    NotifyIff(q1, RunCounters(q0, k0, ops), mode);
  }

  /** In the notify-on-empty case the driver is always notified. */
  lemma NotifyOnEmpty(q: Queue, k: Counters, mode: NotifyMode)
    requires RingInv(q, k) && mode.notifyOnEmpty && k.last == k.used && k.avail == k.last
    ensures Notify(q, mode).1
  {
    EmptyAgrees(q, k);
  }

  // ----- what a push publishes -----

  /** A fill writes the element, its length included, `idx` places past the entries
      published, and nothing else. */
  lemma FillPlaces(q: Queue, k: Counters, e: UsedElem, idx: nat)
    requires RingInv(q, k)
    ensures var slot := (k.used + idx) % q.num;
            Fill(q, e, idx) == q.(shm := q.shm.(usedRing := q.shm.usedRing[slot := e]))
  {
    SameSlot(k.used, idx, q.num);
  }

  // ----- batching -----

  /** `vu_queue_push` without in-flight tracking. */
  function PushOne(q: Queue, e: UsedElem): Queue
    requires WellFormed(q)
  {
    Flush(Fill(q, e, 0), 1)
  }

  function PushEach(q: Queue, es: seq<UsedElem>): (r: Queue)
    requires WellFormed(q)
    ensures WellFormed(r) && r.num == q.num
    decreases |es|
  {
    if es == [] then q else PushOne(PushEach(q, es[..|es| - 1]), es[|es| - 1])
  }

  /** Fills at offsets 0, 1, ... without publishing. */
  function FillEach(q: Queue, es: seq<UsedElem>): (r: Queue)
    requires WellFormed(q)
    ensures WellFormed(r) && r.vq == q.vq && r.num == q.num
    ensures r.shm == q.shm.(usedRing := r.shm.usedRing)
    decreases |es|
  {
    if es == [] then q else Fill(FillEach(q, es[..|es| - 1]), es[|es| - 1], |es| - 1)
  }

  /** The queue with `used` entries published in all, `inuse` left and the last
      signal at `sig`. */
  function Published(q: Queue, used: nat, inuse: uint32, sig: nat): Queue {
    q.(shm := q.shm.(usedIdx := U16(used)),
       vq := q.vq.(usedIdx := U16(used), inuse := inuse,
                   signalledUsedValid := q.vq.signalledUsedValid && used < sig + 0x8000))
  }

  /** A flush, on true values. */
  lemma FlushIndex(q: Queue, k: Counters, n: nat)
    requires RingInv(q, k) && n <= q.vq.inuse
    ensures Flush(q, n) == Published(q, k.used + n, q.vq.inuse - n, k.sig)
  {
    WrapAdd(k.used, n);
    FlushValidity(q, k, n);
  }

  lemma SecondFlush(q: Queue, k: Counters, n: nat, q1: Queue)
    requires RingInv(q, k) && n < q.vq.inuse && q1 == Flush(q, n)
    ensures q1 == Published(q, k.used + n, q.vq.inuse - n, k.sig)
    ensures Flush(q1, 1) == Published(q1, k.used + n + 1, q.vq.inuse - n - 1, k.sig)
  {
    FlushIndex(q, k, n);
    FlushKeeps(q, k, n);
    FlushIndex(q1, k.(used := k.used + n), 1);
  }

  lemma JoinFlushes(q: Queue, q1: Queue, a: Queue, b: Queue, used: nat, left: uint32, sig: nat)
    requires left > 0 && q1 == Published(q, used, left, sig)
    requires a == Published(q, used + 1, left - 1, sig) && b == Published(q1, used + 1, left - 1, sig)
    ensures a == b
  {
  }

  /** Publishing one entry more is publishing once more. */
  lemma FlushSplits(q: Queue, k: Counters, n: nat)
    requires RingInv(q, k) && n < q.vq.inuse
    ensures Flush(q, n + 1) == Flush(Flush(q, n), 1)
  {
    var q1 := Flush(q, n);
    SecondFlush(q, k, n, q1);
    FlushIndex(q, k, n + 1);
    JoinFlushes(q, q1, Flush(q, n + 1), Flush(q1, 1), k.used + n, q.vq.inuse - n, k.sig);
  }

  /** Filling `n` places ahead before publishing `n` entries is filling the
      next place after publishing them. */
  lemma FillCommutes(q: Queue, k: Counters, e: UsedElem, n: nat)
    requires RingInv(q, k) && n <= q.vq.inuse
    ensures Flush(Fill(q, e, n), n) == Fill(Flush(q, n), e, 0)
  {
    FillSlot(q, k, n);
  }

  lemma FillSlot(q: Queue, k: Counters, n: nat)
    requires RingInv(q, k)
    ensures (n + q.vq.usedIdx) % q.num == U16(q.vq.usedIdx + n) % q.num
  {
    WrapAdd(k.used, n);
    SlotUnwrap(k.used + n, q.num);
    SameSlot(k.used, n, q.num);
  }

  lemma FlushNothing(q: Queue, k: Counters)
    requires RingInv(q, k)
    ensures Flush(q, 0) == q
  {
    WrapAdd(k.used, 0);
    FlushValidity(q, k, 0);
  }

  /** One more element, batched or pushed. */
  lemma BatchStep(q: Queue, k: Counters, e: UsedElem, n: nat)
    requires RingInv(q, k) && n < q.vq.inuse
    ensures Flush(Fill(q, e, n), n + 1) == PushOne(Flush(q, n), e)
  {
    FillCommutes(q, k, e, n);
    FlushSplits(Fill(q, e, n), k, n);
  }

  /** A batch of fills and one flush leaves the queue exactly as single
      pushes do: used ring, indices, `inuse` and signal validity. */
  lemma {:induction false} BatchEquivalence(q: Queue, k: Counters, es: seq<UsedElem>)
    requires RingInv(q, k) && |es| <= q.vq.inuse
    ensures Flush(FillEach(q, es), |es|) == PushEach(q, es)
    decreases |es|
  {
    if es == [] {
      FlushNothing(q, k);
    } else {
      var n := |es| - 1;
      BatchEquivalence(q, k, es[..n]);
      BatchStep(FillEach(q, es[..n]), k, es[n], n);
    }
  }

  lemma SameSlot(used: nat, n: nat, num: nat)
    requires QueueSize(num)
    ensures num > 0 && (n + U16(used)) % num == (used + n) % num
  {
    WrapIsMultiple(used, num);
    ModPlusMultiple(n + U16(used), WRAP16 / num * (used / WRAP16), num);
  }

  // ----- undoing pops -----

  function PopEach(q: Queue, n: nat): Queue {
    if n == 0 then q else PopIndices(PopEach(q, n - 1))
  }

  lemma {:induction false} PoppedIndices(q: Queue, n: nat)
    requires q.vq.inuse + n < WRAP32
    ensures PopEach(q, n) == q.(vq := q.vq.(lastAvailIdx := U16(q.vq.lastAvailIdx + n), inuse := q.vq.inuse + n))
  {
    if n > 0 {
      PoppedIndices(q, n - 1);
      WrapAdd(q.vq.lastAvailIdx + (n - 1), 1);
    }
  }

  /** Unpop takes back one pop, and rewind any number of them, also across the
      16-bit wrap. */
  lemma PopsUndone(q: Queue, n: nat)
    requires q.vq.inuse + n < WRAP32
    ensures Rewind(PopEach(q, n), n) == (q, true)
    ensures n > 0 ==> Unpop(PopEach(q, n)) == PopEach(q, n - 1)
  {
    PoppedIndices(q, n);
    RewindPops(q, PopEach(q, n), n);
    if n > 0 {
      PoppedIndices(q, n - 1);
      UnpopPop(PopEach(q, n - 1));
    }
  }

  /** A rewind is refused if and only if it takes back more than is in use, and then
      nothing changes; else both counts go back by as many. */
  lemma RewindIff(q: Queue, k: Counters, count: nat)
    requires RingInv(q, k)
    ensures Rewind(q, count).1 <==> count <= k.last - k.used
    ensures !Rewind(q, count).1 ==> Rewind(q, count).0 == q
    ensures Rewind(q, count).1 ==>
              Rewind(q, count).0 == q.(vq := q.vq.(lastAvailIdx := U16(k.last - count), inuse := k.last - count - k.used))
  {
    if count <= k.last - k.used { WrapAdd(k.last, -(count as int)); }
  }

  lemma RewindPops(q: Queue, p: Queue, n: nat)
    requires q.vq.inuse + n < WRAP32
    requires p == q.(vq := q.vq.(lastAvailIdx := U16(q.vq.lastAvailIdx + n), inuse := q.vq.inuse + n))
    ensures Rewind(p, n) == (q, true)
  {
    assert U16(U16(q.vq.lastAvailIdx + n) - n) == q.vq.lastAvailIdx by { WrapAdd(q.vq.lastAvailIdx + n, -(n as int)); }
  }

  lemma UnpopPop(q: Queue)
    requires q.vq.inuse + 1 < WRAP32
    ensures Unpop(PopIndices(q)) == q
  {
    assert U16(U16(q.vq.lastAvailIdx + 1) - 1) == q.vq.lastAvailIdx by { WrapAdd(q.vq.lastAvailIdx + 1, -1); }
  }
}
