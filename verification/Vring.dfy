/** The split virtqueue as libvhost-user sees it: the ring parts and the
    in-flight log that live in shared memory (`Shm`), and the per-queue
    bookkeeping that lives in the device process (`Vq`).  Every index is the
    16-bit value the C code stores. */
module Vring {
  import opened Common

  const WRAP16: nat := 0x1_0000
  const WRAP32: nat := 0x1_0000_0000
  const WRAP64: nat := 0x1_0000_0000_0000_0000
  const VIRTQUEUE_MAX_SIZE: nat := 1024

  type uint16 = x: nat | x < WRAP16
  type uint32 = x: nat | x < WRAP32
  type uint64 = x: nat | x < WRAP64

  /** Conversion to `uint16_t`: moved into range by multiples of 2^16. */
  function U16(x: int): (r: uint16)
    decreases if x < 0 then WRAP16 - x else x
  {
    if x < 0 then U16(x + WRAP16) else if x >= WRAP16 then U16(x - WRAP16) else x
  }

  /** Conversion to `int16_t`. */
  function S16(x: int): int {
    if U16(x) < 0x8000 then U16(x) else U16(x) - WRAP16
  }

  /** Conversion to `uint32_t`. */
  function U32(x: int): (r: uint32)
    decreases if x < 0 then WRAP32 - x else x
  {
    if x < 0 then U32(x + WRAP32) else if x >= WRAP32 then U32(x - WRAP32) else x
  }

  /** Conversion to `uint64_t`. */
  function U64(x: int): (r: uint64)
    decreases if x < 0 then WRAP64 - x else x
  {
    if x < 0 then U64(x + WRAP64) else if x >= WRAP64 then U64(x - WRAP64) else x
  }

  /** A queue size: a divisor of 2^16, that is a power of two, of at most 1024
      entries. */
  predicate QueueSize(n: nat) {
    0 < n <= VIRTQUEUE_MAX_SIZE && WRAP16 % n == 0
  }

  datatype UsedElem = UsedElem(id: nat, len: nat)

  /** One entry of the in-flight log's descriptor array. */
  datatype DescState = DescState(inflight: bool, counter: uint64)

  /** Memory shared with the driver and, for the in-flight log, with the
      front end: it survives a crash of the device process. */
  datatype Shm = Shm(
    availIdx: uint16,
    availRing: seq<nat>,
    usedEvent: uint16,
    usedIdx: uint16,
    usedRing: seq<UsedElem>,
    desc: seq<DescState>,
    lastBatchHead: nat,
    logUsedIdx: uint16)

  datatype InflightDesc = InflightDesc(index: nat, counter: uint64)

  /** The volatile fields of `VuVirtq`. */
  datatype Vq = Vq(
    lastAvailIdx: uint16,
    shadowAvailIdx: uint16,
    usedIdx: uint16,
    signalledUsed: uint16,
    signalledUsedValid: bool,
    inuse: uint32,
    counter: uint64,
    resubmit: seq<InflightDesc>)

  datatype Queue = Queue(num: nat, shm: Shm, vq: Vq)

  /** The queue size and the lengths of the arrays it governs. */
  predicate WellFormed(q: Queue) {
    && QueueSize(q.num)
    && |q.shm.availRing| == q.num
    && |q.shm.usedRing| == q.num
    && |q.shm.desc| == q.num
  }

  // ----- the effect of each call on the queue -----

  /** `vu_queue_empty`: the cached index is consulted first and refreshed
      only when it says there is nothing new. */
  function EmptyCheck(q: Queue): (Queue, bool) {
    if q.vq.shadowAvailIdx != q.vq.lastAvailIdx then
      (q, false)
    else
      (q.(vq := q.vq.(shadowAvailIdx := q.shm.availIdx)), q.shm.availIdx == q.vq.lastAvailIdx)
  }

  /** The head that the next pop from the avail ring fetches. */
  function NextHead(q: Queue): nat
    requires WellFormed(q)
  {
    q.shm.availRing[q.vq.lastAvailIdx % q.num]
  }

  /** The index updates of a successful pop from the avail ring. */
  function PopIndices(q: Queue): Queue {
    q.(vq := q.vq.(lastAvailIdx := U16(q.vq.lastAvailIdx + 1), inuse := U32(q.vq.inuse + 1)))
  }

  function Unpop(q: Queue): Queue {
    q.(vq := q.vq.(lastAvailIdx := U16(q.vq.lastAvailIdx - 1), inuse := U32(q.vq.inuse - 1)))
  }

  function Rewind(q: Queue, count: nat): (Queue, bool) {
    if count > q.vq.inuse then (q, false)
    else (q.(vq := q.vq.(lastAvailIdx := U16(q.vq.lastAvailIdx - count), inuse := q.vq.inuse - count)), true)
  }

  /** `vu_queue_fill`: one used-ring entry, `idx` places past the used index. */
  function Fill(q: Queue, e: UsedElem, idx: nat): Queue
    requires WellFormed(q)
  {
    q.(shm := q.shm.(usedRing := q.shm.usedRing[(idx + q.vq.usedIdx) % q.num := e]))
  }

  /** `vu_queue_flush`. */
  function Flush(q: Queue, count: nat): Queue {
    var prev := q.vq.usedIdx;
    var next := U16(prev + count);
    q.(shm := q.shm.(usedIdx := next),
       vq := q.vq.(
         usedIdx := next,
         inuse := U32(q.vq.inuse - count),
         signalledUsedValid := q.vq.signalledUsedValid
                               && !(S16(next - q.vq.signalledUsed) < U16(next - prev))))
  }

  /** `vring_need_event` of the virtio ring header. */
  predicate NeedEvent(event: nat, next: nat, prev: nat) {
    U16(next - event - 1) < U16(next - prev)
  }

  /** The negotiated features and driver flag that `vring_notify` looks at. */
  datatype NotifyMode = NotifyMode(notifyOnEmpty: bool, eventIdx: bool, noInterrupt: bool)

  /** `vring_notify`. */
  function Notify(q: Queue, mode: NotifyMode): (Queue, bool) {
    var checks := mode.notifyOnEmpty && q.vq.inuse == 0;
    var q1 := if checks then EmptyCheck(q).0 else q;
    if checks && EmptyCheck(q).1 then (q1, true)
    else if !mode.eventIdx then (q1, !mode.noInterrupt)
    else
      var next := q1.vq.usedIdx;
      (q1.(vq := q1.vq.(signalledUsedValid := true, signalledUsed := next)),
       !q1.vq.signalledUsedValid || NeedEvent(q1.shm.usedEvent, next, q1.vq.signalledUsed))
  }

  // ----- the in-flight log -----

  /** The marked entries of the log, in descriptor order. */
  function Marked(desc: seq<DescState>): (list: seq<InflightDesc>)
    ensures forall e :: e in list ==> e.index < |desc|
    decreases |desc|
  {
    if desc == [] then []
    else
      var n := |desc| - 1;
      var rest := Marked(desc[..n]);
      if desc[n].inflight then rest + [InflightDesc(n, desc[n].counter)] else rest
  }

  /** `inflight_desc_compare`: positive puts `a` after `b`. */
  function Compare(a: InflightDesc, b: InflightDesc): int {
    if b.counter > a.counter && b.counter - a.counter < VIRTQUEUE_MAX_SIZE * 2 then 1 else -1
  }

  /** Whether `Compare` decides every pair one way. */
  ghost predicate Consistent(list: seq<InflightDesc>) {
    forall i, j :: 0 <= i < j < |list| ==> Compare(list[i], list[j]) == -Compare(list[j], list[i])
  }

  /** What `qsort` promises: a permutation, ordered if the comparison decides
      every pair one way. */
  ghost predicate QsortResult(input: seq<InflightDesc>, output: seq<InflightDesc>) {
    && multiset(output) == multiset(input)
    && (Consistent(input) ==> forall i, j :: 0 <= i < j < |output| ==> Compare(output[i], output[j]) <= 0)
  }

  /** The volatile fields of a process that has just started. */
  const FreshVq: Vq := Vq(0, 0, 0, 0, false, 0, 0, [])

  /** A zeroed queue of `num` entries. */
  function NewQueue(num: nat): Queue {
    Queue(num, Shm(0, seq(num, _ => 0), 0, 0, seq(num, _ => UsedElem(0, 0)), seq(num, _ => DescState(false, 0)), 0, 0), FreshVq)
  }

  /** Overwrite one in-flight mark. */
  function SetMark(q: Queue, head: nat, mark: bool): Queue
    requires head < |q.shm.desc|
  {
    q.(shm := q.shm.(desc := q.shm.desc[head := q.shm.desc[head].(inflight := mark)]))
  }

  /** Stamp a log entry with the running counter and advance the counter. */
  function StampCounter(q: Queue, head: nat): Queue
    requires head < |q.shm.desc|
  {
    q.(shm := q.shm.(desc := q.shm.desc[head := q.shm.desc[head].(counter := q.vq.counter)]),
       vq := q.vq.(counter := U64(q.vq.counter + 1)))
  }

  /** The volatile fields recovery sets once log and used ring agree: `list`
      is the sorted log. */
  function Scanned(vq: Vq, list: seq<InflightDesc>): Vq {
    var last := U16(|list| + vq.usedIdx);
    vq.(inuse := U32(|list|),
        lastAvailIdx := last,
        shadowAvailIdx := last,
        resubmit := list,
        counter := if list == [] then 0 else U64(list[0].counter + 1))
  }

  /** The queue once recovery has brought the log in step with the ring. */
  function Resettled(q: Queue): Queue
    requires q.shm.lastBatchHead < |q.shm.desc|
  {
    var read := q.(vq := q.vq.(usedIdx := q.shm.usedIdx));
    if q.shm.logUsedIdx == q.shm.usedIdx then read
    else
      var cleared := SetMark(read, q.shm.lastBatchHead, false);
      cleared.(shm := cleared.shm.(logUsedIdx := q.shm.usedIdx))
  }

  /** Recovery by a process that has just started, `list` being the sorted log. */
  function Recovered(q: Queue, list: seq<InflightDesc>): Queue
    requires q.shm.lastBatchHead < |q.shm.desc|
  {
    var settled := Resettled(q.(vq := FreshVq));
    settled.(vq := Scanned(settled.vq, list))
  }

  // ----- 16-bit arithmetic -----

  lemma {:induction false} WrapIsMod(x: int)
    ensures U16(x) == x % WRAP16
    decreases if x < 0 then WRAP16 - x else x
  {
    if x < 0 {
      WrapIsMod(x + WRAP16);
      WholeTurn(x);
    } else if x >= WRAP16 {
      WrapIsMod(x - WRAP16);
      WholeTurn(x - WRAP16);
    } else {
      ModUnique(x, 0, x, WRAP16);
    }
  }

  lemma WholeTurn(x: int)
    ensures (x + WRAP16) % WRAP16 == x % WRAP16
  {
    ModUnique(x + WRAP16, x / WRAP16 + 1, x % WRAP16, WRAP16);
  }

  lemma WrapIsMultiple(x: nat, n: nat)
    requires n > 0 && WRAP16 % n == 0
    ensures x == U16(x) + n * (WRAP16 / n * (x / WRAP16))
  {
    WrapIsMod(x);
    assert WRAP16 == n * (WRAP16 / n);
    assert n * (WRAP16 / n * (x / WRAP16)) == n * (WRAP16 / n) * (x / WRAP16);
  }

  lemma SlotUnwrap(x: nat, n: nat)
    requires QueueSize(n)
    ensures 0 < n && U16(x) % n == x % n
  {
    WrapIsMultiple(x, n);
    ModPlusMultiple(U16(x), WRAP16 / n * (x / WRAP16), n);
  }

  lemma ModPlusMultiple(a: int, m: int, n: nat)
    requires n > 0
    ensures (a + n * m) % n == a % n
  {
    assert a + n * m == n * (a / n + m) + a % n;
    ModUnique(a + n * m, a / n + m, a % n, n);
  }

  /** Fewer than `n` apart means different slots. */
  lemma SlotsDiffer(a: nat, b: nat, n: nat)
    requires a < b < a + n
    ensures a % n != b % n
  {
    assert b - a == n * (b / n - a / n) + b % n - a % n;
    MulMagnitude(n, b / n - a / n);
  }

  /** Indices less than 2^16 apart are equal exactly when their wrapped
      values are. */
  lemma WrapInjective(a: nat, b: nat)
    requires a <= b < a + WRAP16
    ensures U16(a) == U16(b) <==> a == b
  {
    if a < b {
      WrapIsMod(a);
      WrapIsMod(b);
      SlotsDiffer(a, b, WRAP16);
    }
  }

  lemma WrapAdd(x: nat, d: int)
    requires x + d >= 0
    ensures U16(U16(x) + d) == U16(x + d)
  {
    WrapIsMod(x);
    WrapIsMod(x + d);
    WrapIsMod(U16(x) + d);
    ModPlusMultiple(U16(x) + d, x / WRAP16, WRAP16);
  }

  /** The wrapped difference of two indices less than 2^16 apart is their
      true distance. */
  lemma WrapDistance(a: nat, b: nat)
    requires a <= b < a + WRAP16
    ensures U16(U16(b) - U16(a)) == b - a
  {
    WrapIsMod(a);
    WrapIsMod(b);
    WrapIsMod(U16(b) - U16(a));
  }
}
