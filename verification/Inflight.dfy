/** In-flight tracking and crash recovery.  The device process runs
    `vu_queue_pop`, `vu_queue_push` and `vu_check_queue_inflights`; each store
    to shared memory is one step, the driver's steps interleave freely, and a
    crash, which forgets every volatile field, may fall between any two steps,
    also inside recovery.

    A request is named by its position in the driver's submission history.
    `History` records what has truly happened; the device never reads it. */
module Inflight {
  import opened Vring
  import RingIndex

  /** Where the device process stands. */
  datatype Pc =
    | Down                       // crashed, or not yet restarted
    | RecMismatch                // the log lags the used ring
    | RecCleared                 // ... its last batch head cleared
    | RecSettled                 // log and used ring agree
    | Idle
    | PopGot(head: nat)          // fetched, nothing stored yet
    | PopCounted(head: nat)      // counter stored
    | PushFilled(head: nat)      // used-ring entry stored
    | PushBatched(head: nat)     // last_batch_head stored
    | PushPublished(head: nat)   // used.idx stored
    | PushCleared(head: nat)     // in-flight mark cleared
    | Broken                     // vu_panic

  /** `avail`: every head ever submitted.  `seen`: how many completions the
      driver has read.  `fetched`: how many submissions have been marked in
      flight.  `shadow`: the position of the cached avail index.  `sig`: how
      many completions were published at the last signal.  `done`: the
      completed positions in order of publication.  `pos`: for each head
      marked in flight and not yet published, the position it stands for. */
  datatype History = History(
    avail: seq<nat>,
    seen: nat,
    fetched: nat,
    shadow: nat,
    sig: nat,
    done: seq<nat>,
    pos: map<nat, nat>)

  /** `held`: the elements the application has popped and not pushed. */
  datatype State = State(q: Queue, pc: Pc, h: History, held: set<nat>)

  function Indices(list: seq<InflightDesc>): set<nat> {
    set e | e in list :: e.index
  }

  predicate DistinctIndices(list: seq<InflightDesc>) {
    forall i, j :: 0 <= i < j < |list| ==> list[i].index != list[j].index
  }

  // ----- steps -----

  datatype Step =
    | DriverPublish(head: nat)
    | DriverSee
    | PopResubmit
    | PopFetch
    | PopCounter
    | PopMark
    | PushFill(head: nat, len: nat)
    | PushBatch
    | PushPublish
    | PushClear
    | PushLog
    | Signal(mode: NotifyMode)
    | Crash
    | RecRead
    | RecClear
    | RecLog
    | RecScan(list: seq<InflightDesc>)

  /** The driver has not yet read a completion of position `p`. */
  predicate Open(h: History, p: nat) {
    p < |h.avail| && (h.seen <= |h.done| ==> p !in h.done[..h.seen])
  }

  /** The driver keeps at most `num` buffers outstanding, under distinct
      heads. */
  ghost predicate MaySubmit(s: State, head: nat) {
    && head < s.q.num
    && |s.h.avail| - s.h.seen < s.q.num
    && forall p :: 0 <= p < |s.h.avail| && Open(s.h, p) ==> s.h.avail[p] != head
  }

  /** The application pushes only what it holds. */
  ghost predicate Enabled(s: State, step: Step) {
    && WellFormed(s.q)
    && match step
       case DriverPublish(head) => MaySubmit(s, head)
       case DriverSee => s.h.seen < |s.h.done|
       case PopResubmit => s.pc.Idle? && s.q.vq.resubmit != []
       case PopFetch => s.pc.Idle? && s.q.vq.resubmit == [] && !EmptyCheck(s.q).1
       case PopCounter => s.pc.PopGot? && s.pc.head < s.q.num
       case PopMark => s.pc.PopCounted? && s.pc.head < s.q.num
       case PushFill(head, len) => s.pc.Idle? && head in s.held
       case PushBatch => s.pc.PushFilled?
       case PushPublish => s.pc.PushBatched? && s.pc.head in s.h.pos
       case PushClear => s.pc.PushPublished? && s.pc.head < s.q.num
       case PushLog => s.pc.PushCleared?
       case Signal(mode) => s.pc.Idle?
       case Crash => true
       case RecRead => s.pc.Down?
       case RecClear => s.pc.RecMismatch? && s.q.shm.lastBatchHead < s.q.num
       case RecLog => s.pc.RecCleared?
       case RecScan(list) => s.pc.RecSettled? && QsortResult(Marked(s.q.shm.desc), list)
  }

  /** The unbounded counters behind the 16-bit indices. */
  function CountersOf(s: State): RingIndex.Counters {
    RingIndex.Counters(|s.h.avail|, s.h.fetched + Ahead(s.pc), s.h.shadow, |s.h.done|, s.h.sig)
  }

  /** 1 while a pop has advanced the indices but not yet marked its head. */
  function Ahead(pc: Pc): nat {
    if pc.PopGot? || pc.PopCounted? then 1 else 0
  }

  function Submit(s: State, head: nat): State
    requires WellFormed(s.q)
  {
    s.(q := RingIndex.Step(s.q, RingIndex.DriverAdd(head)), h := s.h.(avail := s.h.avail + [head]))
  }

  function ReadBack(s: State): State {
    s.(h := s.h.(seen := s.h.seen + 1))
  }

  function TakeResubmit(s: State): State
    requires s.q.vq.resubmit != []
  {
    var n := |s.q.vq.resubmit| - 1;
    s.(q := s.q.(vq := s.q.vq.(resubmit := s.q.vq.resubmit[..n])), held := s.held + {s.q.vq.resubmit[n].index})
  }

  /** `vu_queue_pop` up to its first store. */
  function FetchNext(s: State): State
    requires WellFormed(s.q)
  {
    var q := EmptyCheck(s.q).0;
    var head := NextHead(q);
    if q.vq.inuse >= q.num || head >= q.num then s.(q := q, pc := Broken)
    else
      s.(q := PopIndices(q), pc := PopGot(head),
         h := s.h.(shadow := RingIndex.CountersAfter(s.q, CountersOf(s), RingIndex.PopOne).shadow))
  }

  function Stamp(s: State): State
    requires s.pc.PopGot? && s.pc.head < |s.q.shm.desc|
  {
    s.(q := StampCounter(s.q, s.pc.head), pc := PopCounted(s.pc.head))
  }

  function Mark(s: State): State
    requires s.pc.PopCounted? && s.pc.head < |s.q.shm.desc|
  {
    s.(q := SetMark(s.q, s.pc.head, true), pc := Idle, held := s.held + {s.pc.head},
       h := s.h.(pos := s.h.pos[s.pc.head := s.h.fetched], fetched := s.h.fetched + 1))
  }

  function FillUsed(s: State, head: nat, len: nat): State
    requires WellFormed(s.q)
  {
    s.(q := Fill(s.q, UsedElem(head, len), 0), pc := PushFilled(head))
  }

  function NoteBatch(s: State): State
    requires s.pc.PushFilled?
  {
    s.(q := s.q.(shm := s.q.shm.(lastBatchHead := s.pc.head)), pc := PushBatched(s.pc.head))
  }

  function Publish(s: State): State
    requires s.pc.PushBatched? && s.pc.head in s.h.pos
  {
    s.(q := Flush(s.q, 1), pc := PushPublished(s.pc.head), held := s.held - {s.pc.head},
       h := s.h.(done := s.h.done + [s.h.pos[s.pc.head]], pos := s.h.pos - {s.pc.head}))
  }

  function ClearMark(s: State): State
    requires s.pc.PushPublished? && s.pc.head < |s.q.shm.desc|
  {
    s.(q := SetMark(s.q, s.pc.head, false), pc := PushCleared(s.pc.head))
  }

  /** Bring the log's copy of the used index up to date. */
  function Relog(s: State, pc: Pc): State {
    s.(q := s.q.(shm := s.q.shm.(logUsedIdx := s.q.vq.usedIdx)), pc := pc)
  }

  function SignalDriver(s: State, mode: NotifyMode): State {
    var k := RingIndex.CountersAfter(s.q, CountersOf(s), RingIndex.NotifyWith(mode));
    s.(q := Notify(s.q, mode).0, h := s.h.(shadow := k.shadow, sig := k.sig))
  }

  function Lose(s: State): State {
    s.(q := s.q.(vq := FreshVq), pc := Down, held := {})
  }

  function ReadUsed(s: State): State {
    s.(q := s.q.(vq := s.q.vq.(usedIdx := s.q.shm.usedIdx)),
       pc := if s.q.shm.logUsedIdx != s.q.shm.usedIdx then RecMismatch else RecSettled)
  }

  function ClearBatch(s: State): State
    requires s.q.shm.lastBatchHead < |s.q.shm.desc|
  {
    s.(q := SetMark(s.q, s.q.shm.lastBatchHead, false), pc := RecCleared)
  }

  function Scan(s: State, list: seq<InflightDesc>): State {
    s.(q := s.q.(vq := Scanned(s.q.vq, list)), pc := Idle, h := s.h.(shadow := s.h.fetched))
  }

  function Apply(s: State, step: Step): State
    requires Enabled(s, step)
  {
    match step
    case DriverPublish(head) => Submit(s, head)
    case DriverSee => ReadBack(s)
    case PopResubmit => TakeResubmit(s)
    case PopFetch => FetchNext(s)
    case PopCounter => Stamp(s)
    case PopMark => Mark(s)
    case PushFill(head, len) => FillUsed(s, head, len)
    case PushBatch => NoteBatch(s)
    case PushPublish => Publish(s)
    case PushClear => ClearMark(s)
    case PushLog => Relog(s, Idle)
    case Signal(mode) => SignalDriver(s, mode)
    case Crash => Lose(s)
    case RecRead => ReadUsed(s)
    case RecClear => ClearBatch(s)
    case RecLog => Relog(s, RecSettled)
    case RecScan(list) => Scan(s, list)
  }

  // ----- the invariant -----

  /** Position `p` is marked in flight and not published. */
  predicate InFlight(h: History, p: nat) {
    p < |h.avail| && h.avail[p] in h.pos && h.pos[h.avail[p]] == p
  }

  ghost predicate HistBounds(h: History, num: nat) {
    && h.seen <= |h.done|
    && |h.pos| + |h.done| == h.fetched
    && h.fetched <= |h.avail| <= h.seen + num
    && (forall p :: 0 <= p < |h.avail| ==> h.avail[p] < num)
    && (forall k :: 0 <= k < |h.done| ==> h.done[k] < h.fetched)
  }

  /** Every fetched position is either completed, once, or in flight. */
  ghost predicate Accounted(h: History) {
    && h.fetched <= |h.avail|
    && (forall i, j :: 0 <= i < j < |h.done| ==> h.done[i] != h.done[j])
    && (forall a :: a in h.pos ==> h.pos[a] < h.fetched && h.avail[h.pos[a]] == a && h.pos[a] !in h.done)
    && (forall p :: 0 <= p < h.fetched ==> p in h.done || InFlight(h, p))
  }

  /** The positions the driver has not read back have distinct heads. */
  ghost predicate DistinctOpen(h: History) {
    forall p, r :: 0 <= p < r < |h.avail| && Open(h, p) && Open(h, r) ==> h.avail[p] != h.avail[r]
  }

  ghost predicate HistInv(h: History, num: nat) {
    HistBounds(h, num) && Accounted(h) && DistinctOpen(h)
  }

  /** The ring slots hold what the other side still has to read. */
  ghost predicate RingContents(q: Queue, h: History) {
    && WellFormed(q)
    && HistBounds(h, q.num)
    && q.shm.availIdx == U16(|h.avail|)
    && q.shm.usedIdx == U16(|h.done|)
    && (forall p :: h.fetched <= p < |h.avail| ==> q.shm.availRing[p % q.num] == h.avail[p])
    && (forall k :: h.seen <= k < |h.done| ==> q.shm.usedRing[k % q.num].id == h.avail[h.done[k]])
  }

  predicate MarksExact(q: Queue, h: History) {
    forall a :: 0 <= a < |q.shm.desc| ==> (q.shm.desc[a].inflight <==> a in h.pos)
  }

  predicate Settled(q: Queue, h: History) {
    q.shm.logUsedIdx == U16(|h.done|) && MarksExact(q, h)
  }

  /** A completion is published that the log has not caught up with: only the
      last batch head may carry a stale mark. */
  predicate Lagging(q: Queue, h: History) {
    && |h.done| > 0
    && q.shm.logUsedIdx == U16(|h.done| - 1)
    && q.shm.lastBatchHead < |q.shm.desc|
    && q.shm.lastBatchHead !in h.pos
    && forall a :: 0 <= a < |q.shm.desc| && a != q.shm.lastBatchHead ==> (q.shm.desc[a].inflight <==> a in h.pos)
  }

  /** The heads in flight are divided between the resubmit list and the
      application. */
  predicate Shared(resubmit: seq<InflightDesc>, held: set<nat>, live: set<nat>) {
    && DistinctIndices(resubmit)
    && Indices(resubmit) !! held
    && Indices(resubmit) + held == live
  }

  predicate Booted(pc: Pc) {
    !pc.Down? && !pc.RecMismatch? && !pc.RecCleared? && !pc.RecSettled?
  }

  /** A completion is published and not yet entered in the log. */
  predicate Unlogged(pc: Pc) {
    pc.RecMismatch? || pc.RecCleared? || pc.PushPublished? || pc.PushCleared?
  }

  predicate LogInv(s: State) {
    && (s.pc.Down? ==> Settled(s.q, s.h) || Lagging(s.q, s.h))
    && (!s.pc.Down? && !Unlogged(s.pc) ==> Settled(s.q, s.h))
    && (Unlogged(s.pc) ==> Lagging(s.q, s.h))
    && (s.pc.RecCleared? || s.pc.PushCleared? ==> MarksExact(s.q, s.h))
    && (s.pc.PushBatched? || s.pc.PushPublished? || s.pc.PushCleared? ==> s.q.shm.lastBatchHead == s.pc.head)
  }

  predicate VolatileInv(s: State) {
    if Booted(s.pc) then
      RingIndex.RingInv(s.q, CountersOf(s)) && Shared(s.q.vq.resubmit, s.held, s.h.pos.Keys)
    else
      s.held == {} && s.q.vq == FreshVq.(usedIdx := if s.pc.Down? then 0 else U16(|s.h.done|))
  }

  /** What a pop or push under way relies on. */
  predicate CallInv(s: State) {
    && WellFormed(s.q)
    && !s.pc.Broken?
    && (Ahead(s.pc) == 1 ==>
          && s.h.fetched < |s.h.avail|
          && s.pc.head == s.h.avail[s.h.fetched]
          && s.pc.head !in s.h.pos
          && s.q.vq.resubmit == [])
    && (s.pc.PushFilled? || s.pc.PushBatched? ==>
          && s.pc.head in s.held
          && s.q.shm.usedRing[|s.h.done| % s.q.num].id == s.pc.head)
  }

  datatype Part = Histories | Rings | Log | Volatile | Call

  ghost predicate Holds(s: State, part: Part) {
    match part
    case Histories => HistInv(s.h, s.q.num)
    case Rings => RingContents(s.q, s.h)
    case Log => LogInv(s)
    case Volatile => VolatileInv(s)
    case Call => CallInv(s)
  }

  ghost predicate Inv(s: State) {
    forall part :: Holds(s, part)
  }
}
