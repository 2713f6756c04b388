/** Exactly-once recovery: `Inv` holds in every state of every run, crashes
    included, and what recovery resubmits is exactly what was in flight. */
module CrashSafety {
  import opened Vring
  import RingIndex
  import opened Inflight

  // ----- the submission history -----

  lemma SubmitHistory(h: History, num: nat, head: nat)
    requires HistInv(h, num) && head < num && |h.avail| - h.seen < num
    requires forall p :: 0 <= p < |h.avail| && Open(h, p) ==> h.avail[p] != head
    ensures HistInv(h.(avail := h.avail + [head]), num)
  {
    var t := h.(avail := h.avail + [head]);
    assert HistBounds(t, num);
    assert Accounted(t) by {
      forall p | 0 <= p < h.fetched
        ensures p in t.done || InFlight(t, p)
      {
        assert p in h.done || InFlight(h, p);
      }
    }
    assert DistinctOpen(t) by {
      forall p, r | 0 <= p < r < |t.avail| && Open(t, p) && Open(t, r)
        ensures t.avail[p] != t.avail[r]
      {
        assert Open(h, p);
        if r < |h.avail| { assert Open(h, r); }
      }
    }
  }

  lemma SeeHistory(h: History, num: nat)
    requires HistInv(h, num) && h.seen < |h.done|
    ensures HistInv(h.(seen := h.seen + 1), num)
  {
    var t := h.(seen := h.seen + 1);
    assert h.done[..h.seen + 1] == h.done[..h.seen] + [h.done[h.seen]];
    assert Accounted(t) by {
      forall p | 0 <= p < h.fetched
        ensures p in t.done || InFlight(t, p)
      {
        assert p in h.done || InFlight(h, p);
      }
    }
    forall p, r | 0 <= p < r < |t.avail| && Open(t, p) && Open(t, r)
      ensures t.avail[p] != t.avail[r]
    {
      assert Open(h, p) && Open(h, r);
    }
  }

  /** A head about to be fetched is not in flight: the driver has not reused
      it. */
  lemma FetchedHeadIsNew(h: History, num: nat)
    requires HistInv(h, num) && h.fetched < |h.avail|
    ensures h.avail[h.fetched] !in h.pos
  {
    var head := h.avail[h.fetched];
    if head in h.pos {
      var p := h.pos[head];
      assert Open(h, p) && Open(h, h.fetched);
      assert false;
    }
  }

  /** The history once the next head is marked in flight. */
  function Fetched(h: History): History
    requires h.fetched < |h.avail|
  {
    h.(pos := h.pos[h.avail[h.fetched] := h.fetched], fetched := h.fetched + 1)
  }

  lemma MarkHistory(h: History, num: nat)
    requires HistInv(h, num) && h.fetched < |h.avail|
    ensures HistInv(Fetched(h), num)
  {
    FetchedHeadIsNew(h, num);
    MarkBounds(h, num);
    MarkAccounted(h, num);
    SameOpen(h, Fetched(h));
  }

  lemma MarkBounds(h: History, num: nat)
    requires HistBounds(h, num) && h.fetched < |h.avail| && h.avail[h.fetched] !in h.pos
    ensures HistBounds(Fetched(h), num)
  {
    assert Fetched(h).pos.Keys == h.pos.Keys + {h.avail[h.fetched]};
  }

  lemma MarkAccounted(h: History, num: nat)
    requires HistBounds(h, num) && Accounted(h) && h.fetched < |h.avail| && h.avail[h.fetched] !in h.pos
    ensures Accounted(Fetched(h))
  {
    var t := Fetched(h);
    forall p | 0 <= p < t.fetched
      ensures p in t.done || InFlight(t, p)
    {
      if p < h.fetched { assert p in h.done || InFlight(h, p); }
    }
  }

  /** Heads stay distinct while the driver's view does not change. */
  lemma SameOpen(h: History, t: History)
    requires DistinctOpen(h) && t.avail == h.avail && t.seen == h.seen <= |h.done| && h.done <= t.done
    ensures DistinctOpen(t)
  {
    assert t.done[..t.seen] == h.done[..h.seen];
    forall p, r | 0 <= p < r < |t.avail| && Open(t, p) && Open(t, r)
      ensures t.avail[p] != t.avail[r]
    {
      assert Open(h, p) && Open(h, r);
    }
  }

  /** The history once `head` is published. */
  function Completed(h: History, head: nat): History
    requires head in h.pos
  {
    h.(done := h.done + [h.pos[head]], pos := h.pos - {head})
  }

  lemma PublishHistory(h: History, num: nat, head: nat)
    requires HistInv(h, num) && head in h.pos
    ensures HistInv(Completed(h, head), num)
  {
    PublishBounds(h, num, head);
    PublishAccounted(h, head);
    SameOpen(h, Completed(h, head));
  }

  lemma PublishBounds(h: History, num: nat, head: nat)
    requires HistBounds(h, num) && head in h.pos && h.pos[head] < h.fetched
    ensures HistBounds(Completed(h, head), num)
  {
    var t := Completed(h, head);
    assert t.pos.Keys == h.pos.Keys - {head};
    assert |t.pos| == |h.pos| - 1;
  }

  lemma PublishAccounted(h: History, head: nat)
    requires Accounted(h) && head in h.pos
    ensures Accounted(Completed(h, head))
  {
    var t := Completed(h, head);
    forall p | 0 <= p < t.fetched
      ensures p in t.done || InFlight(t, p)
    {
      assert p in h.done || InFlight(h, p);
    }
  }

  /** The cached-index and signal positions are not part of the history
      proper. */
  lemma CachedHistory(h: History, num: nat, shadow: nat, sig: nat)
    requires HistInv(h, num)
    ensures HistInv(h.(shadow := shadow, sig := sig), num)
  {
    var t := h.(shadow := shadow, sig := sig);
    SameOpen(h, t);
    forall p | 0 <= p < t.fetched
      ensures p in t.done || InFlight(t, p)
    {
      assert p in h.done || InFlight(h, p);
    }
  }

  // ----- the rings -----

  lemma SubmitContents(q: Queue, h: History, head: nat)
    requires RingContents(q, h) && |h.avail| - h.seen < q.num && head < q.num
    ensures RingContents(RingIndex.Step(q, RingIndex.DriverAdd(head)), h.(avail := h.avail + [head]))
  {
    var n := |h.avail|;
    WrapAdd(n, 1);
    SlotUnwrap(n, q.num);
    forall p | h.fetched <= p < n
      ensures p % q.num != n % q.num
    {
      SlotsDiffer(p, n, q.num);
    }
  }

  lemma PublishContents(q: Queue, h: History, head: nat)
    requires head in h.pos && RingContents(q, h)
    requires HistBounds(Completed(h, head), q.num)
    requires h.pos[head] < |h.avail| && h.avail[h.pos[head]] == head
    requires q.vq.usedIdx == q.shm.usedIdx && q.shm.usedRing[|h.done| % q.num].id == head
    ensures RingContents(Flush(q, 1), Completed(h, head))
  {
    WrapAdd(|h.done|, 1);
  }

  /** Filling the next used slot overwrites nothing the driver has yet to
      read. */
  lemma FillContents(q: Queue, h: History, e: UsedElem)
    requires RingContents(q, h) && q.vq.usedIdx == U16(|h.done|) && |h.pos| > 0
    ensures RingContents(Fill(q, e, 0), h)
    ensures Fill(q, e, 0).shm.usedRing[|h.done| % q.num] == e
  {
    var n := |h.done|;
    SlotUnwrap(n, q.num);
    forall k | h.seen <= k < n
      ensures k % q.num != n % q.num
    {
      SlotsDiffer(k, n, q.num);
    }
  }

  // ----- putting the parts together -----

  lemma HistOf(s: State)
    requires Inv(s)
    ensures HistInv(s.h, s.q.num)
  {
    var part := Holds(s, Histories);
  }

  lemma RingsOf(s: State)
    requires Inv(s)
    ensures RingContents(s.q, s.h)
  {
    var part := Holds(s, Rings);
  }

  lemma LogOf(s: State)
    requires Inv(s)
    ensures LogInv(s)
  {
    var part := Holds(s, Log);
  }

  lemma VolatileOf(s: State)
    requires Inv(s)
    ensures VolatileInv(s)
  {
    var part := Holds(s, Volatile);
  }

  lemma CallOf(s: State)
    requires Inv(s)
    ensures CallInv(s)
  {
    var part := Holds(s, Call);
  }

  // ----- the driver -----

  lemma SubmitRing(q: Queue, k: RingIndex.Counters, head: nat)
    requires RingIndex.RingInv(q, k) && k.avail < k.used + q.num
    ensures RingIndex.RingInv(RingIndex.Step(q, RingIndex.DriverAdd(head)), k.(avail := k.avail + 1))
  {
    WrapDistance(k.used, k.avail);
    RingIndex.DriverAddKeeps(q, k, head);
  }

  lemma SubmitVolatile(s: State, head: nat)
    requires Inv(s) && WellFormed(s.q) && MaySubmit(s, head)
    ensures VolatileInv(Submit(s, head))
  {
    VolatileOf(s);
    if Booted(s.pc) {
      assert s.h.seen <= |s.h.done| by { HistOf(s); }
      SubmitRing(s.q, CountersOf(s), head);
      assert CountersOf(Submit(s, head)) == CountersOf(s).(avail := |s.h.avail| + 1);
    }
  }

  lemma SubmitDevice(s: State, head: nat)
    requires Inv(s) && WellFormed(s.q) && MaySubmit(s, head)
    ensures LogInv(Submit(s, head)) && CallInv(Submit(s, head))
  {
    LogOf(s);
    CallOf(s);
  }

  lemma SubmitKeeps(s: State, head: nat)
    requires Inv(s) && WellFormed(s.q) && MaySubmit(s, head)
    ensures Inv(Submit(s, head))
  {
    HistOf(s);
    SubmitHistory(s.h, s.q.num, head);
    RingsOf(s);
    SubmitContents(s.q, s.h, head);
    SubmitDevice(s, head);
    SubmitVolatile(s, head);
  }

  lemma ReadBackDevice(s: State)
    requires Inv(s)
    ensures LogInv(ReadBack(s)) && CallInv(ReadBack(s))
  {
    LogOf(s);
    CallOf(s);
  }

  lemma ReadBackVolatile(s: State)
    requires Inv(s)
    ensures VolatileInv(ReadBack(s))
  {
    VolatileOf(s);
    assert CountersOf(ReadBack(s)) == CountersOf(s);
  }

  lemma ReadBackContents(s: State)
    requires Inv(s) && s.h.seen < |s.h.done|
    ensures RingContents(s.q, ReadBack(s).h)
  {
    RingsOf(s);
  }

  lemma ReadBackKeeps(s: State)
    requires Inv(s) && s.h.seen < |s.h.done|
    ensures Inv(ReadBack(s))
  {
    HistOf(s);
    SeeHistory(s.h, s.q.num);
    ReadBackContents(s);
    ReadBackDevice(s);
    ReadBackVolatile(s);
  }

  // ----- pop -----

  lemma DropLast(list: seq<InflightDesc>)
    requires list != [] && DistinctIndices(list)
    ensures var n := |list| - 1;
            && DistinctIndices(list[..n])
            && Indices(list[..n]) == Indices(list) - {list[n].index}
            && list[n].index in Indices(list)
  {
    var n := |list| - 1;
    var front, last := list[..n], list[n];
    assert forall e :: e in list <==> e in front || e == last;
    forall e | e in front
      ensures e.index != last.index
    {
      var i :| 0 <= i < n && list[i] == e;
    }
    assert DistinctIndices(front);
    forall x
      ensures x in Indices(front) <==> x in Indices(list) && x != last.index
    {
      if x in Indices(list) && x != last.index {
        var e :| e in list && e.index == x;
        assert e in front;
      }
    }
  }

  lemma TakeShared(list: seq<InflightDesc>, held: set<nat>, live: set<nat>)
    requires list != [] && Shared(list, held, live)
    ensures var n := |list| - 1; Shared(list[..n], held + {list[n].index}, live)
  {
    DropLast(list);
  }

  lemma TakeResubmitDevice(s: State)
    requires Inv(s) && s.pc.Idle? && s.q.vq.resubmit != []
    ensures LogInv(TakeResubmit(s)) && CallInv(TakeResubmit(s))
    ensures RingContents(TakeResubmit(s).q, s.h)
  {
    RingsOf(s);
    LogOf(s);
    CallOf(s);
  }

  lemma TakeResubmitVolatile(s: State)
    requires Inv(s) && s.pc.Idle? && s.q.vq.resubmit != []
    ensures VolatileInv(TakeResubmit(s))
  {
    VolatileOf(s);
    TakeShared(s.q.vq.resubmit, s.held, s.h.pos.Keys);
  }

  lemma TakeResubmitKeeps(s: State)
    requires Inv(s) && s.pc.Idle? && s.q.vq.resubmit != []
    ensures Inv(TakeResubmit(s))
  {
    HistOf(s);
    TakeResubmitDevice(s);
    TakeResubmitVolatile(s);
  }

  /** A pop that passes the emptiness test fetches the oldest unfetched
      submission: it neither exceeds the queue nor reads a foreign slot. */
  lemma FetchIsNext(s: State)
    requires s.pc.Idle? && HistBounds(s.h, s.q.num) && RingContents(s.q, s.h) && VolatileInv(s)
    requires !EmptyCheck(s.q).1
    ensures s.h.fetched < |s.h.avail|
    ensures var q := EmptyCheck(s.q).0; q.vq.inuse < q.num && NextHead(q) == s.h.avail[s.h.fetched]
  {
    RingIndex.EmptyAgrees(s.q, CountersOf(s));
    RingIndex.InuseIsDistance(s.q, CountersOf(s));
    SlotUnwrap(s.h.fetched, s.q.num);
  }

  predicate MayFetch(s: State) {
    s.pc.Idle? && WellFormed(s.q) && s.q.vq.resubmit == [] && !EmptyCheck(s.q).1
  }

  lemma FetchShape(s: State)
    requires Inv(s) && MayFetch(s)
    ensures s.h.fetched < |s.h.avail|
    ensures var t := FetchNext(s);
            && t.pc == PopGot(s.h.avail[s.h.fetched])
            && t.q == RingIndex.Step(s.q, RingIndex.PopOne)
            && t.q.shm == s.q.shm && t.q.num == s.q.num && t.q.vq.resubmit == []
            && t.h == s.h.(shadow := t.h.shadow) && t.held == s.held
  {
    HistOf(s);
    RingsOf(s);
    VolatileOf(s);
    FetchIsNext(s);
  }

  lemma FetchDevice(s: State)
    requires Inv(s) && MayFetch(s)
    ensures LogInv(FetchNext(s)) && CallInv(FetchNext(s))
    ensures RingContents(FetchNext(s).q, FetchNext(s).h)
  {
    FetchShape(s);
    RingsOf(s);
    LogOf(s);
    HistOf(s);
    FetchedHeadIsNew(s.h, s.q.num);
  }

  lemma FetchVolatile(s: State)
    requires Inv(s) && MayFetch(s)
    ensures VolatileInv(FetchNext(s))
  {
    FetchShape(s);
    VolatileOf(s);
    RingIndex.PopKeeps(s.q, CountersOf(s));
  }

  lemma FetchNextKeeps(s: State)
    requires Inv(s) && MayFetch(s)
    ensures Inv(FetchNext(s))
  {
    FetchShape(s);
    HistOf(s);
    CachedHistory(s.h, s.q.num, FetchNext(s).h.shadow, s.h.sig);
    FetchDevice(s);
    FetchVolatile(s);
  }

  lemma StampDevice(s: State)
    requires Inv(s) && s.pc.PopGot? && WellFormed(s.q) && s.pc.head < s.q.num
    ensures LogInv(Stamp(s)) && CallInv(Stamp(s)) && RingContents(Stamp(s).q, s.h)
  {
    RingsOf(s);
    LogOf(s);
    CallOf(s);
  }

  lemma StampVolatile(s: State)
    requires Inv(s) && s.pc.PopGot? && WellFormed(s.q) && s.pc.head < s.q.num
    ensures VolatileInv(Stamp(s))
  {
    VolatileOf(s);
  }

  lemma StampKeeps(s: State)
    requires Inv(s) && s.pc.PopGot? && WellFormed(s.q) && s.pc.head < s.q.num
    ensures Inv(Stamp(s))
  {
    HistOf(s);
    StampDevice(s);
    StampVolatile(s);
  }

  lemma MarkShared(list: seq<InflightDesc>, held: set<nat>, live: set<nat>, head: nat)
    requires Shared(list, held, live) && head !in live
    ensures Shared(list, held + {head}, live + {head})
  {
  }

  lemma MarkDevice(s: State)
    requires Inv(s) && s.pc.PopCounted? && WellFormed(s.q) && s.pc.head < s.q.num
    ensures LogInv(Mark(s)) && CallInv(Mark(s))
  {
    LogOf(s);
    CallOf(s);
  }

  lemma MarkContents(s: State)
    requires Inv(s) && s.pc.PopCounted? && WellFormed(s.q) && s.pc.head < s.q.num
    ensures HistInv(Mark(s).h, s.q.num) && RingContents(Mark(s).q, Mark(s).h)
  {
    CallOf(s);
    HistOf(s);
    MarkHistory(s.h, s.q.num);
    assert Mark(s).h == Fetched(s.h);
    RingsOf(s);
  }

  lemma MarkVolatile(s: State)
    requires Inv(s) && s.pc.PopCounted? && WellFormed(s.q) && s.pc.head < s.q.num
    ensures VolatileInv(Mark(s))
  {
    VolatileOf(s);
    CallOf(s);
    assert Mark(s).h.pos.Keys == s.h.pos.Keys + {s.pc.head};
    MarkShared(s.q.vq.resubmit, s.held, s.h.pos.Keys, s.pc.head);
  }

  lemma MarkKeeps(s: State)
    requires Inv(s) && s.pc.PopCounted? && WellFormed(s.q) && s.pc.head < s.q.num
    ensures Inv(Mark(s))
  {
    MarkContents(s);
    MarkDevice(s);
    MarkVolatile(s);
  }

  // ----- push -----

  lemma HeldIsInFlight(s: State, head: nat)
    requires Inv(s) && Booted(s.pc) && head in s.held
    ensures head in s.h.pos && head < s.q.num && |s.h.pos| > 0
    ensures s.h.pos[head] < |s.h.avail| && s.h.avail[s.h.pos[head]] == head
  {
    VolatileOf(s);
    HistOf(s);
    assert head in s.h.pos.Keys;
  }

  lemma FillUsedDevice(s: State, head: nat, len: nat)
    requires Inv(s) && s.pc.Idle? && WellFormed(s.q) && head in s.held
    ensures LogInv(FillUsed(s, head, len)) && CallInv(FillUsed(s, head, len))
    ensures RingContents(FillUsed(s, head, len).q, s.h)
  {
    HeldIsInFlight(s, head);
    RingsOf(s);
    VolatileOf(s);
    FillContents(s.q, s.h, UsedElem(head, len));
    LogOf(s);
  }

  lemma FillUsedVolatile(s: State, head: nat, len: nat)
    requires Inv(s) && s.pc.Idle? && WellFormed(s.q) && head in s.held
    ensures VolatileInv(FillUsed(s, head, len))
  {
    VolatileOf(s);
  }

  lemma FillUsedKeeps(s: State, head: nat, len: nat)
    requires Inv(s) && s.pc.Idle? && WellFormed(s.q) && head in s.held
    ensures Inv(FillUsed(s, head, len))
  {
    HistOf(s);
    FillUsedDevice(s, head, len);
    FillUsedVolatile(s, head, len);
  }

  lemma NoteBatchDevice(s: State)
    requires Inv(s) && s.pc.PushFilled?
    ensures LogInv(NoteBatch(s)) && CallInv(NoteBatch(s)) && RingContents(NoteBatch(s).q, s.h)
  {
    RingsOf(s);
    LogOf(s);
    CallOf(s);
  }

  lemma NoteBatchVolatile(s: State)
    requires Inv(s) && s.pc.PushFilled?
    ensures VolatileInv(NoteBatch(s))
  {
    VolatileOf(s);
  }

  lemma NoteBatchKeeps(s: State)
    requires Inv(s) && s.pc.PushFilled?
    ensures Inv(NoteBatch(s))
  {
    HistOf(s);
    NoteBatchDevice(s);
    NoteBatchVolatile(s);
  }

  lemma PublishDone(s: State)
    requires Inv(s) && s.pc.PushBatched? && s.pc.head in s.h.pos
    ensures HistInv(Publish(s).h, s.q.num) && RingContents(Publish(s).q, Publish(s).h)
  {
    HistOf(s);
    PublishHistory(s.h, s.q.num, s.pc.head);
    RingsOf(s);
    CallOf(s);
    VolatileOf(s);
    PublishContents(s.q, s.h, s.pc.head);
  }

  lemma PublishDevice(s: State)
    requires Inv(s) && s.pc.PushBatched? && s.pc.head in s.h.pos
    ensures LogInv(Publish(s)) && CallInv(Publish(s))
  {
    CallOf(s);
    HeldIsInFlight(s, s.pc.head);
    LogOf(s);
  }

  lemma PublishShared(list: seq<InflightDesc>, held: set<nat>, live: set<nat>, head: nat)
    requires Shared(list, held, live) && head in held
    ensures Shared(list, held - {head}, live - {head})
  {
  }

  lemma PublishRing(s: State)
    requires Inv(s) && s.pc.PushBatched? && s.pc.head in s.h.pos
    ensures RingIndex.RingInv(Publish(s).q, CountersOf(Publish(s)))
  {
    VolatileOf(s);
    assert s.q.vq.inuse >= 1 by {
      HistOf(s);
      assert s.pc.head in s.h.pos.Keys;
      assert |s.h.pos| == |s.h.pos.Keys|;
    }
    RingIndex.FlushKeeps(s.q, CountersOf(s), 1);
  }

  lemma PublishVolatile(s: State)
    requires Inv(s) && s.pc.PushBatched? && s.pc.head in s.h.pos
    ensures VolatileInv(Publish(s))
  {
    PublishRing(s);
    assert Shared(s.q.vq.resubmit, s.held, s.h.pos.Keys) && s.pc.head in s.held by {
      VolatileOf(s);
      CallOf(s);
    }
    assert Publish(s).h.pos.Keys == s.h.pos.Keys - {s.pc.head};
    PublishShared(s.q.vq.resubmit, s.held, s.h.pos.Keys, s.pc.head);
  }

  lemma PublishKeeps(s: State)
    requires Inv(s) && s.pc.PushBatched? && s.pc.head in s.h.pos
    ensures Inv(Publish(s))
  {
    PublishDone(s);
    PublishDevice(s);
    PublishVolatile(s);
  }

  lemma ClearMarkDevice(s: State)
    requires Inv(s) && s.pc.PushPublished? && s.pc.head < |s.q.shm.desc|
    ensures LogInv(ClearMark(s)) && CallInv(ClearMark(s)) && RingContents(ClearMark(s).q, s.h)
  {
    RingsOf(s);
    LogOf(s);
    CallOf(s);
  }

  lemma ClearMarkVolatile(s: State)
    requires Inv(s) && s.pc.PushPublished? && s.pc.head < |s.q.shm.desc|
    ensures VolatileInv(ClearMark(s))
  {
    VolatileOf(s);
  }

  lemma ClearMarkKeeps(s: State)
    requires Inv(s) && s.pc.PushPublished? && s.pc.head < |s.q.shm.desc|
    ensures Inv(ClearMark(s))
  {
    HistOf(s);
    ClearMarkDevice(s);
    ClearMarkVolatile(s);
  }

  predicate MayRelog(s: State, pc: Pc) {
    (s.pc.PushCleared? && pc.Idle?) || (s.pc.RecCleared? && pc.RecSettled?)
  }

  lemma RelogDevice(s: State, pc: Pc)
    requires Inv(s) && MayRelog(s, pc)
    ensures LogInv(Relog(s, pc)) && CallInv(Relog(s, pc)) && RingContents(Relog(s, pc).q, s.h)
  {
    RingsOf(s);
    LogOf(s);
    CallOf(s);
    VolatileOf(s);
  }

  lemma RelogVolatile(s: State, pc: Pc)
    requires Inv(s) && MayRelog(s, pc)
    ensures VolatileInv(Relog(s, pc))
  {
    VolatileOf(s);
  }

  lemma RelogKeeps(s: State, pc: Pc)
    requires Inv(s) && MayRelog(s, pc)
    ensures Inv(Relog(s, pc))
  {
    HistOf(s);
    RelogDevice(s, pc);
    RelogVolatile(s, pc);
  }

  // ----- notification -----

  lemma SignalDevice(s: State, mode: NotifyMode)
    requires Inv(s) && s.pc.Idle?
    ensures var t := SignalDriver(s, mode);
            LogInv(t) && CallInv(t) && RingContents(t.q, t.h) && t.q.num == s.q.num
  {
    RingsOf(s);
    LogOf(s);
    CallOf(s);
  }

  lemma SignalVolatile(s: State, mode: NotifyMode)
    requires Inv(s) && s.pc.Idle?
    ensures VolatileInv(SignalDriver(s, mode))
  {
    VolatileOf(s);
    var k := RingIndex.CountersAfter(s.q, CountersOf(s), RingIndex.NotifyWith(mode));
    RingIndex.NotifyKeeps(s.q, CountersOf(s), mode);
    SignalCounters(s, mode, k);
    assert Notify(s.q, mode).0.vq.resubmit == s.q.vq.resubmit;
  }

  lemma SignalCounters(s: State, mode: NotifyMode, k: RingIndex.Counters)
    requires s.pc.Idle? && k == RingIndex.CountersAfter(s.q, CountersOf(s), RingIndex.NotifyWith(mode))
    ensures CountersOf(SignalDriver(s, mode)) == k
  {
  }

  lemma SignalKeeps(s: State, mode: NotifyMode)
    requires Inv(s) && s.pc.Idle?
    ensures Inv(SignalDriver(s, mode))
  {
    var t := SignalDriver(s, mode);
    HistOf(s);
    CachedHistory(s.h, s.q.num, t.h.shadow, t.h.sig);
    SignalDevice(s, mode);
    SignalVolatile(s, mode);
  }

  // ----- crash and recovery -----

  lemma LoseDevice(s: State)
    requires Inv(s)
    ensures LogInv(Lose(s)) && CallInv(Lose(s)) && VolatileInv(Lose(s)) && RingContents(Lose(s).q, s.h)
  {
    RingsOf(s);
    LogOf(s);
  }

  lemma LoseKeeps(s: State)
    requires Inv(s)
    ensures Inv(Lose(s))
  {
    HistOf(s);
    LoseDevice(s);
  }

  lemma ReadUsedDevice(s: State)
    requires Inv(s) && s.pc.Down?
    ensures var t := ReadUsed(s); LogInv(t) && CallInv(t) && VolatileInv(t) && RingContents(t.q, s.h)
  {
    RingsOf(s);
    LogOf(s);
    VolatileOf(s);
    if |s.h.done| > 0 { WrapInjective(|s.h.done| - 1, |s.h.done|); }
  }

  lemma ReadUsedKeeps(s: State)
    requires Inv(s) && s.pc.Down?
    ensures Inv(ReadUsed(s))
  {
    HistOf(s);
    ReadUsedDevice(s);
  }

  lemma ClearBatchDevice(s: State)
    requires Inv(s) && s.pc.RecMismatch? && s.q.shm.lastBatchHead < |s.q.shm.desc|
    ensures var t := ClearBatch(s); LogInv(t) && CallInv(t) && VolatileInv(t) && RingContents(t.q, s.h)
  {
    RingsOf(s);
    LogOf(s);
    VolatileOf(s);
  }

  lemma ClearBatchKeeps(s: State)
    requires Inv(s) && s.pc.RecMismatch? && s.q.shm.lastBatchHead < |s.q.shm.desc|
    ensures Inv(ClearBatch(s))
  {
    HistOf(s);
    ClearBatchDevice(s);
  }

  /** The log's marked entries, each once, with its own counter. */
  lemma {:induction false} MarkedEntries(desc: seq<DescState>)
    ensures DistinctIndices(Marked(desc))
    ensures forall e :: e in Marked(desc) <==>
              e.index < |desc| && desc[e.index].inflight && e.counter == desc[e.index].counter
    decreases |desc|
  {
    if desc != [] {
      var n := |desc| - 1;
      MarkedEntries(desc[..n]);
      MarkedLast(desc, n, Marked(desc[..n]), Marked(desc));
    }
  }

  lemma MarkedLast(desc: seq<DescState>, n: nat, rest: seq<InflightDesc>, list: seq<InflightDesc>)
    requires |desc| == n + 1 && list == if desc[n].inflight then rest + [InflightDesc(n, desc[n].counter)] else rest
    requires DistinctIndices(rest)
    requires forall e :: e in rest <==> e.index < n && desc[e.index].inflight && e.counter == desc[e.index].counter
    ensures DistinctIndices(list)
    ensures forall e :: e in list <==> e.index <= n && desc[e.index].inflight && e.counter == desc[e.index].counter
  {
    if desc[n].inflight {
      var last := InflightDesc(n, desc[n].counter);
      assert forall e :: e in list <==> e in rest || e == last;
      forall i | 0 <= i < |rest|
        ensures rest[i].index != n
      {
        assert rest[i] in rest;
      }
    }
  }

  lemma {:induction false} IndicesSize(list: seq<InflightDesc>)
    requires DistinctIndices(list)
    ensures |Indices(list)| == |list|
    decreases |list|
  {
    if list != [] {
      DropLast(list);
      IndicesSize(list[..|list| - 1]);
    }
  }

  /** If the marks are exactly `live`, the marked list enumerates `live`. */
  lemma MarkedExact(desc: seq<DescState>, pos: map<nat, nat>)
    requires forall a :: 0 <= a < |desc| ==> (desc[a].inflight <==> a in pos)
    requires forall a :: a in pos ==> a < |desc|
    ensures Indices(Marked(desc)) == pos.Keys && |Marked(desc)| == |pos| && DistinctIndices(Marked(desc))
  {
    MarkedEntries(desc);
    IndicesSize(Marked(desc));
    forall a | a in pos
      ensures a in Indices(Marked(desc))
    {
      assert InflightDesc(a, desc[a].counter) in Marked(desc);
    }
  }

  /** Sorting keeps the list's heads. */
  lemma PermutedIndices(a: seq<InflightDesc>, b: seq<InflightDesc>)
    requires multiset(a) == multiset(b) && DistinctIndices(a)
    ensures |b| == |a| && Indices(b) == Indices(a) && DistinctIndices(b)
  {
    assert |multiset(a)| == |a| && |multiset(b)| == |b|;
    assert forall e :: e in a <==> e in multiset(a);
    assert forall e :: e in b <==> e in multiset(b);
    forall i, j | 0 <= i < j < |b|
      ensures b[i].index != b[j].index
    {
      OnceEach(a, b[i]);
      if b[i] == b[j] {
        Twice(b, i, j);
        assert false;
      }
      assert b[i] in multiset(b) && b[j] in multiset(b);
      var k :| 0 <= k < |a| && a[k] == b[i];
      var m :| 0 <= m < |a| && a[m] == b[j];
    }
  }

  lemma Twice(b: seq<InflightDesc>, i: nat, j: nat)
    requires i < j < |b| && b[i] == b[j]
    ensures multiset(b)[b[i]] >= 2
  {
    assert b == b[..j] + [b[j]] + b[j + 1..];
    assert b[i] in b[..j];
  }

  lemma {:induction false} OnceEach(a: seq<InflightDesc>, e: InflightDesc)
    requires DistinctIndices(a)
    ensures multiset(a)[e] <= 1
    decreases |a|
  {
    if a != [] {
      var n := |a| - 1;
      assert a == a[..n] + [a[n]];
      OnceEach(a[..n], e);
      if e == a[n] {
        assert e !in a[..n];
      }
    }
  }

  lemma ScanDevice(s: State, list: seq<InflightDesc>)
    requires Inv(s) && s.pc.RecSettled?
    ensures var t := Scan(s, list); LogInv(t) && CallInv(t) && RingContents(t.q, t.h)
  {
    RingsOf(s);
    LogOf(s);
  }

  /** The sorted log lists exactly the heads in flight. */
  lemma ScanIsExact(s: State, list: seq<InflightDesc>)
    requires Inv(s) && s.pc.RecSettled? && QsortResult(Marked(s.q.shm.desc), list)
    ensures Indices(list) == s.h.pos.Keys && |list| == |s.h.pos| && DistinctIndices(list)
  {
    LogOf(s);
    RingsOf(s);
    HistOf(s);
    MarkedExact(s.q.shm.desc, s.h.pos);
    PermutedIndices(Marked(s.q.shm.desc), list);
  }

  lemma ScanRing(s: State, list: seq<InflightDesc>)
    requires Inv(s) && s.pc.RecSettled? && |list| == |s.h.pos|
    ensures RingIndex.RingInv(Scan(s, list).q, CountersOf(Scan(s, list)))
  {
    VolatileOf(s);
    RingsOf(s);
    WrapAdd(|s.h.done|, |list|);
  }

  lemma ScanKeeps(s: State, list: seq<InflightDesc>)
    requires Inv(s) && s.pc.RecSettled? && QsortResult(Marked(s.q.shm.desc), list)
    ensures Inv(Scan(s, list))
  {
    ScanIsExact(s, list);
    ScanRing(s, list);
    ScanDevice(s, list);
    HistOf(s);
    CachedHistory(s.h, s.q.num, s.h.fetched, s.h.sig);
    assert VolatileInv(Scan(s, list)) by { VolatileOf(s); }
  }

  // ----- every run -----

  lemma StepKeeps(s: State, step: Step)
    requires Inv(s) && Enabled(s, step)
    ensures Inv(Apply(s, step))
  {
    match step
    case DriverPublish(head) => SubmitKeeps(s, head);
    case DriverSee => ReadBackKeeps(s);
    case PopResubmit => TakeResubmitKeeps(s);
    case PopFetch => FetchNextKeeps(s);
    case PopCounter => StampKeeps(s);
    case PopMark => MarkKeeps(s);
    case PushFill(head, len) => FillUsedKeeps(s, head, len);
    case PushBatch => NoteBatchKeeps(s);
    case PushPublish => PublishKeeps(s);
    case PushClear => ClearMarkKeeps(s);
    case PushLog => RelogKeeps(s, Idle);
    case Signal(mode) => SignalKeeps(s, mode);
    case Crash => LoseKeeps(s);
    case RecRead => ReadUsedKeeps(s);
    case RecClear => ClearBatchKeeps(s);
    case RecLog => RelogKeeps(s, RecSettled);
    case RecScan(list) => ScanKeeps(s, list);
  }

  /** A device about to start on a ring that may have carried traffic before,
      with nothing outstanding and an in-flight log in step with it. */
  ghost predicate Init(s: State) {
    && WellFormed(s.q)
    && s.pc == Down && s.held == {} && s.q.vq == FreshVq
    && HistInv(s.h, s.q.num)
    && s.h.seen == |s.h.avail|
    && s.q.shm.availIdx == s.q.shm.usedIdx == s.q.shm.logUsedIdx == U16(|s.h.avail|)
    && forall a :: 0 <= a < |s.q.shm.desc| ==> !s.q.shm.desc[a].inflight
  }

  /** A new queue of any size is such a start. */
  lemma NewQueueIsInit(num: nat, s: State)
    requires QueueSize(num) && s.q == NewQueue(num)
    requires s.pc == Down && s.h == History([], 0, 0, 0, 0, [], map[]) && s.held == {}
    ensures Init(s)
  {
  }

  lemma InitHolds(s: State)
    requires Init(s)
    ensures Inv(s)
  {
    assert |s.h.pos| == 0 && |s.h.done| == |s.h.avail|;
    assert RingContents(s.q, s.h);
    assert LogInv(s) && VolatileInv(s) && CallInv(s);
  }

  /** `t` is reached from `s` by taking `steps` in order. */
  ghost predicate Run(s: State, steps: seq<Step>, t: State)
    decreases |steps|
  {
    if steps == [] then s == t
    else Enabled(s, steps[0]) && Run(Apply(s, steps[0]), steps[1..], t)
  }

  lemma {:induction false} RunKeeps(s: State, steps: seq<Step>, t: State)
    requires Inv(s) && Run(s, steps, t)
    ensures Inv(t)
    decreases |steps|
  {
    if steps != [] {
      StepKeeps(s, steps[0]);
      RunKeeps(Apply(s, steps[0]), steps[1..], t);
    }
  }

  /** Exactly-once completion.  In every state reached by any interleaving of
      driver, pop, push, crash and recovery steps: no request is completed
      twice, every request fetched is completed or in flight, and the device
      never panics on a well-behaved driver. */
  lemma ExactlyOnce(s: State, steps: seq<Step>, t: State)
    requires Init(s) && Run(s, steps, t)
    ensures forall i, j :: 0 <= i < j < |t.h.done| ==> t.h.done[i] != t.h.done[j]
    ensures forall p :: 0 <= p < t.h.fetched ==> (p in t.h.done <==> !InFlight(t.h, p))
    ensures forall k :: t.h.seen <= k < |t.h.done| && t.q.num > 0 && |t.q.shm.usedRing| == t.q.num ==>
              t.h.done[k] < |t.h.avail| && t.q.shm.usedRing[k % t.q.num].id == t.h.avail[t.h.done[k]]
    ensures t.pc.Idle? ==> Shared(t.q.vq.resubmit, t.held, t.h.pos.Keys)
    ensures !t.pc.Broken?
  {
    InitHolds(s);
    RunKeeps(s, steps, t);
    HistOf(t);
    RingsOf(t);
    CallOf(t);
    VolatileOf(t);
  }

  /** Recovery, after any history of crashes: the resubmit list holds, once
      each, exactly the heads of the requests marked in flight and not yet
      published, and the next avail entry to pop is the first one never
      marked. */
  lemma RecoveryIsExact(s: State, steps: seq<Step>, t: State, list: seq<InflightDesc>)
    requires Init(s) && Run(s, steps, t) && Enabled(t, RecScan(list))
    ensures var r := Apply(t, RecScan(list));
            && DistinctIndices(r.q.vq.resubmit)
            && (forall a :: a in Indices(r.q.vq.resubmit) <==>
                  exists p :: 0 <= p < |t.h.avail| && InFlight(t.h, p) && t.h.avail[p] == a)
            && r.q.vq.lastAvailIdx == U16(t.h.fetched)
            && r.q.vq.inuse == |r.q.vq.resubmit|
            && (r.h.fetched < |r.h.avail| <==> !EmptyCheck(r.q).1)
            && (r.h.fetched < |r.h.avail| && WellFormed(r.q) ==> NextHead(r.q) == r.h.avail[r.h.fetched])
  {
    var r := Apply(t, RecScan(list));
    InitHolds(s);
    RunKeeps(s, steps, t);
    ScanIsExact(t, list);
    ScanKeeps(t, list);
    assert forall a :: a in t.h.pos ==> InFlight(t.h, t.h.pos[a]) by { HistOf(t); }
    assert forall a :: a in t.h.pos ==> t.h.pos[a] < |t.h.avail| && t.h.avail[t.h.pos[a]] == a by { HistOf(t); }
    assert r.q.vq.inuse == |list| by { ScanRing(t, list); HistOf(t); }
    assert RingIndex.RingInv(r.q, CountersOf(r)) by { ScanRing(t, list); }
    RingIndex.EmptyAgrees(r.q, CountersOf(r));
    if r.h.fetched < |r.h.avail| {
      RingsOf(r);
      SlotUnwrap(r.h.fetched, r.q.num);
    }
  }
}
