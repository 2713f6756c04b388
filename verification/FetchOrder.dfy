/** The order in which recovery resubmits.  The log stamps each head with a
    running counter, recovery sorts by it, and pops take the list from its
    end.  That reproduces the fetch order exactly as long as the comparison
    function decides every pair, that is, while the counters in flight lie
    within 2 * VIRTQUEUE_MAX_SIZE of each other. */
module FetchOrder {
  import opened Vring
  import opened Inflight
  import opened CrashSafety

  /** All counters differ, by less than twice the largest queue size. */
  ghost predicate NarrowSpan(list: seq<InflightDesc>) {
    forall i, j :: 0 <= i < j < |list| ==>
      && list[i].counter != list[j].counter
      && -2 * VIRTQUEUE_MAX_SIZE < list[i].counter - list[j].counter < 2 * VIRTQUEUE_MAX_SIZE
  }

  /** `inflight_desc_compare` decides every pair one way if and only if the
      counters are distinct and span less than 2 * VIRTQUEUE_MAX_SIZE. */
  lemma ConsistentIffNarrow(list: seq<InflightDesc>)
    ensures Consistent(list) <==> NarrowSpan(list)
  {
    if NarrowSpan(list) {
      forall i, j | 0 <= i < j < |list|
        ensures Compare(list[i], list[j]) == -Compare(list[j], list[i])
      {
        assert list[i].counter != list[j].counter;
      }
    }
    if Consistent(list) {
      forall i, j | 0 <= i < j < |list|
        ensures list[i].counter != list[j].counter && -2 * VIRTQUEUE_MAX_SIZE < list[i].counter - list[j].counter < 2 * VIRTQUEUE_MAX_SIZE
      {
        assert Compare(list[i], list[j]) == -Compare(list[j], list[i]);
      }
    }
  }

  /** Counters 2 * VIRTQUEUE_MAX_SIZE apart compare as before each other both
      ways, so either order of the pair is a result the sort may give. */
  lemma WideSpanUndecided(a: InflightDesc, b: InflightDesc)
    requires b.counter >= a.counter + 2 * VIRTQUEUE_MAX_SIZE
    ensures Compare(a, b) == Compare(b, a) == -1
    ensures QsortResult([a, b], [a, b]) && QsortResult([a, b], [b, a])
    ensures !Consistent([a, b])
  {
    assert multiset([b, a]) == multiset([a, b]);
    assert [a, b][0] == a && [a, b][1] == b;
  }

  /** A sorted list runs from the largest counter to the smallest. */
  lemma SortedDescends(input: seq<InflightDesc>, output: seq<InflightDesc>)
    requires Consistent(input) && DistinctIndices(input) && QsortResult(input, output)
    ensures forall i, j :: 0 <= i < j < |output| ==> output[i].counter > output[j].counter
  {
    ConsistentIffNarrow(input);
    PermutedIndices(input, output);
    forall i, j | 0 <= i < j < |output|
      ensures output[i].counter > output[j].counter
    {
      assert output[i] in multiset(output) && output[j] in multiset(output);
      var k :| 0 <= k < |input| && input[k] == output[i];
      var m :| 0 <= m < |input| && input[m] == output[j];
      assert k != m;
      if k < m {
        assert input[k].counter != input[m].counter && -2 * VIRTQUEUE_MAX_SIZE < input[k].counter - input[m].counter < 2 * VIRTQUEUE_MAX_SIZE;
      } else {
        assert input[m].counter != input[k].counter && -2 * VIRTQUEUE_MAX_SIZE < input[m].counter - input[k].counter < 2 * VIRTQUEUE_MAX_SIZE;
      }
      assert Compare(output[i], output[j]) <= 0;
    }
  }

  // ----- the order invariant -----

  /** Stamps follow fetch order among the heads in flight. */
  predicate StampsOrdered(s: State) {
    && (forall a :: a in s.h.pos ==> a < |s.q.shm.desc| && s.q.shm.desc[a].counter < s.h.fetched)
    && (forall a, b :: a in s.h.pos && b in s.h.pos && s.h.pos[a] < s.h.pos[b] ==>
          a < |s.q.shm.desc| && b < |s.q.shm.desc| && s.q.shm.desc[a].counter < s.q.shm.desc[b].counter)
  }

  /** The running counter exceeds every stamp in flight. */
  predicate CounterFresh(s: State) {
    && s.q.vq.counter <= s.h.fetched + (if s.pc.PopCounted? then 1 else 0)
    && (forall a :: a in s.h.pos ==> a < |s.q.shm.desc| && s.q.shm.desc[a].counter < s.q.vq.counter)
    && (s.pc.PopCounted? ==>
          && s.pc.head < |s.q.shm.desc|
          && s.q.shm.desc[s.pc.head].counter <= s.h.fetched
          && s.q.shm.desc[s.pc.head].counter < s.q.vq.counter
          && forall a :: a in s.h.pos && a < |s.q.shm.desc| ==>
               s.q.shm.desc[a].counter < s.q.shm.desc[s.pc.head].counter)
  }

  /** Taken from its end, the list yields heads in fetch order. */
  predicate ListOrdered(list: seq<InflightDesc>, pos: map<nat, nat>) {
    && (forall i :: 0 <= i < |list| ==> list[i].index in pos)
    && (forall i, j :: 0 <= i < j < |list| ==> pos[list[i].index] > pos[list[j].index])
  }

  predicate ResubmitOrdered(s: State) {
    ListOrdered(s.q.vq.resubmit, s.h.pos)
  }

  lemma PrefixOrdered(list: seq<InflightDesc>, pre: seq<InflightDesc>, pos: map<nat, nat>)
    requires ListOrdered(list, pos) && pre <= list
    ensures ListOrdered(pre, pos)
  {
    assert forall i :: 0 <= i < |pre| ==> pre[i] == list[i];
  }

  predicate OrderInv(s: State) {
    StampsOrdered(s) && (Booted(s.pc) ==> CounterFresh(s) && ResubmitOrdered(s))
  }

  /** Steps that neither fetch nor publish keep the order: they touch no
      stamp, no position, and at most drop entries from the resubmit list. */
  lemma OrderFrame(s: State, t: State)
    requires OrderInv(s) && t.h.pos == s.h.pos && t.h.fetched == s.h.fetched
    requires |t.q.shm.desc| == |s.q.shm.desc|
    requires forall a :: 0 <= a < |s.q.shm.desc| ==> t.q.shm.desc[a].counter == s.q.shm.desc[a].counter
    requires Booted(t.pc) ==> Booted(s.pc) && (t.pc.PopCounted? ==> t.pc == s.pc) && !(s.pc.PopCounted? && !t.pc.PopCounted?)
    requires Booted(t.pc) ==> t.q.vq.counter == s.q.vq.counter && t.q.vq.resubmit <= s.q.vq.resubmit
    ensures OrderInv(t)
  {
    if Booted(t.pc) {
      PrefixOrdered(s.q.vq.resubmit, t.q.vq.resubmit, s.h.pos);
    }
  }

  lemma StampOrder(s: State)
    requires Inv(s) && OrderInv(s) && s.pc.PopGot? && s.pc.head < |s.q.shm.desc| && s.h.fetched + 1 < WRAP64
    ensures OrderInv(Stamp(s))
  {
    CallOf(s);
  }

  lemma MarkStamps(s: State)
    requires StampsOrdered(s) && CounterFresh(s) && s.pc.PopCounted? && s.pc.head < |s.q.shm.desc|
    requires s.pc.head !in s.h.pos && forall a :: a in s.h.pos ==> s.h.pos[a] < s.h.fetched
    ensures StampsOrdered(Mark(s)) && CounterFresh(Mark(s))
  {
    var t, head := Mark(s), s.pc.head;
    assert t.h.pos == s.h.pos[head := s.h.fetched] && t.h.fetched == s.h.fetched + 1;
    assert forall a :: 0 <= a < |s.q.shm.desc| ==> t.q.shm.desc[a].counter == s.q.shm.desc[a].counter;
  }

  lemma MarkOrder(s: State)
    requires Inv(s) && OrderInv(s) && s.pc.PopCounted? && s.pc.head < |s.q.shm.desc|
    ensures OrderInv(Mark(s))
  {
    assert s.pc.head !in s.h.pos && Mark(s).q.vq.resubmit == [] by { CallOf(s); }
    assert forall a :: a in s.h.pos ==> s.h.pos[a] < s.h.fetched by { HistOf(s); }
    MarkStamps(s);
  }

  lemma PublishOrder(s: State)
    requires Inv(s) && OrderInv(s) && s.pc.PushBatched? && s.pc.head in s.h.pos
    ensures OrderInv(Publish(s))
  {
    var t := Publish(s);
    assert forall a :: a in t.h.pos ==> a in s.h.pos && t.h.pos[a] == s.h.pos[a];
    forall e | e in t.q.vq.resubmit
      ensures e.index in t.h.pos
    {
      VolatileOf(s);
      CallOf(s);
      assert e.index in Indices(s.q.vq.resubmit);
      assert e.index in s.h.pos.Keys;
    }
  }

  /** Recovery with a comparison that decides every pair: the list comes out
      in reverse fetch order and the restored counter exceeds every stamp in
      flight. */
  lemma ScanOrder(s: State, list: seq<InflightDesc>)
    requires Inv(s) && OrderInv(s) && s.pc.RecSettled? && s.h.fetched + 1 < WRAP64
    requires QsortResult(Marked(s.q.shm.desc), list) && Consistent(Marked(s.q.shm.desc))
    ensures OrderInv(Scan(s, list))
  {
    assert forall i, j :: 0 <= i < j < |list| ==> list[i].counter > list[j].counter by {
      MarkedEntries(s.q.shm.desc);
      SortedDescends(Marked(s.q.shm.desc), list);
    }
    assert Indices(list) == s.h.pos.Keys by { ScanIsExact(s, list); }
    ScanStamped(s, list);
    ScanResubmit(s, list);
    ScanCounter(s, list);
    ScanStamps(s, list);
  }

  lemma ScanStamps(s: State, list: seq<InflightDesc>)
    requires StampsOrdered(s) && s.pc.RecSettled? && s.h.fetched + 1 < WRAP64
    ensures StampsOrdered(Scan(s, list))
  {
  }

  lemma ScanStamped(s: State, list: seq<InflightDesc>)
    requires multiset(list) == multiset(Marked(s.q.shm.desc)) && Indices(list) == s.h.pos.Keys
    ensures Stamped(s, list)
  {
    MarkedEntries(s.q.shm.desc);
    forall i | 0 <= i < |list|
      ensures list[i].index < |s.q.shm.desc| && list[i].counter == s.q.shm.desc[list[i].index].counter
      ensures list[i].index in s.h.pos
    {
      assert list[i] in multiset(list);
      assert list[i] in Marked(s.q.shm.desc);
      assert list[i].index in Indices(list);
    }
  }

  predicate Stamped(s: State, list: seq<InflightDesc>) {
    forall i :: 0 <= i < |list| ==>
      && list[i].index < |s.q.shm.desc|
      && list[i].counter == s.q.shm.desc[list[i].index].counter
      && list[i].index in s.h.pos
  }

  lemma ScanResubmit(s: State, list: seq<InflightDesc>)
    requires Inv(s) && StampsOrdered(s) && Stamped(s, list)
    requires forall i, j :: 0 <= i < j < |list| ==> list[i].counter > list[j].counter
    ensures ResubmitOrdered(Scan(s, list))
  {
    HistOf(s);
    forall i, j | 0 <= i < j < |list|
      ensures s.h.pos[list[i].index] > s.h.pos[list[j].index]
    {
      var a, b := list[i].index, list[j].index;
      assert list[i].counter > list[j].counter;
      assert s.h.pos[a] == s.h.pos[b] ==> a == b;
    }
  }

  lemma ScanCounter(s: State, list: seq<InflightDesc>)
    requires StampsOrdered(s) && Stamped(s, list) && s.pc.RecSettled? && s.h.fetched + 1 < WRAP64
    requires Indices(list) == s.h.pos.Keys
    requires forall i, j :: 0 <= i < j < |list| ==> list[i].counter > list[j].counter
    ensures CounterFresh(Scan(s, list))
  {
    forall a | a in s.h.pos
      ensures list != [] && s.q.shm.desc[a].counter <= list[0].counter
    {
      assert a in Indices(list);
      var e :| e in list && e.index == a;
      var i :| 0 <= i < |list| && list[i] == e;
    }
  }

  lemma StepKeepsOrder(s: State, step: Step)
    requires Inv(s) && OrderInv(s) && Enabled(s, step) && s.h.fetched + 1 < WRAP64
    requires step.RecScan? ==> Consistent(Marked(s.q.shm.desc))
    ensures OrderInv(Apply(s, step))
  {
    match step
    case PopCounter => StampOrder(s);
    case PopMark => MarkOrder(s);
    case PushPublish => PublishOrder(s);
    case RecScan(list) => ScanOrder(s, list);
    case PopFetch =>
      FetchShape(s);
      OrderFrame(s, FetchNext(s));
    case _ => OtherOrder(s, step);
  }

  lemma OtherOrder(s: State, step: Step)
    requires Inv(s) && OrderInv(s) && Enabled(s, step)
    requires !step.PopFetch? && !step.PopCounter? && !step.PopMark? && !step.PushPublish? && !step.RecScan?
    ensures OrderInv(Apply(s, step))
  {
    OrderFrame(s, Apply(s, step));
  }

  // ----- every run -----

  /** A run whose recoveries all find the counters in flight within reach of
      the comparison. */
  ghost predicate NarrowRun(s: State, steps: seq<Step>, t: State)
    decreases |steps|
  {
    if steps == [] then s == t
    else
      && Enabled(s, steps[0])
      && (steps[0].RecScan? ==> NarrowSpan(Marked(s.q.shm.desc)))
      && NarrowRun(Apply(s, steps[0]), steps[1..], t)
  }

  lemma FetchedGrows(s: State, step: Step)
    requires Enabled(s, step)
    ensures s.h.fetched <= Apply(s, step).h.fetched
  {
  }

  lemma {:induction false} NarrowRunKeeps(s: State, steps: seq<Step>, t: State)
    requires Inv(s) && OrderInv(s) && NarrowRun(s, steps, t) && t.h.fetched + 1 < WRAP64
    ensures Inv(t) && OrderInv(t) && s.h.fetched <= t.h.fetched
    decreases |steps|
  {
    if steps != [] {
      var s1 := Apply(s, steps[0]);
      StepKeeps(s, steps[0]);
      FetchedGrows(s, steps[0]);
      NarrowGrows(s1, steps[1..], t);
      ConsistentIffNarrow(Marked(s.q.shm.desc));
      StepKeepsOrder(s, steps[0]);
      NarrowRunKeeps(s1, steps[1..], t);
    }
  }

  lemma {:induction false} NarrowGrows(s: State, steps: seq<Step>, t: State)
    requires NarrowRun(s, steps, t)
    ensures s.h.fetched <= t.h.fetched
    decreases |steps|
  {
    if steps != [] {
      FetchedGrows(s, steps[0]);
      NarrowGrows(Apply(s, steps[0]), steps[1..], t);
    }
  }

  /** In every state of every such run, successive pops from the resubmit
      list return heads in their original fetch order, and the running counter
      exceeds every counter in flight. */
  lemma FetchOrderKept(s: State, steps: seq<Step>, t: State)
    requires Init(s) && NarrowRun(s, steps, t) && t.h.fetched + 1 < WRAP64
    ensures Booted(t.pc) ==> ResubmitOrdered(t)
    ensures Booted(t.pc) ==> forall a :: a in t.h.pos && a < |t.q.shm.desc| ==> t.q.shm.desc[a].counter < t.q.vq.counter
  {
    InitHolds(s);
    assert OrderInv(s) by { HistOf(s); assert |s.h.pos| == 0; }
    NarrowRunKeeps(s, steps, t);
  }
}
