/** What a mapped chain means: flattened to bytes, the runs of an element are
    the chain's buffers translated byte by byte, readable ones first, in chain
    order, with nothing missing or added; and a chain is accepted exactly when
    its buffers are nonempty, mapped, and need few enough runs. */
module ChainMeaning {
  import opened Common
  import opened Vring
  import opened Regions
  import opened ChainMap

  /** Where one guest byte is mapped. */
  function VaOf(t: seq<Region>, addr: nat): Option<nat> {
    LinearScanFinds(t, addr);
    match LinearScan(t, addr)
    case None => None
    case Some(i) => Some(addr - t[i].gpa + t[i].mmapAddr + t[i].mmapOffset)
  }

  function RunBytes(run: Iov): (bytes: seq<nat>)
    ensures |bytes| == run.len
  {
    seq(run.len, k => run.base + k)
  }

  /** Every byte address of a scatter-gather list, in order. */
  function Bytes(sg: seq<Iov>): seq<nat>
    decreases |sg|
  {
    if sg == [] then [] else RunBytes(sg[0]) + Bytes(sg[1..])
  }

  /** `bytes` are the translations of the `sz` guest bytes from `pa`. */
  ghost predicate Maps(t: seq<Region>, pa: nat, sz: nat, bytes: seq<nat>) {
    |bytes| == sz && forall a :: pa <= a < pa + sz ==> VaOf(t, a) == Some(bytes[a - pa])
  }

  /** Every one of the `sz` guest bytes from `pa` lies in some region. */
  ghost predicate Mapped(t: seq<Region>, pa: nat, sz: nat) {
    forall a :: pa <= a < pa + sz ==> VaOf(t, a).Some?
  }

  /** How many runs the bytes fall into. */
  function RunCount(t: seq<Region>, pa: uint64, sz: nat): nat
    requires Ordered(t)
    decreases sz
  {
    if sz == 0 then 0
    else
      match Translate(t, pa, sz)
      case None => 0
      case Some(run) =>
        RunBounds(t, pa, sz);
        1 + RunCount(t, U64(pa + run.len), sz - run.len)
  }

  lemma BytesAppend(a: seq<Iov>, b: seq<Iov>)
    ensures Bytes(a + b) == Bytes(a) + Bytes(b)
    decreases |a|
  {
    if a == [] {
      assert a + b == b;
    } else {
      assert (a + b)[1..] == a[1..] + b;
      BytesAppend(a[1..], b);
    }
  }

  /** A run of a range that does not wrap stays within one region and
      translates each of its bytes. */
  lemma RunExact(t: seq<Region>, pa: uint64, sz: nat)
    requires Ordered(t) && pa + sz < WRAP64 && Translate(t, pa, sz).Some?
    ensures var run := Translate(t, pa, sz).value;
            0 < run.len <= sz && U64(pa + run.len) == pa + run.len && Maps(t, pa, run.len, RunBytes(run))
  {
    RunBounds(t, pa, sz);
    LinearScanFinds(t, pa);
    var run, i := Translate(t, pa, sz).value, LinearScan(t, pa).value;
    forall a | pa <= a < pa + run.len
      ensures VaOf(t, a) == Some(RunBytes(run)[a - pa])
    {
      OnlyHit(t, a, i);
    }
  }

  lemma MapsJoin(t: seq<Region>, pa: nat, n: nat, next: nat, m: nat, a: seq<nat>, b: seq<nat>, sz: nat)
    requires Maps(t, pa, n, a) && Maps(t, next, m, b) && next == pa + n && sz == n + m
    ensures Maps(t, pa, sz, a + b)
  {
  }

  lemma BytesAfter(r: seq<Iov>, sg: seq<Iov>, run: Iov)
    requires sg + [run] <= r
    ensures Bytes(r[|sg|..]) == RunBytes(run) + Bytes(r[|sg| + 1..])
  {
    assert r[|sg|] == (sg + [run])[|sg|] == run;
    assert r[|sg|..][1..] == r[|sg| + 1..];
  }

  /** A buffer that ends past 2^64 is one run of its whole length when its first
      byte is mapped: the end computed in 64 bits never exceeds the region's. */
  lemma WrappedRun(t: seq<Region>, pa: uint64, sz: uint32)
    requires Ordered(t) && pa + sz >= WRAP64
    ensures Translate(t, pa, sz).Some? <==> VaOf(t, pa).Some?
    ensures Translate(t, pa, sz).Some? ==> Translate(t, pa, sz).value.len == sz
  {
    LinearScanFinds(t, pa);
    assert U64(pa + sz) == pa + sz - WRAP64;
  }

  /** No list of addresses translates such a buffer: no region reaches the last
      byte of the address space. */
  lemma NothingMapsPastEnd(t: seq<Region>, pa: uint64, sz: nat, bytes: seq<nat>)
    requires Ordered(t) && pa + sz >= WRAP64
    ensures !Maps(t, pa, sz, bytes)
  {
    LinearScanFinds(t, WRAP64 - 1);
    assert VaOf(t, WRAP64 - 1) == None;
  }

  lemma {:induction false} RunsAreBytes(t: seq<Region>, sg: seq<Iov>, maxNum: nat, pa: uint64, sz: nat, r: seq<Iov>)
    requires Ordered(t) && pa + sz < WRAP64 && |sg| <= maxNum
    requires MapRuns(t, sg, maxNum, pa, sz) == Some(r)
    ensures sg <= r && Maps(t, pa, sz, Bytes(r[|sg|..]))
    decreases sz
  {
    if sz == 0 {
      assert r[|sg|..] == [];
    } else {
      var run := Translate(t, pa, sz).value;
      var next, left := pa + run.len, sz - run.len;
      assert 0 < run.len <= sz && U64(pa + run.len) == next && Maps(t, pa, run.len, RunBytes(run)) by {
        RunExact(t, pa, sz);
      }
      RunsAreBytes(t, sg + [run], maxNum, next, left, r);
      var rest := Bytes(r[|sg| + 1..]);
      assert Bytes(r[|sg|..]) == RunBytes(run) + rest by { BytesAfter(r, sg, run); }
      MapsJoin(t, pa, run.len, next, left, RunBytes(run), rest, sz);
    }
  }

  /** The runs appended for a buffer are its translation byte by byte, if and
      only if it does not end past 2^64. */
  lemma MapRunsExactIff(t: seq<Region>, sg: seq<Iov>, maxNum: nat, pa: uint64, sz: uint32, r: seq<Iov>)
    requires Ordered(t) && |sg| <= maxNum && MapRuns(t, sg, maxNum, pa, sz) == Some(r)
    ensures sg <= r && (Maps(t, pa, sz, Bytes(r[|sg|..])) <==> pa + sz < WRAP64)
  {
    MapRunsGrows(t, sg, maxNum, pa, sz);
    if pa + sz < WRAP64 {
      RunsAreBytes(t, sg, maxNum, pa, sz, r);
    } else {
      NothingMapsPastEnd(t, pa, sz, Bytes(r[|sg|..]));
    }
  }

  /** What acceptance asks of a buffer's bytes: all mapped, or, when it ends past
      2^64, the first one. */
  ghost predicate Reachable(t: seq<Region>, pa: uint64, sz: nat) {
    if pa + sz < WRAP64 then Mapped(t, pa, sz) else VaOf(t, pa).Some?
  }

  lemma {:induction false} RunsFit(t: seq<Region>, sg: seq<Iov>, maxNum: nat, pa: uint64, sz: nat)
    requires Ordered(t) && pa + sz < WRAP64 && |sg| <= maxNum
    ensures MapRuns(t, sg, maxNum, pa, sz).Some? <==> Mapped(t, pa, sz) && |sg| + RunCount(t, pa, sz) <= maxNum
    ensures MapRuns(t, sg, maxNum, pa, sz).Some? ==>
              |MapRuns(t, sg, maxNum, pa, sz).value| == |sg| + RunCount(t, pa, sz)
    decreases sz
  {
    if sz > 0 {
      if Translate(t, pa, sz) == None {
        assert VaOf(t, pa) == None;
      } else {
        var run := Translate(t, pa, sz).value;
        RunExact(t, pa, sz);
        var next, rest := pa + run.len, sz - run.len;
        assert Mapped(t, pa, sz) <==> Mapped(t, next, rest) by { MappedRest(t, pa, sz, run.len); }
        RunsStep(t, sg, maxNum, pa, sz, run, next, rest);
        if |sg| < maxNum {
          RunsFit(t, sg + [run], maxNum, next, rest);
        }
      }
    }
  }

  lemma MappedRest(t: seq<Region>, pa: uint64, sz: nat, n: nat)
    requires n <= sz && forall a :: pa <= a < pa + n ==> VaOf(t, a).Some?
    ensures Mapped(t, pa, sz) <==> Mapped(t, pa + n, sz - n)
  {
  }

  /** The first run and the rest of a range. */
  lemma RunsStep(t: seq<Region>, sg: seq<Iov>, maxNum: nat, pa: uint64, sz: nat, run: Iov, next: uint64, rest: nat)
    requires Ordered(t) && sz > 0 && Translate(t, pa, sz) == Some(run) && 0 < run.len <= sz
    requires next == U64(pa + run.len) && rest == sz - run.len
    ensures RunCount(t, pa, sz) == 1 + RunCount(t, next, rest)
    ensures MapRuns(t, sg, maxNum, pa, sz) == if |sg| < maxNum then MapRuns(t, sg + [run], maxNum, next, rest) else None
  {
  }

  /** A buffer is accepted if and only if its bytes are reachable and its runs
      fit. */
  lemma MapRunsSomeIff(t: seq<Region>, sg: seq<Iov>, maxNum: nat, pa: uint64, sz: uint32)
    requires Ordered(t) && |sg| <= maxNum
    ensures MapRuns(t, sg, maxNum, pa, sz).Some? <==> Reachable(t, pa, sz) && |sg| + RunCount(t, pa, sz) <= maxNum
    ensures MapRuns(t, sg, maxNum, pa, sz).Some? ==>
              |MapRuns(t, sg, maxNum, pa, sz).value| == |sg| + RunCount(t, pa, sz)
  {
    if pa + sz < WRAP64 {
      RunsFit(t, sg, maxNum, pa, sz);
    } else {
      WrappedRun(t, pa, sz);
      if VaOf(t, pa).Some? {
        var run := Translate(t, pa, sz).value;
        assert RunCount(t, U64(pa + run.len), 0) == 0;
        assert MapRuns(t, sg + [run], maxNum, U64(pa + run.len), 0) == Some(sg + [run]);
      }
    }
  }

  // ----- how many runs -----

  ghost predicate RegionMeets(r: Region, from: nat, to: nat) {
    r.gpa < to && from < End(r)
  }

  ghost function MeetFlags(t: seq<Region>, from: nat, to: nat): (f: seq<bool>)
    ensures |f| == |t| && forall j :: 0 <= j < |t| ==> f[j] == RegionMeets(t[j], from, to)
  {
    seq(|t|, j requires 0 <= j < |t| => RegionMeets(t[j], from, to))
  }

  /** One run comes from the region of the first byte; the others are the runs of
      the rest. */
  lemma MeetsOneMore(t: seq<Region>, i: nat, from: nat, end: nat, to: nat)
    requires Ordered(t) && i < |t| && Covers(t[i], from) && from < to && end == End(t[i])
    ensures CountSet(MeetFlags(t, from, to), |t|) ==
            1 + if to <= end then 0 else CountSet(MeetFlags(t, end, to), |t|)
  {
    var f := MeetFlags(t, from, to);
    var rest := if to <= end then seq(|t|, _ => false) else MeetFlags(t, end, to);
    forall j | 0 <= j < |t| && j != i
      ensures f[j] == rest[j]
    {
      if j < i {
        assert End(t[j]) <= t[i].gpa;
      } else {
        assert End(t[i]) <= t[j].gpa;
      }
    }
    CountOneMore(rest, f, i, |t|);
    if to <= end { CountNone(rest, |t|); }
  }

  lemma FirstRun(t: seq<Region>, pa: uint64, sz: nat) returns (i: nat, next: uint64, left: nat)
    requires Ordered(t) && pa + sz < WRAP64 && sz > 0 && VaOf(t, pa).Some?
    ensures i < |t| && Covers(t[i], pa) && next == Min(End(t[i]), pa + sz) && left == pa + sz - next < sz
    ensures RunCount(t, pa, sz) == 1 + RunCount(t, next, left)
  {
    LinearScanFinds(t, pa);
    i := LinearScan(t, pa).value;
    var run := Translate(t, pa, sz).value;
    assert U64(pa + sz) == pa + sz;
    next, left := Min(End(t[i]), pa + sz), pa + sz - Min(End(t[i]), pa + sz);
    assert run.len == next - pa && U64(pa + run.len) == next;
    RunsStep(t, [], 0, pa, sz, run, next, left);
  }

  lemma {:induction false} RunsAreRegions(t: seq<Region>, pa: uint64, sz: nat, to: nat)
    requires Ordered(t) && to == pa + sz < WRAP64 && Mapped(t, pa, sz) && sz > 0
    ensures RunCount(t, pa, sz) == CountSet(MeetFlags(t, pa, to), |t|)
    decreases sz
  {
    var i, next, left := FirstRun(t, pa, sz);
    if left > 0 {
      MeetsOneMore(t, i, pa, next, to);
      RunsAreRegions(t, next, left, to);
    } else {
      MeetsOneMore(t, i, pa, End(t[i]), to);
    }
  }

  /** A mapped buffer takes as many runs as regions meet it. */
  lemma RunCountIsRegions(t: seq<Region>, pa: uint64, sz: nat)
    requires Ordered(t) && pa + sz < WRAP64 && Mapped(t, pa, sz) && sz > 0
    ensures RunCount(t, pa, sz) == CountSet(MeetFlags(t, pa, pa + sz), |t|)
  {
    RunsAreRegions(t, pa, sz, pa + sz);
  }

  // ----- chains -----

  /** `path` follows the next links from its first descriptor to one that ends
      the chain. */
  ghost predicate Linked(desc: seq<Desc>, path: seq<nat>) {
    && path != []
    && (forall k :: 0 <= k < |path| ==> path[k] < |desc|)
    && (forall k :: 0 <= k < |path| - 1 ==> desc[path[k]].more && desc[path[k]].next == path[k + 1])
    && !desc[path[|path| - 1]].more
  }

  /** The readable (or writable) buffers of a chain, in chain order. */
  function Buffers(desc: seq<Desc>, path: seq<nat>, write: bool): seq<Desc>
    requires forall k :: 0 <= k < |path| ==> path[k] < |desc|
    decreases |path|
  {
    if path == [] then []
    else
      var rest := Buffers(desc, path[1..], write);
      if desc[path[0]].write == write then [desc[path[0]]] + rest else rest
  }

  /** No readable buffer follows a writable one. */
  ghost predicate ReadableFirst(desc: seq<Desc>, path: seq<nat>)
    requires forall k :: 0 <= k < |path| ==> path[k] < |desc|
  {
    forall j, k :: 0 <= j < k < |path| && desc[path[j]].write ==> desc[path[k]].write
  }

  /** `bytes` are the translations of the buffers laid end to end. */
  ghost predicate MapsAll(t: seq<Region>, bufs: seq<Desc>, bytes: seq<nat>)
    decreases |bufs|
  {
    if bufs == [] then bytes == []
    else
      && bufs[0].len <= |bytes|
      && Maps(t, bufs[0].addr, bufs[0].len, bytes[..bufs[0].len])
      && MapsAll(t, bufs[1..], bytes[bufs[0].len..])
  }

  predicate InSpace(d: Desc) {
    d.addr + d.len < WRAP64
  }

  /** No buffer of the chain ends past 2^64. */
  ghost predicate NoWrap(desc: seq<Desc>, path: seq<nat>)
    requires forall k :: 0 <= k < |path| ==> path[k] < |desc|
  {
    forall k :: 0 <= k < |path| ==> InSpace(desc[path[k]])
  }

  lemma MapsAllCons(t: seq<Region>, d: Desc, rest: seq<Desc>, a: seq<nat>, b: seq<nat>)
    requires Maps(t, d.addr, d.len, a) && MapsAll(t, rest, b)
    ensures MapsAll(t, [d] + rest, a + b)
  {
    assert ([d] + rest)[1..] == rest;
    assert (a + b)[..d.len] == a && (a + b)[d.len..] == b;
  }

  /** One accepted descriptor: which list grew, and when by its bytes. */
  lemma AppendExactIff(t: seq<Region>, d: Desc, acc: Element)
    requires Ordered(t) && Count(acc) <= VIRTQUEUE_MAX_SIZE && Append(t, d, acc).Some?
    ensures var r := Append(t, d, acc).value;
            && (d.write ==> r.outSg == acc.outSg && acc.inSg <= r.inSg && r.inSg != []
                            && (Maps(t, d.addr, d.len, Bytes(r.inSg[|acc.inSg|..])) <==> InSpace(d)))
            && (!d.write ==> acc.inSg == [] && r.inSg == [] && acc.outSg <= r.outSg
                             && (Maps(t, d.addr, d.len, Bytes(r.outSg[|acc.outSg|..])) <==> InSpace(d)))
  {
    AppendGrows(t, d, acc);
    if d.write {
      MapRunsExactIff(t, acc.inSg, VIRTQUEUE_MAX_SIZE - |acc.outSg|, d.addr, d.len, Append(t, d, acc).value.inSg);
    } else {
      MapRunsExactIff(t, acc.outSg, VIRTQUEUE_MAX_SIZE, d.addr, d.len, Append(t, d, acc).value.outSg);
    }
  }

  /** The element's lists extend those collected before. */
  ghost predicate Extends(acc: Element, r: Element) {
    acc.outSg <= r.outSg && acc.inSg <= r.inSg
  }

  /** What was added along `path` is its buffers' bytes in order. */
  ghost predicate Grows(t: seq<Region>, desc: seq<Desc>, path: seq<nat>, acc: Element, r: Element) {
    && (forall k :: 0 <= k < |path| ==> path[k] < |desc|)
    && Extends(acc, r)
    && MapsAll(t, Buffers(desc, path, false), Bytes(r.outSg[|acc.outSg|..]))
    && MapsAll(t, Buffers(desc, path, true), Bytes(r.inSg[|acc.inSg|..]))
  }

  /** Buffers that some list of addresses translates do not end past 2^64. */
  lemma {:induction false} MapsAllInSpace(t: seq<Region>, bufs: seq<Desc>, bytes: seq<nat>)
    requires Ordered(t) && MapsAll(t, bufs, bytes)
    ensures forall k :: 0 <= k < |bufs| ==> InSpace(bufs[k])
    decreases |bufs|
  {
    if bufs != [] {
      var d := bufs[0];
      if !InSpace(d) { NothingMapsPastEnd(t, d.addr, d.len, bytes[..d.len]); }
      MapsAllInSpace(t, bufs[1..], bytes[d.len..]);
    }
  }

  lemma {:induction false} InBuffers(desc: seq<Desc>, path: seq<nat>, k: nat)
    requires (forall k :: 0 <= k < |path| ==> path[k] < |desc|) && k < |path|
    ensures desc[path[k]] in Buffers(desc, path, desc[path[k]].write)
    decreases |path|
  {
    if k > 0 { InBuffers(desc, path[1..], k - 1); }
  }

  lemma GrowsInSpace(t: seq<Region>, desc: seq<Desc>, path: seq<nat>, acc: Element, r: Element)
    requires Ordered(t) && Grows(t, desc, path, acc, r)
    ensures NoWrap(desc, path)
  {
    MapsAllInSpace(t, Buffers(desc, path, false), Bytes(r.outSg[|acc.outSg|..]));
    MapsAllInSpace(t, Buffers(desc, path, true), Bytes(r.inSg[|acc.inSg|..]));
    forall k | 0 <= k < |path|
      ensures InSpace(desc[path[k]])
    {
      InBuffers(desc, path, k);
    }
  }

  lemma BytesSplit(a: seq<Iov>, b: seq<Iov>, c: seq<Iov>)
    requires a <= b <= c
    ensures Bytes(c[|a|..]) == Bytes(b[|a|..]) + Bytes(c[|b|..])
  {
    assert c[|a|..] == b[|a|..] + c[|b|..];
    BytesAppend(b[|a|..], c[|b|..]);
  }

  lemma GrowsCons(t: seq<Region>, desc: seq<Desc>, i: nat, rest: seq<nat>, acc: Element, mid: Element, r: Element)
    requires Ordered(t) && i < |desc| && InSpace(desc[i]) && Count(acc) <= VIRTQUEUE_MAX_SIZE
    requires Append(t, desc[i], acc) == Some(mid) && Grows(t, desc, rest, mid, r)
    ensures Grows(t, desc, [i] + rest, acc, r)
  {
    AppendExactIff(t, desc[i], acc);
    SideCons(t, desc, i, rest, [i] + rest, false, acc.outSg, mid.outSg, r.outSg);
    SideCons(t, desc, i, rest, [i] + rest, true, acc.inSg, mid.inSg, r.inSg);
  }

  /** One of the two lists, as a buffer is put before a path. */
  lemma SideCons(t: seq<Region>, desc: seq<Desc>, i: nat, rest: seq<nat>, path: seq<nat>, write: bool,
                 a: seq<Iov>, b: seq<Iov>, c: seq<Iov>)
    requires i < |desc| && path == [i] + rest && (forall k :: 0 <= k < |rest| ==> rest[k] < |desc|) && a <= b <= c
    requires if desc[i].write == write then Maps(t, desc[i].addr, desc[i].len, Bytes(b[|a|..])) else a == b
    requires MapsAll(t, Buffers(desc, rest, write), Bytes(c[|b|..]))
    ensures MapsAll(t, Buffers(desc, path, write), Bytes(c[|a|..]))
  {
    assert path[1..] == rest;
    if desc[i].write == write {
      BytesSplit(a, b, c);
      MapsAllCons(t, desc[i], Buffers(desc, rest, write), Bytes(b[|a|..]), Bytes(c[|b|..]));
    }
  }

  lemma LinkedCons(desc: seq<Desc>, i: nat, rest: seq<nat>)
    requires i < |desc|
    requires if desc[i].more then Linked(desc, rest) && ReadableFirst(desc, rest) && desc[i].next == rest[0] else rest == []
    requires desc[i].write && desc[i].more ==> desc[rest[0]].write
    ensures Linked(desc, [i] + rest) && ReadableFirst(desc, [i] + rest)
  {
    if desc[i].write && desc[i].more { AllWritable(desc, rest); }
  }

  lemma GrowsNot(t: seq<Region>, desc: seq<Desc>, r: Element)
    ensures Grows(t, desc, [], r, r)
  {
    assert r.outSg[|r.outSg|..] == [] && r.inSg[|r.inSg|..] == [];
  }

  /** All the runs a chain needs. */
  function ChainRuns(t: seq<Region>, desc: seq<Desc>, path: seq<nat>): nat
    requires Ordered(t) && forall k :: 0 <= k < |path| ==> path[k] < |desc|
    decreases |path|
  {
    if path == [] then 0
    else RunCount(t, desc[path[0]].addr, desc[path[0]].len) + ChainRuns(t, desc, path[1..])
  }

  /** Every buffer of the chain is nonempty and reachable. */
  ghost predicate Backed(t: seq<Region>, desc: seq<Desc>, path: seq<nat>) {
    forall k :: 0 <= k < |path| ==>
      path[k] < |desc| && desc[path[k]].len > 0 && Reachable(t, desc[path[k]].addr, desc[path[k]].len)
  }

  lemma AppendSomeIff(t: seq<Region>, d: Desc, acc: Element)
    requires Ordered(t) && Count(acc) <= VIRTQUEUE_MAX_SIZE
    ensures Append(t, d, acc).Some? <==>
              && d.len > 0
              && Reachable(t, d.addr, d.len)
              && Count(acc) + RunCount(t, d.addr, d.len) <= VIRTQUEUE_MAX_SIZE
              && (d.write || acc.inSg == [])
    ensures Append(t, d, acc).Some? ==>
              Count(Append(t, d, acc).value) == Count(acc) + RunCount(t, d.addr, d.len)
  {
    if d.write {
      MapRunsSomeIff(t, acc.inSg, VIRTQUEUE_MAX_SIZE - |acc.outSg|, d.addr, d.len);
    } else {
      MapRunsSomeIff(t, acc.outSg, VIRTQUEUE_MAX_SIZE, d.addr, d.len);
    }
  }

  /** Soundness: an accepted chain is a finite linked path, readable buffers
      before writable ones, and the runs collected along it are the buffers'
      bytes in order, unless one of those buffers ends past 2^64. */
  lemma {:induction false} ChainSound(t: seq<Region>, desc: seq<Desc>, i: nat, acc: Element) returns (path: seq<nat>)
    requires Ordered(t) && i < |desc| && Count(acc) <= VIRTQUEUE_MAX_SIZE
    requires Walk(t, desc, i, acc).Some?
    ensures Linked(desc, path) && path[0] == i && ReadableFirst(desc, path)
    ensures acc.inSg != [] ==> desc[i].write
    ensures Extends(acc, Walk(t, desc, i, acc).value)
    ensures NoWrap(desc, path) ==> Grows(t, desc, path, acc, Walk(t, desc, i, acc).value)
    ensures Backed(t, desc, path)
    ensures Count(acc) + ChainRuns(t, desc, path) <= |desc|
    ensures Count(acc) + ChainRuns(t, desc, path) <= VIRTQUEUE_MAX_SIZE
    decreases |desc| + 1 - Count(acc)
  {
    var d, mid := desc[i], Append(t, desc[i], acc).value;
    AppendGrows(t, d, acc);
    AppendExactIff(t, d, acc);
    AppendSomeIff(t, d, acc);
    var rest: seq<nat> := [];
    if d.more {
      rest := ChainSound(t, desc, d.next, mid);
    } else {
      GrowsNot(t, desc, mid);
    }
    LinkedCons(desc, i, rest);
    path := [i] + rest;
    assert path[1..] == rest;
    if NoWrap(desc, path) {
      assert InSpace(desc[path[0]]) && NoWrap(desc, rest);
      GrowsCons(t, desc, i, rest, acc, mid, Walk(t, desc, i, acc).value);
    }
  }

  lemma AllWritable(desc: seq<Desc>, path: seq<nat>)
    requires Linked(desc, path) && ReadableFirst(desc, path) && desc[path[0]].write
    ensures forall k :: 0 <= k < |path| ==> desc[path[k]].write
  {
    forall k | 0 <= k < |path|
      ensures desc[path[k]].write
    {
      if k > 0 { assert desc[path[0]].write; }
    }
  }

  /** Completeness: a linked path whose buffers are nonempty, reachable and in
      order, and which needs no more runs than the table has entries nor more
      than VIRTQUEUE_MAX_SIZE, is accepted. */
  lemma {:induction false} ChainComplete(t: seq<Region>, desc: seq<Desc>, path: seq<nat>, acc: Element)
    requires Ordered(t) && Linked(desc, path) && ReadableFirst(desc, path) && Backed(t, desc, path)
    requires Count(acc) <= VIRTQUEUE_MAX_SIZE && (acc.inSg != [] ==> desc[path[0]].write)
    requires Count(acc) + ChainRuns(t, desc, path) <= |desc|
    requires Count(acc) + ChainRuns(t, desc, path) <= VIRTQUEUE_MAX_SIZE
    ensures Walk(t, desc, path[0], acc).Some?
    decreases |path|
  {
    var d := desc[path[0]];
    AppendSomeIff(t, d, acc);
    AppendGrows(t, d, acc);
    AppendExactIff(t, d, acc);
    if d.more {
      var rest := path[1..];
      assert rest != [];
      assert d.next == rest[0];
      LinkedTail(desc, path);
      assert d.write ==> desc[rest[0]].write;
      ChainComplete(t, desc, rest, Append(t, d, acc).value);
    }
  }

  /** `path` is a chain that `vu_queue_map_desc` must accept. */
  ghost predicate Acceptable(t: seq<Region>, desc: seq<Desc>, head: nat, path: seq<nat>)
    requires Ordered(t)
  {
    && Linked(desc, path)
    && path[0] == head
    && ReadableFirst(desc, path)
    && Backed(t, desc, path)
    && ChainRuns(t, desc, path) <= |desc|
    && ChainRuns(t, desc, path) <= VIRTQUEUE_MAX_SIZE
  }

  /** The whole of it, for every table: a head is mapped if and only if an
      acceptable chain starts there, and its element is that chain byte by byte
      if and only if no buffer on the chain ends past 2^64. */
  lemma ChainMappedIff(t: seq<Region>, desc: seq<Desc>, head: nat)
    requires Ordered(t) && head < |desc|
    ensures Walk(t, desc, head, Element([], [])).Some? <==> exists path :: Acceptable(t, desc, head, path)
    ensures Walk(t, desc, head, Element([], [])).Some? ==>
              exists path :: Acceptable(t, desc, head, path)
                && (Grows(t, desc, path, Element([], []), Walk(t, desc, head, Element([], [])).value) <==> NoWrap(desc, path))
  {
    var empty := Element([], []);
    if Walk(t, desc, head, empty).Some? {
      var path := ChainSound(t, desc, head, empty);
      assert Acceptable(t, desc, head, path);
      var r := Walk(t, desc, head, empty).value;
      if Grows(t, desc, path, empty, r) { GrowsInSpace(t, desc, path, empty, r); }
    }
    if path :| Acceptable(t, desc, head, path) {
      ChainComplete(t, desc, path, empty);
    }
  }

  /** The table a head's chain is in, and where it starts there. */
  ghost function ChainTable(ring: seq<Desc>, head: nat, table: seq<Desc>): (seq<Desc>, nat)
    requires head < |ring|
  {
    if ring[head].indirect then (table, 0) else (ring, head)
  }

  /** A head whose chain can be looked at: direct, or pointing to a mapped table of
      whole descriptors. */
  ghost predicate TableThere(t: seq<Region>, d: Desc) {
    d.indirect ==> d.len > 0 && d.len % DESC_SIZE == 0 && VaOf(t, d.addr).Some?
  }

  /** `vu_queue_map_desc` of any head, direct or indirect: it succeeds if and only if
      the chain's table is there and an acceptable chain starts in it, at its first
      entry when the head is indirect; the element is that chain byte by byte if and
      only if no buffer on it ends past 2^64. */
  lemma HeadMappedIff(t: seq<Region>, ring: seq<Desc>, head: nat, table: seq<Desc>)
    requires Ordered(t) && head < |ring| && OneRegion(t, ring[head], table)
    ensures var (desc, start) := ChainTable(ring, head, table);
            && (ChainOf(t, ring, head, table).Some? <==>
                  TableThere(t, ring[head]) && exists path :: Acceptable(t, desc, start, path))
            && (ChainOf(t, ring, head, table).Some? ==>
                  exists path :: Acceptable(t, desc, start, path)
                    && (Grows(t, desc, path, Element([], []), ChainOf(t, ring, head, table).value) <==> NoWrap(desc, path)))
  {
    var d := ring[head];
    var (desc, start) := ChainTable(ring, head, table);
    if d.indirect { TranslateSomeIff(t, d.addr, d.len); }
    if TableThere(t, d) {
      assert start < |desc| && ChainOf(t, ring, head, table) == Walk(t, desc, start, Element([], []));
      ChainMappedIff(t, desc, start);
    } else {
      assert ChainOf(t, ring, head, table) == None;
    }
  }

  lemma TranslateSomeIff(t: seq<Region>, addr: uint64, n: nat)
    requires Ordered(t)
    ensures Translate(t, addr, n).Some? <==> n > 0 && VaOf(t, addr).Some?
  {
    LinearScanFinds(t, addr);
  }

  lemma LinkedTail(desc: seq<Desc>, path: seq<nat>)
    requires Linked(desc, path) && |path| > 1
    ensures Linked(desc, path[1..]) && (ReadableFirst(desc, path) ==> ReadableFirst(desc, path[1..]))
  {
    var rest := path[1..];
    assert forall k :: 0 <= k < |rest| ==> rest[k] == path[k + 1];
    forall k | 0 <= k < |rest| - 1
      ensures desc[rest[k]].more && desc[rest[k]].next == rest[k + 1]
    {
      assert desc[path[k + 1]].more && desc[path[k + 1]].next == path[k + 2];
    }
  }

  /** Without the no-wrap condition translation can run past its region: the
      one-page region at the top of the address space below the last byte. */
  lemma WrapOvershoots()
    ensures var r := Region(WRAP64 - 4097, 4096, 0, 0, 0);
            && Ordered([r])
            && Translate([r], WRAP64 - 4097, 8192) == Some(Iov(0, 8192))
  {
    var r := Region(WRAP64 - 4097, 4096, 0, 0, 0);
    assert LinearScan([r], WRAP64 - 4097) == Some(0);
    assert U64(WRAP64 - 4097 + 8192) == 4095;
  }
}
