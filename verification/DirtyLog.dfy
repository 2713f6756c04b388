/** Dirty-page logging during migration: which pages one `vu_queue_fill`
    marks. */
module DirtyLog {
  import opened Common
  import opened Vring
  import opened Bits
  import opened ChainMap
  import opened ChainMeaning

  const LOG_PAGE: nat := 4096

  datatype Range = Range(addr: nat, len: nat)

  /** Page `p` holds a byte of the range. */
  predicate Meets(r: Range, p: nat) {
    r.len > 0 && r.addr / LOG_PAGE <= p <= (r.addr + r.len - 1) / LOG_PAGE
  }

  /** `Meets` is about bytes: some byte of the range lies in the page. */
  lemma MeetsIsByte(r: Range, p: nat)
    ensures Meets(r, p) <==> exists a: nat :: r.addr <= a < r.addr + r.len && a / LOG_PAGE == p
  {
    if Meets(r, p) {
      var a := if r.addr / LOG_PAGE == p then r.addr else p * LOG_PAGE;
      assert a / LOG_PAGE == p;
      assert r.addr <= a < r.addr + r.len;
    }
  }

  predicate MeetsAny(rs: seq<Range>, p: nat) {
    exists i :: 0 <= i < |rs| && Meets(rs[i], p)
  }

  /** `vu_log_write` marks page `p` for the range: from its first page on up to its
      end, which is computed in 64 bits. */
  predicate Marks(r: Range, p: nat) {
    r.len > 0 && r.addr / LOG_PAGE <= p && p * LOG_PAGE < U64(r.addr + r.len)
  }

  predicate MarksAny(rs: seq<Range>, p: nat) {
    exists i :: 0 <= i < |rs| && Marks(rs[i], p)
  }

  /** The pages marked are those the range meets if and only if it ends below
      2^64. */
  lemma MarksIff(r: Range)
    requires r.addr < WRAP64 && 0 < r.len
    ensures (forall p: nat :: Marks(r, p) <==> Meets(r, p)) <==> r.addr + r.len < WRAP64
  {
    var end := r.addr + r.len;
    if end < WRAP64 {
      assert U64(end) == end;
    } else {
      var p := (end - 1) / LOG_PAGE;
      assert Meets(r, p);
      if end == WRAP64 {
        assert U64(end) == 0;
      } else {
        LastPage(end - 1);
      }
      assert !Marks(r, p);
    }
  }

  lemma LastPage(a: nat)
    requires a >= WRAP64
    ensures a / LOG_PAGE * LOG_PAGE >= WRAP64
  {
  }

  lemma LastByte(end: nat)
    requires end < 2 * WRAP64
    ensures U64(end) > 0 ==> U64(end - 1) == U64(end) - 1
  {
    if end > WRAP64 {
      assert U64(end) == end - WRAP64 && U64(end - 1) == end - 1 - WRAP64;
    }
  }

  /** Sixteen bytes from eight before 2^64 on mark no page, not even the first. */
  lemma WrappedUnmarked(p: nat)
    ensures !Marks(Range(WRAP64 - 8, 16), p) && Meets(Range(WRAP64 - 8, 16), (WRAP64 - 8) / LOG_PAGE)
  {
    assert U64(WRAP64 + 8) == 8;
  }

  predicate Dirty(log: seq<bv8>, p: nat) {
    p / 8 < |log| && BitSet(log[p / 8], p % 8)
  }

  // ----- which ranges a fill logs -----

  function Piece(addr: nat, n: nat): seq<Range> {
    if n > 0 then [Range(addr, n)] else []
  }

  /** The first `len` bytes of the buffers laid end to end. */
  function FirstBytes(bufs: seq<Desc>, len: nat): seq<Range>
    decreases |bufs|
  {
    if bufs == [] || len == 0 then []
    else Piece(bufs[0].addr, Min(bufs[0].len, len)) + FirstBytes(bufs[1..], len - Min(bufs[0].len, len))
  }

  /** The addresses of the ranges, in order. */
  ghost function RangeAddrs(rs: seq<Range>): seq<nat>
    decreases |rs|
  {
    if rs == [] then [] else Run(rs[0].addr, rs[0].len) + RangeAddrs(rs[1..])
  }

  ghost function Run(a: nat, n: nat): (s: seq<nat>)
    ensures |s| == n && forall i :: 0 <= i < n ==> s[i] == a + i
  {
    seq<nat>(n, i => a + i)
  }

  ghost function Whole(bufs: seq<Desc>): (rs: seq<Range>)
    ensures |rs| == |bufs|
  {
    seq(|bufs|, i requires 0 <= i < |bufs| => Range(bufs[i].addr, bufs[i].len))
  }

  /** Address by address it is the first `len` of all the buffers. */
  lemma {:induction false} FirstBytesAre(bufs: seq<Desc>, len: nat)
    ensures var all := RangeAddrs(Whole(bufs));
            RangeAddrs(FirstBytes(bufs, len)) == all[..Min(len, |all|)]
    decreases |bufs|
  {
    if bufs != [] && len > 0 {
      var d, rest := bufs[0], bufs[1..];
      var n := Min(d.len, len);
      FirstBytesAre(rest, len - n);
      FirstBytesCons(bufs, len, d, n, RangeAddrs(Whole(rest)), FirstBytes(rest, len - n));
    }
  }

  lemma FirstBytesCons(bufs: seq<Desc>, len: nat, d: Desc, n: nat, tail: seq<nat>, first: seq<Range>)
    requires bufs != [] && len > 0 && d == bufs[0] && n == Min(d.len, len)
    requires tail == RangeAddrs(Whole(bufs[1..])) && first == FirstBytes(bufs[1..], len - n)
    requires RangeAddrs(first) == tail[..Min(len - n, |tail|)]
    ensures var all := RangeAddrs(Whole(bufs));
            RangeAddrs(FirstBytes(bufs, len)) == all[..Min(len, |all|)]
  {
    assert FirstBytes(bufs, len) == Piece(d.addr, n) + first;
    assert RangeAddrs(FirstBytes(bufs, len)) == Run(d.addr, n) + RangeAddrs(first) by { PieceAddrs(d.addr, n, first); }
    assert RangeAddrs(Whole(bufs)) == Run(d.addr, d.len) + tail by { WholeCons(bufs, d, bufs[1..]); }
    TakeRun(d.addr, d.len, n, len, tail, RangeAddrs(first));
  }

  lemma WholeCons(bufs: seq<Desc>, d: Desc, rest: seq<Desc>)
    requires bufs != [] && d == bufs[0] && rest == bufs[1..]
    ensures RangeAddrs(Whole(bufs)) == Run(d.addr, d.len) + RangeAddrs(Whole(rest))
  {
    assert Whole(bufs)[1..] == Whole(rest);
  }

  lemma TakeRun(a: nat, all: nat, n: nat, len: nat, tail: seq<nat>, taken: seq<nat>)
    requires n == Min(all, len) && taken == tail[..Min(len - n, |tail|)]
    ensures Run(a, n) + taken == (Run(a, all) + tail)[..Min(len, all + |tail|)]
  {
    assert Run(a, n) == Run(a, all)[..n];
  }

  lemma PieceAddrs(addr: nat, n: nat, rs: seq<Range>)
    ensures RangeAddrs(Piece(addr, n) + rs) == Run(addr, n) + RangeAddrs(rs)
  {
    if n > 0 {
      assert (Piece(addr, n) + rs)[1..] == rs;
    } else {
      assert Piece(addr, n) + rs == rs && Run(addr, n) == [];
    }
  }

  /** `vu_log_queue_fill` from descriptor `i`, `seen` descriptors in: the
      ranges it logs before the length runs out, the chain ends, or it gives
      up on a chain longer than the table. */
  function FillRanges(desc: seq<Desc>, i: nat, len: nat, seen: nat): seq<Range>
    requires i < |desc|
    decreases |desc| - seen
  {
    if seen >= |desc| then []
    else
      var d := desc[i];
      var n := if d.write then Min(d.len, len) else 0;
      if len - n == 0 || !d.more || d.next >= |desc| then Piece(d.addr, n)
      else Piece(d.addr, n) + FillRanges(desc, d.next, len - n, seen + 1)
  }

  /** However the descriptors are linked, it logs no more ranges than the table has
      entries. */
  lemma {:induction false} FillBounded(desc: seq<Desc>, i: nat, len: nat, seen: nat)
    requires i < |desc| && seen <= |desc|
    ensures |FillRanges(desc, i, len, seen)| <= |desc| - seen
    decreases |desc| - seen
  {
    if seen < |desc| {
      var d := desc[i];
      var n := if d.write then Min(d.len, len) else 0;
      if !(len - n == 0 || !d.more || d.next >= |desc|) {
        FillBounded(desc, d.next, len - n, seen + 1);
      }
    }
  }

  /** Along a chain, a fill logs exactly the first `len` bytes of the writable
      buffers. */
  lemma {:induction false} FillRangesExact(desc: seq<Desc>, path: seq<nat>, len: nat, seen: nat)
    requires Linked(desc, path) && seen + |path| <= |desc|
    ensures FillRanges(desc, path[0], len, seen) == FirstBytes(Buffers(desc, path, true), len)
    decreases |path|
  {
    var d, rest := desc[path[0]], path[1..];
    var n := if d.write then Min(d.len, len) else 0;
    var left := len - n;
    var tail := FirstBytes(Buffers(desc, rest, true), left);
    assert FirstBytes(Buffers(desc, path, true), len) == Piece(d.addr, n) + tail by {
      FirstBytesStep(desc, path, rest, len, n, left);
    }
    if left > 0 && d.more {
      assert d.next < |desc| && FillRanges(desc, d.next, left, seen + 1) == tail by {
        LinkedTail(desc, path);
        assert rest[0] == path[1] == d.next;
        FillRangesExact(desc, rest, left, seen + 1);
      }
      FillStep(desc, path[0], len, seen, n, left, tail, FillRanges(desc, path[0], len, seen));
    } else {
      assert tail == [];
      FillStep(desc, path[0], len, seen, n, left, tail, FillRanges(desc, path[0], len, seen));
    }
  }

  lemma FillStep(desc: seq<Desc>, i: nat, len: nat, seen: nat, n: nat, left: nat, tail: seq<Range>, all: seq<Range>)
    requires i < |desc| && seen < |desc| && all == FillRanges(desc, i, len, seen)
    requires n == (if desc[i].write then Min(desc[i].len, len) else 0) && left == len - n
    requires if left == 0 || !desc[i].more || desc[i].next >= |desc| then tail == []
             else tail == FillRanges(desc, desc[i].next, left, seen + 1)
    ensures all == Piece(desc[i].addr, n) + tail
  {
  }

  lemma FirstBytesStep(desc: seq<Desc>, path: seq<nat>, rest: seq<nat>, len: nat, n: nat, left: nat)
    requires path != [] && (forall k :: 0 <= k < |path| ==> path[k] < |desc|) && rest == path[1..]
    requires n == (if desc[path[0]].write then Min(desc[path[0]].len, len) else 0) && left == len - n
    ensures FirstBytes(Buffers(desc, path, true), len) ==
            Piece(desc[path[0]].addr, n) + FirstBytes(Buffers(desc, rest, true), left)
  {
    var d, bufs := desc[path[0]], Buffers(desc, rest, true);
    if d.write {
      assert ([d] + bufs)[1..] == bufs;
    }
  }

  lemma MarksConcat(a: seq<Range>, b: seq<Range>, p: nat)
    ensures MarksAny(a + b, p) <==> MarksAny(a, p) || MarksAny(b, p)
  {
    forall i | 0 <= i < |b| && Marks(b[i], p)
      ensures MarksAny(a + b, p)
    {
      assert (a + b)[|a| + i] == b[i];
    }
    forall i | 0 <= i < |a| && Marks(a[i], p)
      ensures MarksAny(a + b, p)
    {
      assert (a + b)[i] == a[i];
    }
  }

  /** A linked path never revisits a descriptor, so it is no longer than the
      table. */
  lemma {:induction false} LinkedSuffix(desc: seq<Desc>, path: seq<nat>, j: nat, k: nat)
    requires Linked(desc, path) && j < k < |path|
    ensures path[j] != path[k]
    decreases |path| - k
  {
    assert desc[path[j]].more && desc[path[j]].next == path[j + 1];
    if k + 1 < |path| {
      LinkedSuffix(desc, path, j + 1, k + 1);
      assert desc[path[k]].next == path[k + 1];
    }
  }

  lemma LinkedBounded(desc: seq<Desc>, path: seq<nat>)
    requires Linked(desc, path)
    ensures |path| <= |desc|
  {
    forall j, k | 0 <= j < k < |path|
      ensures path[j] != path[k]
    {
      LinkedSuffix(desc, path, j, k);
    }
    DistinctCount(path, |desc|);
  }

  lemma {:induction false} DistinctCount(path: seq<nat>, n: nat)
    requires forall k :: 0 <= k < |path| ==> path[k] < n
    requires forall j, k :: 0 <= j < k < |path| ==> path[j] != path[k]
    ensures |path| <= n
    decreases n
  {
    if path == [] {
    } else if k :| 0 <= k < |path| && path[k] == n - 1 {
      DistinctCount(path[..k] + path[k + 1..], n - 1);
    } else {
      assert path[0] < n;
      DistinctCount(path, n - 1);
    }
  }

  // ----- the loops -----

  /** `after` is `before` with the pages of `ranges` added and none removed. */
  ghost predicate Logged(before: seq<bv8>, after: seq<bv8>, ranges: seq<Range>) {
    forall p: nat :: Dirty(after, p) <==> Dirty(before, p) || MarksAny(ranges, p)
  }

  lemma LoggedMore(before: seq<bv8>, mid: seq<bv8>, after: seq<bv8>, ranges: seq<Range>, r: Range)
    requires Logged(before, mid, ranges)
    requires forall p: nat :: Dirty(after, p) <==> Dirty(mid, p) || Marks(r, p)
    ensures Logged(before, after, ranges + Piece(r.addr, r.len))
  {
    var more := Piece(r.addr, r.len);
    forall p: nat
      ensures Dirty(after, p) <==> Dirty(before, p) || MarksAny(ranges + more, p)
    {
      MarksConcat(ranges, more, p);
      assert MarksAny(more, p) <==> more != [] && Marks(more[0], p);
    }
  }

  /** With logging on the ranges are added; with logging off nothing changes. */
  ghost predicate LoggedIf(on: bool, before: seq<bv8>, after: seq<bv8>, ranges: seq<Range>) {
    if on then Logged(before, after, ranges) else after == before
  }

  class VuLog {
    const table: array<bv8>
    var logAll: bool

    /** A log of `size` bytes with no page dirty. */
    constructor (size: nat, on: bool)
      ensures fresh(table) && table.Length == size && logAll == on
      ensures forall p: nat :: !Dirty(table[..], p)
    {
      table := new bv8[size](_ => 0);
      logAll := on;
      new;
      forall p: nat
        ensures !Dirty(table[..], p)
      {
        AllBits(p % 8);
      }
    }

    /** `vu_log_page`. */
    method LogPage(page: nat)
      requires page / 8 < table.Length
      modifies table
      ensures forall p: nat :: Dirty(table[..], p) <==> Dirty(old(table[..]), p) || p == page
    {
      ghost var before := table[..];
      table[page / 8] := table[page / 8] | Mask1(page % 8);
      forall p: nat
        ensures Dirty(table[..], p) <==> Dirty(before, p) || p == page
      {
        if p / 8 == page / 8 {
          OrBit(before[page / 8], page % 8, p % 8);
          assert p == 8 * (p / 8) + p % 8 && page == 8 * (page / 8) + page % 8;
        }
      }
    }

    /** `vu_log_write`: exactly the pages of the range up to its 64-bit end are
        added. */
    method LogWrite(address: uint64, length: uint64)
      requires Fits(Range(address, length))
      modifies table
      ensures !logAll ==> table[..] == old(table[..])
      ensures logAll ==> forall p: nat ::
                Dirty(table[..], p) <==> Dirty(old(table[..]), p) || Marks(Range(address, length), p)
    {
      if !logAll || length == 0 {
        return;
      }
      var first, end := address / LOG_PAGE, U64(address + length);
      LastByte(address + length);
      var page: nat := first;
      while page * LOG_PAGE < end
        invariant first <= page && (first < page ==> (page - 1) * LOG_PAGE < end)
        invariant forall p: nat :: Dirty(table[..], p) <==> Dirty(old(table[..]), p) || first <= p < page
        decreases end - page * LOG_PAGE
      {
        assert page <= (end - 1) / LOG_PAGE;
        LogPage(page);
        page := page + 1;
      }
    }

    /** What the source asserts of a range it logs, whose last byte is computed in 64
        bits too. */
    ghost predicate Fits(r: Range)
      reads this
    {
      r.addr < WRAP64 && r.len < WRAP64 && (logAll && r.len > 0 ==> U64(r.addr + r.len - 1) / LOG_PAGE / 8 < table.Length)
    }

    ghost predicate AllFit(rs: seq<Range>)
      reads this
    {
      forall k :: 0 <= k < |rs| ==> Fits(rs[k])
    }

    /** Log as much of one descriptor as the length still covers. */
    method LogBuffer(d: Desc, left: nat, ghost start: seq<bv8>, ghost done: seq<Range>) returns (n: nat)
      requires LoggedIf(logAll, start, table[..], done)
      requires AllFit(Piece(d.addr, if d.write then Min(d.len, left) else 0))
      modifies table
      ensures n == if d.write then Min(d.len, left) else 0
      ensures LoggedIf(logAll, start, table[..], done + Piece(d.addr, n))
    {
      if !d.write {
        assert done + Piece(d.addr, 0) == done;
        return 0;
      }
      n := Min(d.len, left);
      if n == 0 {
        assert done + Piece(d.addr, 0) == done;
        return;
      }
      assert Fits(Piece(d.addr, n)[0]);
      ghost var before := table[..];
      LogWrite(d.addr, n);
      if logAll { LoggedMore(start, before, table[..], done, Range(d.addr, n)); }
    }

    lemma PieceFits(desc: seq<Desc>, i: nat, left: nat, seen: nat, done: seq<Range>, all: seq<Range>)
      requires i < |desc| && seen < |desc| && AllFit(all) && Remaining(desc, i, left, seen, done, all)
      ensures AllFit(Piece(desc[i].addr, if desc[i].write then Min(desc[i].len, left) else 0))
    {
      var rest := FillRanges(desc, i, left, seen);
      var n := if desc[i].write then Min(desc[i].len, left) else 0;
      assert Piece(desc[i].addr, n) <= rest;
      if n > 0 {
        assert all[|done|] == rest[0] == Piece(desc[i].addr, n)[0];
      }
    }

    /** `vu_log_queue_fill` over the table it walks. */
    method LogQueueFill(desc: seq<Desc>, head: nat, len: nat)
      requires head < |desc| && AllFit(FillRanges(desc, head, len, 0))
      modifies table
      ensures LoggedIf(logAll, old(table[..]), table[..], FillRanges(desc, head, len, 0))
    {
      ghost var start, all := table[..], FillRanges(desc, head, len, 0);
      ghost var done: seq<Range> := [];
      var i: nat := head;
      var left: nat := len;
      var seen: nat := 0;
      while true
        invariant i < |desc| && seen <= |desc| && AllFit(all) && Remaining(desc, i, left, seen, done, all)
        invariant LoggedIf(logAll, start, table[..], done)
        decreases |desc| - seen
      {
        if seen == |desc| {
          assert done == all;
          return;
        }
        var stop;
        stop, i, left, done := LogNext(desc, i, left, seen, start, done, all);
        if stop {
          return;
        }
        seen := seen + 1;
      }
    }

    /** One turn of its loop, and where the walk goes on. */
    method LogNext(desc: seq<Desc>, i: nat, left: nat, ghost seen: nat, ghost start: seq<bv8>, ghost done: seq<Range>,
                   ghost all: seq<Range>) returns (stop: bool, next: nat, rest: nat, ghost more: seq<Range>)
      requires i < |desc| && seen < |desc| && AllFit(all) && Remaining(desc, i, left, seen, done, all)
      requires LoggedIf(logAll, start, table[..], done)
      modifies table
      ensures LoggedIf(logAll, start, table[..], more)
      ensures if stop then more == all else next < |desc| && Remaining(desc, next, rest, seen + 1, more, all)
    {
      var d := desc[i];
      PieceFits(desc, i, left, seen, done, all);
      var n := LogBuffer(d, left, start, done);
      more := done + Piece(d.addr, n);
      NextRemaining(desc, i, left, seen, done, all, n, more);
      next, rest := d.next, left - n;
      stop := rest == 0 || !d.more || next >= |desc|;
    }
  }

  /** `done` and what the walk from `i` still logs make up `all`. */
  ghost predicate Remaining(desc: seq<Desc>, i: nat, left: nat, seen: nat, done: seq<Range>, all: seq<Range>)
    requires i < |desc|
  {
    done + FillRanges(desc, i, left, seen) == all
  }

  lemma NextRemaining(desc: seq<Desc>, i: nat, left: nat, seen: nat, done: seq<Range>, all: seq<Range>, n: nat, more: seq<Range>)
    requires i < |desc| && seen < |desc| && n == (if desc[i].write then Min(desc[i].len, left) else 0)
    requires Remaining(desc, i, left, seen, done, all) && more == done + Piece(desc[i].addr, n)
    ensures var d := desc[i];
            if left - n == 0 || !d.more || d.next >= |desc| then more == all
            else Remaining(desc, d.next, left - n, seen + 1, more, all)
  {
    var d := desc[i];
    if !(left - n == 0 || !d.more || d.next >= |desc|) {
      var piece, rest := Piece(d.addr, n), FillRanges(desc, d.next, left - n, seen + 1);
      assert FillRanges(desc, i, left, seen) == piece + rest;
      assert done + (piece + rest) == more + rest;
    }
  }

  /** No range ends past 2^64. */
  ghost predicate AllBelow(rs: seq<Range>) {
    forall k :: 0 <= k < |rs| ==> rs[k].addr < WRAP64 && rs[k].addr + rs[k].len < WRAP64
  }

  lemma AllMarks(rs: seq<Range>, p: nat)
    requires AllBelow(rs)
    ensures MarksAny(rs, p) <==> MeetsAny(rs, p)
  {
    forall k | 0 <= k < |rs|
      ensures Marks(rs[k], p) <==> Meets(rs[k], p)
    {
      if rs[k].len > 0 { MarksIff(rs[k]); }
    }
  }

  /** One `vu_queue_fill` on an accepted chain: with logging on, the dirty pages
      afterwards are those dirty before, those marked for the first `len` bytes of
      the chain's writable buffers, and those marked for the used-ring entry. They
      are the pages of those bytes when no range ends past 2^64. */
  method FillLogged(log: VuLog, desc: seq<Desc>, ghost path: seq<nat>, head: nat, len: nat, usedRingAddr: nat, slot: nat)
    requires head < |desc| && Linked(desc, path) && path[0] == head
    requires log.AllFit(FirstBytes(Buffers(desc, path, true), len))
    requires log.Fits(Range(usedRingAddr + 4 + 8 * slot, 8))
    modifies log.table
    ensures !log.logAll ==> log.table[..] == old(log.table[..])
    ensures log.logAll ==> forall p: nat ::
              Dirty(log.table[..], p) <==>
                || Dirty(old(log.table[..]), p)
                || MarksAny(FirstBytes(Buffers(desc, path, true), len), p)
                || Marks(Range(usedRingAddr + 4 + 8 * slot, 8), p)
    ensures log.logAll && AllBelow(FirstBytes(Buffers(desc, path, true), len)) ==> forall p: nat ::
              (MarksAny(FirstBytes(Buffers(desc, path, true), len), p) <==> MeetsAny(FirstBytes(Buffers(desc, path, true), len), p))
  {
    ghost var first := FirstBytes(Buffers(desc, path, true), len);
    LinkedBounded(desc, path);
    FillRangesExact(desc, path, len, 0);
    log.LogQueueFill(desc, head, len);
    log.LogWrite(usedRingAddr + 4 + 8 * slot, 8);
    if AllBelow(first) {
      forall p: nat
        ensures MarksAny(first, p) <==> MeetsAny(first, p)
      {
        AllMarks(first, p);
      }
    }
  }
}
