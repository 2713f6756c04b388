/** The scatter-gather cursor of the daemon: a queue of memory slices that reads,
    writes and splits like one flat byte string. */
module SgCursor {
  import opened Common

  const USIZE: nat := 0x1_0000_0000_0000_0000

  /** A `VolatileSlice`: `len` bytes of memory from `start`. */
  datatype Slice = Slice(start: nat, len: nat)

  function SliceAddrs(s: Slice): (a: seq<nat>)
    ensures |a| == s.len
  {
    seq(s.len, k => s.start + k)
  }

  /** The byte addresses of a queue of slices, in order. */
  function Addrs(bs: seq<Slice>): seq<nat>
    decreases |bs|
  {
    if bs == [] then [] else SliceAddrs(bs[0]) + Addrs(bs[1..])
  }

  /** `available_bytes`. */
  function Available(bs: seq<Slice>): (n: nat)
    ensures n == |Addrs(bs)|
    decreases |bs|
  {
    if bs == [] then 0 else bs[0].len + Available(bs[1..])
  }

  ghost predicate InMemory(bs: seq<Slice>, size: nat) {
    forall i :: 0 <= i < |bs| ==> bs[i].start + bs[i].len <= size
  }

  /** The flat string the slices stand for. */
  ghost function Flat(mem: seq<byte>, bs: seq<Slice>): (s: seq<byte>)
    requires InMemory(bs, |mem|)
    ensures |s| == |Addrs(bs)|
    decreases |bs|
  {
    if bs == [] then [] else mem[bs[0].start..bs[0].start + bs[0].len] + Flat(mem, bs[1..])
  }

  lemma {:induction false} AddrsAppend(a: seq<Slice>, b: seq<Slice>)
    ensures Addrs(a + b) == Addrs(a) + Addrs(b)
    decreases |a|
  {
    if a == [] {
      assert a + b == b;
    } else {
      assert (a + b)[1..] == a[1..] + b;
      AddrsAppend(a[1..], b);
    }
  }

  /** Only the addresses matter: each flat byte is the memory byte at its
      address. */
  lemma {:induction false} FlatAt(mem: seq<byte>, bs: seq<Slice>, i: nat)
    requires InMemory(bs, |mem|) && i < |Addrs(bs)|
    ensures Addrs(bs)[i] < |mem| && Flat(mem, bs)[i] == mem[Addrs(bs)[i]]
    decreases |bs|
  {
    if i >= bs[0].len {
      FlatAt(mem, bs[1..], i - bs[0].len);
    }
  }

  /** Two slicings of the same memory stand for the same string. */
  lemma SameAddrsSameFlat(mem: seq<byte>, a: seq<Slice>, b: seq<Slice>)
    requires InMemory(a, |mem|) && InMemory(b, |mem|) && Addrs(a) == Addrs(b)
    ensures Flat(mem, a) == Flat(mem, b)
  {
    forall i | 0 <= i < |Addrs(a)|
      ensures Flat(mem, a)[i] == Flat(mem, b)[i]
    {
      FlatAt(mem, a, i);
      FlatAt(mem, b, i);
    }
  }

  /** `vs.offset(n)`. */
  function OffsetBy(s: Slice, n: nat): Slice
    requires n <= s.len
  {
    Slice(s.start + n, s.len - n)
  }

  lemma OffsetAddrs(s: Slice, n: nat)
    requires n <= s.len
    ensures SliceAddrs(s) == SliceAddrs(Slice(s.start, n)) + SliceAddrs(OffsetBy(s, n))
  {
  }

  /** The slices once `n` bytes are consumed from the front. */
  function Dropped(bs: seq<Slice>, n: nat): seq<Slice>
    decreases |bs|
  {
    if bs == [] then []
    else if n < bs[0].len then [OffsetBy(bs[0], n)] + bs[1..]
    else Dropped(bs[1..], n - bs[0].len)
  }

  lemma {:induction false} DroppedAddrs(bs: seq<Slice>, n: nat, size: nat)
    requires n <= Available(bs) && InMemory(bs, size)
    ensures Addrs(Dropped(bs, n)) == Addrs(bs)[n..] && InMemory(Dropped(bs, n), size)
    decreases |bs|
  {
    if bs == [] {
    } else if n < bs[0].len {
      OffsetAddrs(bs[0], n);
      assert ([OffsetBy(bs[0], n)] + bs[1..])[1..] == bs[1..];
    } else {
      DroppedAddrs(bs[1..], n - bs[0].len, size);
    }
  }

  /** The slices handed to the callback: the shortest prefix reaching `count`
      bytes, or all of them. */
  function Prefix(bs: seq<Slice>, count: nat): seq<Slice>
    decreases |bs|
  {
    if bs == [] || count == 0 then []
    else [bs[0]] + Prefix(bs[1..], if count < bs[0].len then 0 else count - bs[0].len)
  }

  lemma {:induction false} PrefixCovers(bs: seq<Slice>, count: nat)
    ensures Prefix(bs, count) <= bs
    ensures Available(Prefix(bs, count)) >= count || Prefix(bs, count) == bs
    ensures Addrs(Prefix(bs, count)) <= Addrs(bs)
    decreases |bs|
  {
    if bs != [] && count > 0 {
      var n := if count < bs[0].len then 0 else count - bs[0].len;
      PrefixCovers(bs[1..], n);
      assert Prefix(bs, count)[1..] == Prefix(bs[1..], n);
      assert bs == [bs[0]] + bs[1..];
    }
  }

  // ----- how much the callback is handed -----

  /** No shorter prefix reaches `count`. */
  lemma {:induction false} PrefixShortest(bs: seq<Slice>, count: nat, k: nat)
    requires k < |Prefix(bs, count)|
    ensures k < |bs| && Available(bs[..k]) < count
    decreases |bs|
  {
    if k == 0 {
      assert bs[..0] == [];
    } else {
      var n := if count < bs[0].len then 0 else count - bs[0].len;
      assert Prefix(bs, count)[1..] == Prefix(bs[1..], n);
      PrefixShortest(bs[1..], n, k - 1);
      assert bs[..k][1..] == bs[1..][..k - 1] && bs[..k][0] == bs[0];
    }
  }

  /** `p` is the shortest prefix reaching `count` bytes, or all of `bs`. */
  ghost predicate Shortest(bs: seq<Slice>, count: nat, p: seq<Slice>) {
    && p <= bs
    && (Available(p) >= count || p == bs)
    && forall k :: 0 <= k < |p| ==> Available(bs[..k]) < count
  }

  lemma PrefixIsShortest(bs: seq<Slice>, count: nat)
    ensures Shortest(bs, count, Prefix(bs, count))
  {
    PrefixCovers(bs, count);
    forall k | 0 <= k < |Prefix(bs, count)|
      ensures Available(bs[..k]) < count
    {
      PrefixShortest(bs, count, k);
    }
  }

  /** Some whole number of slices makes up exactly `count` bytes. */
  ghost predicate EndsAt(bs: seq<Slice>, count: nat) {
    exists k :: 0 <= k <= |bs| && Available(bs[..k]) == count
  }

  /** The callback is handed at most `count` bytes, as `consume` promises,
      exactly when there are no more than that or a slice ends there. */
  lemma HandedAtMostIff(bs: seq<Slice>, count: nat)
    ensures Available(Prefix(bs, count)) <= count <==> Available(bs) <= count || EndsAt(bs, count)
  {
    var p := Prefix(bs, count);
    PrefixCovers(bs, count);
    assert p == bs[..|p|] && bs[..|bs|] == bs;
    if Available(p) <= count && p != bs {
      assert Available(bs[..|p|]) == count;
    }
    if Available(bs) <= count {
      AvailableGrows(bs, |p|, |bs|);
    }
    if k :| 0 <= k <= |bs| && Available(bs[..k]) == count {
      if |p| <= k {
        AvailableGrows(bs, |p|, k);
      } else {
        PrefixShortest(bs, count, k);
      }
    }
  }

  lemma AvailableGrows(bs: seq<Slice>, j: nat, k: nat)
    requires j <= k <= |bs|
    ensures Available(bs[..j]) <= Available(bs[..k])
  {
    assert bs[..k] == bs[..j] + bs[j..k];
    AddrsAppend(bs[..j], bs[j..k]);
  }

  /** One slice of eight bytes is handed on whole when one byte is asked for. */
  lemma HandedMore()
    ensures Prefix([Slice(0, 8)], 1) == [Slice(0, 8)] && Available(Prefix([Slice(0, 8)], 1)) == 8 > 1
  {
    var bs := [Slice(0, 8)];
    assert bs[1..] == [];
    assert Prefix(bs, 1) == [bs[0]] + Prefix(bs[1..], 0) == bs;
  }

  // ----- the cursor -----

  class Cursor {
    var buffers: seq<Slice>
    var bytesConsumed: nat

    /** Creation checks that the lengths do not overflow; consuming keeps the
        sum. */
    ghost predicate Valid(size: nat)
      reads this
    {
      InMemory(buffers, size) && bytesConsumed + Available(buffers) < USIZE
    }

    constructor (buffers: seq<Slice>)
      ensures this.buffers == buffers && bytesConsumed == 0
    {
      this.buffers := buffers;
      this.bytesConsumed := 0;
    }

    /** The first loop of `consume`. */
    method Select(count: nat) returns (bufs: seq<Slice>)
      ensures bufs == Prefix(buffers, count) && Shortest(buffers, count, bufs)
    {
      var buflen := 0;
      bufs := [];
      var i := 0;
      while i < |buffers| && buflen < count
        invariant 0 <= i <= |buffers| && buflen <= count
        invariant bufs + Prefix(buffers[i..], count - buflen) == Prefix(buffers, count)
        decreases |buffers| - i
      {
        assert buffers[i..][0] == buffers[i] && buffers[i..][1..] == buffers[i + 1..];
        bufs := bufs + [buffers[i]];
        var rem := count - buflen;
        if rem < buffers[i].len {
          buflen := buflen + rem;
        } else {
          buflen := buflen + buffers[i].len;
        }
        i := i + 1;
      }
      assert bufs == Prefix(buffers, count);
      PrefixIsShortest(buffers, count);
    }

    /** The second half of `consume`, after the callback reported `n` bytes. The
        overflow error never happens. */
    method Advance(n: nat, ghost size: nat) returns (ok: bool)
      requires Valid(size) && n <= Available(buffers)
      modifies this
      ensures ok && Valid(size) && Addrs(buffers) == old(Addrs(buffers))[n..]
      ensures bytesConsumed == old(bytesConsumed) + n
      ensures bytesConsumed + Available(buffers) == old(bytesConsumed + Available(buffers))
    {
      var total := bytesConsumed + n;
      if total >= USIZE {
        return false;
      }
      ghost var target := Dropped(buffers, n);
      DroppedAddrs(buffers, n, size);
      var rem: nat := n;
      while buffers != []
        invariant Dropped(buffers, rem) == target && bytesConsumed == old(bytesConsumed)
        decreases |buffers|
      {
        var vs := buffers[0];
        buffers := buffers[1..];
        if rem < vs.len {
          buffers := [OffsetBy(vs, rem)] + buffers;
          assert buffers == target;
          break;
        }
        rem := rem - vs.len;
      }
      assert buffers == target;
      bytesConsumed := total;
      return true;
    }

    /** `Reader::read` into a buffer of `count` bytes. */
    method Read(mem: array<byte>, count: nat) returns (data: seq<byte>)
      requires Valid(mem.Length)
      modifies this
      ensures Valid(mem.Length)
      ensures |data| == Min(count, old(Available(buffers))) && bytesConsumed == old(bytesConsumed) + |data|
      ensures Addrs(buffers) == old(Addrs(buffers))[|data|..]
      ensures data == old(Flat(mem[..], buffers))[..|data|]
      ensures Progress(data, Flat(mem[..], buffers), [])
           == After(Progress([], old(Flat(mem[..], buffers)), []), ReadOp(count))
      ensures bytesConsumed + Available(buffers) == old(bytesConsumed + Available(buffers))
    {
      ghost var before := buffers;
      var bufs := Select(count);
      if bufs == [] {
        data := [];
        ReadFacts(mem[..], before, buffers, data, count);
        return;
      }
      PrefixFlat(mem[..], before, count);
      data := CopyOut(mem, bufs, count);
      var ok := Advance(|data|, mem.Length);
      ReadFacts(mem[..], before, buffers, data, count);
    }

    /** `Writer::write`; `marks` are the parts marked in the slices' dirty bitmap. */
    method Write(mem: array<byte>, data: seq<byte>) returns (n: nat, marks: seq<Slice>)
      requires Valid(mem.Length)
      modifies this, mem
      ensures Valid(mem.Length)
      ensures n == Min(|data|, old(Available(buffers)))
      ensures Reaches(old(Addrs(buffers))[..n], mem.Length)
      ensures mem[..] == Stored(old(mem[..]), old(Addrs(buffers))[..n], data[..n])
      ensures Addrs(marks) == old(Addrs(buffers))[..n]
      ensures Addrs(buffers) == old(Addrs(buffers))[n..]
      ensures bytesConsumed + Available(buffers) == old(bytesConsumed + Available(buffers))
    {
      AddrsReach(buffers, mem.Length);
      var bufs := Select(|data|);
      if bufs == [] {
        return 0, [];
      }
      ghost var before := buffers;
      PrefixFlat(mem[..], before, |data|);
      PrefixCovers(before, |data|);
      n, marks := CopyIn(mem, bufs, data);
      assert Addrs(bufs)[..n] == Addrs(before)[..n];
      var ok := Advance(n, mem.Length);
    }

    /** `split_at`: the rest from `offset` on becomes a cursor of its own; out
        of range, nothing changes. */
    method SplitAt(offset: nat, ghost size: nat) returns (other: Option<seq<Slice>>)
      requires Valid(size)
      modifies this`buffers
      ensures Valid(size)
      ensures other == None <==> offset > old(Available(buffers))
      ensures other == None ==> buffers == old(buffers)
      ensures other.Some? ==>
                && InMemory(other.value, size)
                && Addrs(buffers) == old(Addrs(buffers))[..offset] && Addrs(other.value) == old(Addrs(buffers))[offset..]
                && Progress([], Addrs(buffers), [Addrs(other.value)])
                   == After(Progress([], old(Addrs(buffers)), []), SplitOp(offset))
    {
      ghost var all := buffers;
      var at, rem := SplitPoint(offset);
      SplitParts(all, at, rem, offset, size);
      if at < |buffers| {
        var rest := buffers[at..];
        buffers := buffers[..at];
        if rem > 0 {
          var front := rest[0];
          buffers := buffers + [Slice(front.start, rem)];
          rest := [OffsetBy(front, rem)] + rest[1..];
        }
        assert buffers == Before(all, at, rem) && rest == From(all, at, rem);
        return Some(rest);
      }
      assert Before(all, at, rem) == all && From(all, at, rem) == [];
      if rem == 0 {
        return Some([]);
      }
      return None;
    }

    /** Its search for the slice that holds the offset. */
    method SplitPoint(offset: nat) returns (at: nat, rem: nat)
      ensures at <= |buffers| && (at < |buffers| ==> rem < buffers[at].len)
      ensures rem + |Addrs(buffers[..at])| == offset
    {
      at, rem := 0, offset;
      while at < |buffers| && rem >= buffers[at].len
        invariant at <= |buffers| && rem + |Addrs(buffers[..at])| == offset
      {
        PrefixStep(buffers, at);
        rem := rem - buffers[at].len;
        at := at + 1;
      }
    }
  }

  /** The slices before a split point inside slice `at`. */
  function Before(bs: seq<Slice>, at: nat, rem: nat): seq<Slice>
    requires at <= |bs|
  {
    if at < |bs| && rem > 0 then bs[..at] + [Slice(bs[at].start, rem)] else bs[..at]
  }

  /** The slices from it on. */
  function From(bs: seq<Slice>, at: nat, rem: nat): seq<Slice>
    requires at <= |bs| && (at < |bs| ==> rem <= bs[at].len)
  {
    if at < |bs| && rem > 0 then [OffsetBy(bs[at], rem)] + bs[at..][1..] else bs[at..]
  }

  /** They divide the addresses at the offset. */
  lemma SplitParts(bs: seq<Slice>, at: nat, rem: nat, offset: nat, size: nat)
    requires at <= |bs| && (at < |bs| ==> rem < bs[at].len) && rem + |Addrs(bs[..at])| == offset && InMemory(bs, size)
    ensures at < |bs| || rem == 0 ==>
              && offset <= |Addrs(bs)|
              && InMemory(Before(bs, at, rem), size) && InMemory(From(bs, at, rem), size)
              && Addrs(Before(bs, at, rem)) == Addrs(bs)[..offset]
              && Addrs(From(bs, at, rem)) == Addrs(bs)[offset..]
    ensures at == |bs| ==> offset == |Addrs(bs)| + rem
  {
    SplitFacts(bs, at);
    if at < |bs| && rem > 0 {
      FrontSplit(bs, at, rem);
    } else if at == |bs| {
      assert bs[..at] == bs && bs[at..] == [];
    }
  }

  lemma PrefixStep(bs: seq<Slice>, i: nat)
    requires i < |bs|
    ensures |Addrs(bs[..i + 1])| == |Addrs(bs[..i])| + bs[i].len
  {
    assert bs[..i + 1] == bs[..i] + [bs[i]];
    AddrsAppend(bs[..i], [bs[i]]);
    assert Addrs([bs[i]]) == SliceAddrs(bs[i]) + Addrs([]);
  }

  lemma SplitFacts(bs: seq<Slice>, i: nat)
    requires i <= |bs|
    ensures Addrs(bs) == Addrs(bs[..i]) + Addrs(bs[i..])
  {
    assert bs == bs[..i] + bs[i..];
    AddrsAppend(bs[..i], bs[i..]);
  }

  lemma FrontSplit(bs: seq<Slice>, at: nat, rem: nat)
    requires at < |bs| && rem <= bs[at].len
    ensures var n := |Addrs(bs[..at])| + rem;
            && n <= |Addrs(bs)|
            && Addrs(bs[..at] + [Slice(bs[at].start, rem)]) == Addrs(bs)[..n]
            && Addrs([OffsetBy(bs[at], rem)] + bs[at..][1..]) == Addrs(bs)[n..]
  {
    var front, rest := bs[at], bs[at..][1..];
    SplitFacts(bs, at);
    OffsetAddrs(front, rem);
    AddrsAppend(bs[..at], [Slice(front.start, rem)]);
    assert Addrs([Slice(front.start, rem)]) == SliceAddrs(Slice(front.start, rem)) + Addrs([]);
    assert ([OffsetBy(front, rem)] + rest)[1..] == rest;
    assert Addrs(bs[at..]) == SliceAddrs(front) + Addrs(rest);
  }

  // ----- copying out -----

  method CopyOut(mem: array<byte>, bufs: seq<Slice>, count: nat) returns (data: seq<byte>)
    requires InMemory(bufs, mem.Length)
    ensures data == Flat(mem[..], bufs)[..Min(count, |Addrs(bufs)|)]
  {
    data := [];
    ghost var m := mem[..];
    for i := 0 to |bufs|
      invariant Copied(m, bufs, i, count, data)
    {
      var start, n := bufs[i].start, Min(count - |data|, bufs[i].len);
      var piece := mem[start..start + n];
      assert piece == m[start..start + n];
      CopyStep(m, bufs, i, count, data, piece);
      data := data + piece;
    }
    assert bufs[..|bufs|] == bufs;
  }

  /** The first `i` slices are copied. */
  ghost predicate Copied(mem: seq<byte>, bs: seq<Slice>, i: int, count: nat, data: seq<byte>) {
    && 0 <= i <= |bs| && InMemory(bs[..i], |mem|)
    && data == Flat(mem, bs[..i])[..Min(count, |Addrs(bs[..i])|)]
  }

  lemma CopyStep(mem: seq<byte>, bs: seq<Slice>, i: nat, count: nat, data: seq<byte>, piece: seq<byte>)
    requires InMemory(bs, |mem|) && i < |bs| && Copied(mem, bs, i, count, data)
    requires piece == mem[bs[i].start..bs[i].start + Min(count - |data|, bs[i].len)]
    ensures Copied(mem, bs, i + 1, count, data + piece)
  {
    var a, b, whole := bs[..i], bs[..i + 1], mem[bs[i].start..bs[i].start + bs[i].len];
    assert Flat(mem, b) == Flat(mem, a) + whole by {
      assert b == a + [bs[i]];
      FlatAppend(mem, a, bs[i]);
    }
    TakeStep(Flat(mem, a), whole, count);
    assert piece == whole[..|piece|];
  }

  /** One copy extends the copied prefix of the flat string. */
  lemma TakeStep<T>(flat: seq<T>, piece: seq<T>, count: nat)
    ensures var n := Min(count, |flat|);
            var k := Min(count - n, |piece|);
            (flat + piece)[..Min(count, |flat + piece|)] == flat[..n] + piece[..k]
  {
  }

  lemma {:induction false} FlatAppend(mem: seq<byte>, a: seq<Slice>, s: Slice)
    requires InMemory(a, |mem|) && s.start + s.len <= |mem|
    ensures Flat(mem, a + [s]) == Flat(mem, a) + mem[s.start..s.start + s.len]
    decreases |a|
  {
    if a == [] {
      assert a + [s] == [s] && [s][1..] == [];
    } else {
      assert (a + [s])[1..] == a[1..] + [s];
      FlatAppend(mem, a[1..], s);
    }
  }

  /** The selected prefix holds as many of the wanted bytes as there are. */
  lemma PrefixFlat(mem: seq<byte>, bs: seq<Slice>, count: nat)
    requires InMemory(bs, |mem|)
    ensures var p := Prefix(bs, count);
            && InMemory(p, |mem|)
            && Min(count, |Addrs(p)|) == Min(count, |Addrs(bs)|)
            && Flat(mem, p) <= Flat(mem, bs)
  {
    PrefixCovers(bs, count);
    var p := Prefix(bs, count);
    forall i | 0 <= i < |Addrs(p)|
      ensures Flat(mem, p)[i] == Flat(mem, bs)[i]
    {
      FlatAt(mem, p, i);
      FlatAt(mem, bs, i);
      assert Addrs(p)[i] == Addrs(bs)[i];
    }
  }

  lemma TailFlat(mem: seq<byte>, before: seq<Slice>, after: seq<Slice>, n: nat)
    requires InMemory(before, |mem|) && InMemory(after, |mem|) && n <= |Addrs(before)|
    requires Addrs(after) == Addrs(before)[n..]
    ensures Flat(mem, after) == Flat(mem, before)[n..]
  {
    forall i | 0 <= i < |Addrs(after)|
      ensures Flat(mem, after)[i] == Flat(mem, before)[n + i]
    {
      FlatAt(mem, after, i);
      FlatAt(mem, before, n + i);
    }
  }

  lemma ReadFacts(mem: seq<byte>, before: seq<Slice>, after: seq<Slice>, data: seq<byte>, count: nat)
    requires InMemory(before, |mem|) && InMemory(after, |mem|)
    requires |data| == Min(count, |Addrs(before)|) && data <= Flat(mem, before)
    requires Addrs(after) == Addrs(before)[|data|..]
    ensures Progress(data, Flat(mem, after), []) == After(Progress([], Flat(mem, before), []), ReadOp(count))
  {
    TailFlat(mem, before, after, |data|);
    assert [] + data == data && Flat(mem, before)[..|data|] == data;
  }

  // ----- copying in -----

  ghost predicate Reaches(a: seq<nat>, size: nat) {
    forall i :: 0 <= i < |a| ==> a[i] < size
  }

  lemma {:induction false} AddrsReach(bs: seq<Slice>, size: nat)
    requires InMemory(bs, size)
    ensures Reaches(Addrs(bs), size)
    decreases |bs|
  {
    if bs != [] { AddrsReach(bs[1..], size); }
  }

  /** Byte stores in address order of the list. */
  function Stored(mem: seq<byte>, a: seq<nat>, data: seq<byte>): (r: seq<byte>)
    requires |a| == |data| && Reaches(a, |mem|)
    ensures |r| == |mem|
    decreases |a|
  {
    if a == [] then mem else Stored(mem[a[0] := data[0]], a[1..], data[1..])
  }

  lemma {:induction false} StoredAppend(mem: seq<byte>, a: seq<nat>, d: seq<byte>, b: seq<nat>, e: seq<byte>,
                                        ab: seq<nat>, de: seq<byte>)
    requires |a| == |d| && |b| == |e| && Reaches(a, |mem|) && Reaches(b, |mem|)
    requires ab == a + b && de == d + e
    ensures Reaches(ab, |mem|) && Stored(mem, ab, de) == Stored(Stored(mem, a, d), b, e)
    decreases |a|
  {
    if a == [] {
      assert ab == b && de == e;
    } else {
      assert ab[1..] == a[1..] + b && de[1..] == d[1..] + e;
      StoredAppend(mem[a[0] := d[0]], a[1..], d[1..], b, e, ab[1..], de[1..]);
    }
  }

  /** `copy_nonoverlapping` into one slice. */
  method CopySlice(mem: array<byte>, start: nat, data: seq<byte>)
    requires start + |data| <= mem.Length
    modifies mem
    ensures Reaches(SliceAddrs(Slice(start, |data|)), mem.Length)
    ensures mem[..] == Stored(old(mem[..]), SliceAddrs(Slice(start, |data|)), data)
  {
    ghost var a := SliceAddrs(Slice(start, |data|));
    ghost var all := Stored(mem[..], a, data);
    var i := 0;
    while i < |data|
      invariant 0 <= i <= |data|
      invariant Stored(mem[..], a[i..], data[i..]) == all
    {
      assert a[i..][0] == start + i && a[i..][1..] == a[i + 1..] && data[i..][1..] == data[i + 1..];
      mem[start + i] := data[i];
      i := i + 1;
    }
    assert a[i..] == [];
  }

  /** Each slice written is marked dirty over the bytes copied. */
  method CopyIn(mem: array<byte>, bufs: seq<Slice>, data: seq<byte>) returns (total: nat, marks: seq<Slice>)
    requires InMemory(bufs, mem.Length)
    modifies mem
    ensures total == Min(|data|, |Addrs(bufs)|) && Addrs(marks) == Addrs(bufs)[..total]
    ensures Reaches(Addrs(bufs)[..total], mem.Length)
    ensures mem[..] == Stored(old(mem[..]), Addrs(bufs)[..total], data[..total])
  {
    total, marks := 0, [];
    ghost var m := mem[..];
    for i := 0 to |bufs|
      invariant total <= |data| && Written(m, mem[..], bufs, i, data, total, marks)
    {
      var n := Min(|data| - total, bufs[i].len);
      var part := Slice(bufs[i].start, n);
      ghost var now := mem[..];
      CopySlice(mem, part.start, data[total..total + n]);
      WriteStep(m, now, mem[..], bufs, i, data, total, part, marks);
      total, marks := total + n, marks + [part];
    }
    assert bufs[..|bufs|] == bufs;
  }

  /** The first `i` slices are filled and marked. */
  ghost predicate Written(m: seq<byte>, now: seq<byte>, bs: seq<Slice>, i: int, data: seq<byte>, total: nat,
                          marks: seq<Slice>) {
    && 0 <= i <= |bs| && Reaches(Addrs(bs[..i]), |m|) && total == Min(|data|, |Addrs(bs[..i])|)
    && Addrs(marks) == Addrs(bs[..i])[..total] && now == Stored(m, Addrs(bs[..i])[..total], data[..total])
  }

  lemma WriteStep(m: seq<byte>, now: seq<byte>, next: seq<byte>, bs: seq<Slice>, i: nat, data: seq<byte>, total: nat,
                  part: Slice, marks: seq<Slice>)
    requires InMemory(bs, |m|) && |now| == |m| && i < |bs| && Written(m, now, bs, i, data, total, marks)
    requires part == Slice(bs[i].start, Min(|data| - total, bs[i].len))
    requires Reaches(SliceAddrs(part), |now|) && next == Stored(now, SliceAddrs(part), data[total..total + part.len])
    ensures Written(m, next, bs, i + 1, data, total + part.len, marks + [part])
  {
    var seen, at := Addrs(bs[..i]), SliceAddrs(bs[i]);
    NextAddrs(bs, bs[..i], bs[..i + 1], i);
    assert SliceAddrs(part) == at[..part.len];
    StoreStep(m, seen, at, data, total, part.len);
    MarkStep(marks, seen, at, data, total, part);
  }

  lemma NextAddrs(bs: seq<Slice>, a: seq<Slice>, b: seq<Slice>, i: nat)
    requires i < |bs| && a == bs[..i] && b == bs[..i + 1]
    ensures Addrs(b) == Addrs(a) + SliceAddrs(bs[i])
  {
    assert b == a + [bs[i]];
    AddrsAppend(a, [bs[i]]);
    assert Addrs([bs[i]]) == SliceAddrs(bs[i]) + Addrs([]);
  }

  lemma MarkStep(marks: seq<Slice>, seen: seq<nat>, at: seq<nat>, data: seq<byte>, n: nat, s: Slice)
    requires n == Min(|data|, |seen|) && s.len == Min(|data| - n, |at|)
    requires Addrs(marks) == seen[..n] && SliceAddrs(s) == at[..s.len]
    ensures Addrs(marks + [s]) == (seen + at)[..n + s.len]
  {
    AddrsAppend(marks, [s]);
    assert Addrs([s]) == SliceAddrs(s) + Addrs([]);
    TakeStep(seen, at, |data|);
  }

  /** The bytes copied so far and the next copy, taken together. */
  lemma StoreStep(mem: seq<byte>, seen: seq<nat>, at: seq<nat>, data: seq<byte>, n: nat, k: nat)
    requires Reaches(seen, |mem|) && Reaches(at, |mem|)
    requires n == Min(|data|, |seen|) && k == Min(|data| - n, |at|)
    ensures Reaches(seen + at, |mem|) && Min(|data|, |seen + at|) == n + k
    ensures Stored(mem, (seen + at)[..n + k], data[..n + k])
         == Stored(Stored(mem, seen[..n], data[..n]), at[..k], data[n..n + k])
  {
    TakeStep(seen, at, |data|);
    StoredAppend(mem, seen[..n], data[..n], at[..k], data[n..n + k], (seen + at)[..n + k], data[..n + k]);
  }

  // ----- reading back what was written -----

  ghost predicate Distinct(a: seq<nat>) {
    forall i, j :: 0 <= i < j < |a| ==> a[i] != a[j]
  }

  lemma {:induction false} StoredOutside(mem: seq<byte>, a: seq<nat>, data: seq<byte>, p: nat)
    requires |a| == |data| && Reaches(a, |mem|) && p < |mem| && p !in a
    ensures Stored(mem, a, data)[p] == mem[p]
    decreases |a|
  {
    if a != [] { StoredOutside(mem[a[0] := data[0]], a[1..], data[1..], p); }
  }

  lemma {:induction false} StoredAt(mem: seq<byte>, a: seq<nat>, data: seq<byte>, i: nat)
    requires |a| == |data| && Reaches(a, |mem|) && Distinct(a) && i < |a|
    ensures Stored(mem, a, data)[a[i]] == data[i]
    decreases |a|
  {
    if i == 0 {
      assert a[0] !in a[1..];
      StoredOutside(mem[a[0] := data[0]], a[1..], data[1..], a[0]);
    } else {
      StoredAt(mem[a[0] := data[0]], a[1..], data[1..], i - 1);
    }
  }

  lemma ReadBackAt(mem: seq<byte>, after: seq<byte>, a: seq<nat>, r: seq<Slice>, data: seq<byte>, i: nat)
    requires InMemory(r, |mem|) && Distinct(Addrs(r)) && i < |Addrs(r)|
    requires a <= Addrs(r) && |a| == |data| && Reaches(a, |mem|) && after == Stored(mem, a, data)
    ensures Flat(after, r)[i] == if i < |data| then data[i] else Flat(mem, r)[i]
  {
    var p := Addrs(r)[i];
    FlatAt(after, r, i);
    if i < |data| {
      assert Distinct(a) && a[i] == p;
      StoredAt(mem, a, data, i);
    } else {
      FlatAt(mem, r, i);
      assert p !in a by {
        forall j | 0 <= j < |a|
          ensures a[j] != p
        {
          assert a[j] == Addrs(r)[j];
        }
      }
      StoredOutside(mem, a, data, p);
    }
  }

  /** Bytes written through one slicing of memory with no address twice read back
      unchanged through any other slicing of it, and what was not written over
      keeps its value. */
  lemma WriteReadBack(mem: seq<byte>, w: seq<Slice>, r: seq<Slice>, data: seq<byte>, after: seq<byte>)
    requires InMemory(r, |mem|) && Addrs(w) == Addrs(r) && Distinct(Addrs(r))
    requires |data| <= |Addrs(w)| && Reaches(Addrs(w)[..|data|], |mem|)
    requires after == Stored(mem, Addrs(w)[..|data|], data)
    ensures Flat(after, r) == data + Flat(mem, r)[|data|..]
  {
    var a := Addrs(w)[..|data|];
    forall i | 0 <= i < |Addrs(r)|
      ensures Flat(after, r)[i] == (data + Flat(mem, r)[|data|..])[i]
    {
      ReadBackAt(mem, after, a, r, data, i);
    }
  }

  // ----- every sequence of reads and splits -----

  /** A reader's progress: the bytes it has delivered, the addresses it has
      left, and those of the parts split off, latest first. */
  datatype Progress<T> = Progress(delivered: seq<T>, left: seq<T>, aside: seq<seq<T>>)

  datatype Op = ReadOp(count: nat) | SplitOp(offset: nat) | ResumeOp

  function Concat<T>(parts: seq<seq<T>>): seq<T>
    decreases |parts|
  {
    if parts == [] then [] else parts[0] + Concat(parts[1..])
  }

  /** What `Read` and `SplitAt` do to the string, by their contracts. */
  function After<T>(p: Progress<T>, op: Op): Progress<T> {
    match op
    case ReadOp(count) =>
      var m := Min(count, |p.left|);
      p.(delivered := p.delivered + p.left[..m], left := p.left[m..])
    case SplitOp(offset) =>
      if offset > |p.left| then p
      else p.(left := p.left[..offset], aside := [p.left[offset..]] + p.aside)
    case ResumeOp =>
      if p.left != [] || p.aside == [] then p
      else p.(left := p.aside[0], aside := p.aside[1..])
  }

  function AfterAll<T>(p: Progress<T>, ops: seq<Op>): Progress<T>
    decreases |ops|
  {
    if ops == [] then p else AfterAll(After(p, ops[0]), ops[1..])
  }

  ghost function Whole<T>(p: Progress<T>): seq<T> {
    p.delivered + p.left + Concat(p.aside)
  }

  lemma StepKeepsWhole<T>(p: Progress<T>, op: Op)
    ensures Whole(After(p, op)) == Whole(p)
  {
    match op
    case ReadOp(count) => ReadKeeps(p.delivered, p.left, Concat(p.aside), Min(count, |p.left|));
    case SplitOp(offset) =>
      if offset <= |p.left| { SplitKeeps(p.delivered, p.left, p.aside, offset); }
    case ResumeOp => ResumeKeeps(p.delivered, p.aside);
  }

  lemma ReadKeeps<T>(a: seq<T>, left: seq<T>, c: seq<T>, m: nat)
    requires m <= |left|
    ensures a + left[..m] + left[m..] + c == a + left + c
  {
    assert left == left[..m] + left[m..];
  }

  lemma SplitKeeps<T>(a: seq<T>, left: seq<T>, aside: seq<seq<T>>, m: nat)
    requires m <= |left|
    ensures a + left[..m] + Concat([left[m..]] + aside) == a + left + Concat(aside)
  {
    assert ([left[m..]] + aside)[1..] == aside;
    assert Concat([left[m..]] + aside) == left[m..] + Concat(aside);
    ReadKeeps(a, left, Concat(aside), m);
    assert a + left[..m] + (left[m..] + Concat(aside)) == a + left[..m] + left[m..] + Concat(aside);
  }

  lemma ResumeKeeps<T>(a: seq<T>, aside: seq<seq<T>>)
    ensures aside != [] ==> a + aside[0] + Concat(aside[1..]) == a + [] + Concat(aside)
  {
  }

  /** Bytes delivered followed by bytes remaining are the original string, for
      every sequence of reads and splits. */
  lemma {:induction false} NothingLost<T>(p: Progress<T>, ops: seq<Op>)
    ensures Whole(AfterAll(p, ops)) == Whole(p)
    decreases |ops|
  {
    if ops != [] {
      StepKeepsWhole(p, ops[0]);
      NothingLost(After(p, ops[0]), ops[1..]);
    }
  }
}
