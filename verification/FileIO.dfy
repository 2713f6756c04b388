/** Writing and reading a file's bytes through its extents. */
module FileIO {
  import opened Common
  import opened Extents
  import Mem = SgCursor

  const BLOCK: nat := 4096
  const EINVAL: nat := 22

  /** A file's blocks have 32-bit numbers and its extents end at one. */
  const LIMIT: nat := U32 - 1

  /** Logical block `l` belongs to some extent. */
  ghost predicate Covered(es: seq<Extent>, l: nat) {
    exists i :: 0 <= i < |es| && Covers(es[i], l)
  }

  ghost function Which(es: seq<Extent>, l: nat): (i: nat)
    requires Covered(es, l)
    ensures i < |es| && Covers(es[i], l)
  {
    var i :| 0 <= i < |es| && Covers(es[i], l);
    i
  }

  ghost function Phys(es: seq<Extent>, l: nat): nat
    requires Covered(es, l)
  {
    var e := es[Which(es, l)];
    e.start + (l - e.block)
  }

  /** Where byte `f` of the file lies on the disk. */
  ghost function Pos(es: seq<Extent>, f: nat): nat
    requires Covered(es, f / BLOCK)
  {
    Phys(es, f / BLOCK) * BLOCK + f % BLOCK
  }

  ghost predicate CoversBytes(es: seq<Extent>, offset: nat, n: nat) {
    forall f: nat :: offset <= f < offset + n ==> Covered(es, f / BLOCK)
  }

  /** The disk addresses of `n` bytes of the file. */
  ghost function FileAddrs(es: seq<Extent>, offset: nat, n: nat): (a: seq<nat>)
    requires CoversBytes(es, offset, n)
    ensures |a| == n && forall i :: 0 <= i < n ==> a[i] == Pos(es, offset + i)
  {
    seq<nat>(n, i requires 0 <= i < n => Pos(es, offset + i))
  }

  /** Extents do not share disk blocks. */
  ghost predicate Disjoint(es: seq<Extent>, fs: seq<Extent>) {
    forall i, j :: 0 <= i < |es| && 0 <= j < |fs| ==>
      es[i].start + es[i].len <= fs[j].start || fs[j].start + fs[j].len <= es[i].start
  }

  ghost predicate OwnBlocks(es: seq<Extent>) {
    forall i, j :: 0 <= i < j < |es| ==>
      es[i].start + es[i].len <= es[j].start || es[j].start + es[j].len <= es[i].start
  }

  ghost predicate OnDisk(es: seq<Extent>, size: nat) {
    forall i :: 0 <= i < |es| ==> (es[i].start + es[i].len) * BLOCK <= size
  }

  // ----- addresses -----

  lemma PosBounds(es: seq<Extent>, f: nat, size: nat)
    requires Covered(es, f / BLOCK) && OnDisk(es, size)
    ensures Pos(es, f) < size
  {
  }

  lemma AddrsReach(es: seq<Extent>, offset: nat, n: nat, size: nat)
    requires CoversBytes(es, offset, n) && OnDisk(es, size)
    ensures Mem.Reaches(FileAddrs(es, offset, n), size)
  {
    forall i | 0 <= i < n
      ensures FileAddrs(es, offset, n)[i] < size
    {
      PosBounds(es, offset + i, size);
    }
  }

  /** Bytes of one block are consecutive on the disk. */
  lemma WithinBlock(es: seq<Extent>, offset: nat, n: nat)
    requires CoversBytes(es, offset, n) && offset % BLOCK + n <= BLOCK && n > 0
    ensures FileAddrs(es, offset, n) == Mem.SliceAddrs(Mem.Slice(Pos(es, offset), n))
  {
    var a := FileAddrs(es, offset, n);
    forall i | 0 <= i < n
      ensures a[i] == Pos(es, offset) + i
    {
      assert (offset + i) / BLOCK == offset / BLOCK;
    }
  }

  lemma BlockAddrs(es: seq<Extent>, offset: nat, n: nat, start: nat, size: nat)
    requires OnDisk(es, size) && CoversBytes(es, offset, n) && offset % BLOCK + n <= BLOCK && n > 0
    requires Covered(es, offset / BLOCK) && start == Pos(es, offset)
    ensures start + n <= size && FileAddrs(es, offset, n) == Mem.SliceAddrs(Mem.Slice(start, n))
    ensures Mem.Reaches(FileAddrs(es, offset, n), size)
  {
    WithinBlock(es, offset, n);
    AddrsReach(es, offset, n, size);
    assert FileAddrs(es, offset, n)[n - 1] < size;
  }

  lemma JoinAddrs(es: seq<Extent>, offset: nat, n: nat, k: nat)
    requires CoversBytes(es, offset, n + k)
    ensures CoversBytes(es, offset, n) && CoversBytes(es, offset + n, k)
    ensures FileAddrs(es, offset, n + k) == FileAddrs(es, offset, n) + FileAddrs(es, offset + n, k)
  {
  }

  /** Only one extent covers a block. */
  lemma PhysIs(es: seq<Extent>, l: nat, i: nat)
    requires Sorted(es, 0, LIMIT) && i < |es| && Covers(es[i], l)
    ensures Covered(es, l) && Phys(es, l) == es[i].start + (l - es[i].block)
  {
    var w := Which(es, l);
    assert w == i;
  }

  lemma PhysDistinct(es: seq<Extent>, k: nat, l: nat)
    requires Sorted(es, 0, LIMIT) && OwnBlocks(es) && Covered(es, k) && Covered(es, l) && k != l
    ensures Phys(es, k) != Phys(es, l)
  {
    var i, j := Which(es, k), Which(es, l);
    if i < j {
      assert es[i].start + es[i].len <= es[j].start || es[j].start + es[j].len <= es[i].start;
    } else if j < i {
      assert es[j].start + es[j].len <= es[i].start || es[i].start + es[i].len <= es[j].start;
    }
  }

  lemma PosDistinct(es: seq<Extent>, f: nat, h: nat)
    requires Sorted(es, 0, LIMIT) && OwnBlocks(es) && Covered(es, f / BLOCK) && Covered(es, h / BLOCK) && f != h
    ensures Pos(es, f) != Pos(es, h)
  {
    if f / BLOCK != h / BLOCK {
      PhysDistinct(es, f / BLOCK, h / BLOCK);
    }
  }

  ghost predicate Injective(es: seq<Extent>) {
    forall f: nat, h: nat :: Covered(es, f / BLOCK) && Covered(es, h / BLOCK) && f != h ==> Pos(es, f) != Pos(es, h)
  }

  lemma PosInjective(es: seq<Extent>)
    requires Sorted(es, 0, LIMIT) && OwnBlocks(es)
    ensures Injective(es)
  {
    forall f: nat, h: nat | Covered(es, f / BLOCK) && Covered(es, h / BLOCK) && f != h
      ensures Pos(es, f) != Pos(es, h)
    {
      PosDistinct(es, f, h);
    }
  }

  lemma AddrsApart(es: seq<Extent>, offset: nat, n: nat, a: seq<nat>, at: nat, m: nat, b: seq<nat>)
    requires Injective(es) && CoversBytes(es, offset, n) && CoversBytes(es, at, m)
    requires a == FileAddrs(es, offset, n) && b == FileAddrs(es, at, m) && (at + m <= offset || offset + n <= at)
    ensures forall i, j :: 0 <= i < |a| && 0 <= j < |b| ==> a[i] != b[j]
  {
    forall i, j | 0 <= i < |a| && 0 <= j < |b|
      ensures a[i] != b[j]
    {
      var f: nat, h: nat := offset + i, at + j;
      assert a[i] == Pos(es, f) && b[j] == Pos(es, h);
    }
  }

  /** No two bytes of a file share a place. */
  lemma AddrsDistinct(es: seq<Extent>, offset: nat, n: nat)
    requires Sorted(es, 0, LIMIT) && OwnBlocks(es) && CoversBytes(es, offset, n)
    ensures Mem.Distinct(FileAddrs(es, offset, n))
  {
    var a := FileAddrs(es, offset, n);
    forall i, j | 0 <= i < j < n
      ensures a[i] != a[j]
    {
      PosDistinct(es, offset + i, offset + j);
    }
  }

  // ----- contents -----

  /** `n` bytes of the file as the disk has them. */
  ghost function FileBytes(mem: seq<byte>, es: seq<Extent>, offset: nat, n: nat): (s: seq<byte>)
    requires CoversBytes(es, offset, n) && OnDisk(es, |mem|)
    ensures |s| == n
  {
    AddrsReach(es, offset, n, |mem|);
    seq(n, i requires 0 <= i < n => mem[FileAddrs(es, offset, n)[i]])
  }

  /** What is written reads back, by any extents with the same places. */
  lemma ReadBack(mem: seq<byte>, es: seq<Extent>, offset: nat, data: seq<byte>)
    requires Sorted(es, 0, LIMIT) && OwnBlocks(es) && OnDisk(es, |mem|) && CoversBytes(es, offset, |data|)
    ensures Mem.Reaches(FileAddrs(es, offset, |data|), |mem|)
    ensures FileBytes(Mem.Stored(mem, FileAddrs(es, offset, |data|), data), es, offset, |data|) == data
  {
    var a := FileAddrs(es, offset, |data|);
    AddrsReach(es, offset, |data|, |mem|);
    AddrsDistinct(es, offset, |data|);
    forall i | 0 <= i < |data|
      ensures Mem.Stored(mem, a, data)[a[i]] == data[i]
    {
      Mem.StoredAt(mem, a, data, i);
    }
  }

  lemma StoredElsewhere(mem: seq<byte>, a: seq<nat>, data: seq<byte>, es: seq<Extent>, at: nat, n: nat, b: seq<nat>)
    requires |a| == |data| && Mem.Reaches(a, |mem|) && OnDisk(es, |mem|) && CoversBytes(es, at, n)
    requires b == FileAddrs(es, at, n) && forall i, j :: 0 <= i < |a| && 0 <= j < |b| ==> a[i] != b[j]
    ensures FileBytes(Mem.Stored(mem, a, data), es, at, n) == FileBytes(mem, es, at, n)
  {
    AddrsReach(es, at, n, |mem|);
    forall i | 0 <= i < n
      ensures Mem.Stored(mem, a, data)[b[i]] == mem[b[i]]
    {
      Mem.StoredOutside(mem, a, data, b[i]);
    }
  }

  /** No byte of a file on other blocks changes. */
  lemma OthersUnchanged(mem: seq<byte>, es: seq<Extent>, offset: nat, data: seq<byte>,
                        fs: seq<Extent>, at: nat, n: nat)
    requires OnDisk(es, |mem|) && OnDisk(fs, |mem|) && Disjoint(es, fs)
    requires CoversBytes(es, offset, |data|) && CoversBytes(fs, at, n)
    ensures Mem.Reaches(FileAddrs(es, offset, |data|), |mem|)
    ensures FileBytes(Mem.Stored(mem, FileAddrs(es, offset, |data|), data), fs, at, n) == FileBytes(mem, fs, at, n)
  {
    var a, b := FileAddrs(es, offset, |data|), FileAddrs(fs, at, n);
    AddrsReach(es, offset, |data|, |mem|);
    forall i, j | 0 <= i < |a| && 0 <= j < |b|
      ensures a[i] != b[j]
    {
      PosApart(es, fs, offset + i, at + j);
    }
    StoredElsewhere(mem, a, data, fs, at, n, b);
  }

  lemma PosApart(es: seq<Extent>, fs: seq<Extent>, f: nat, h: nat)
    requires Disjoint(es, fs) && Covered(es, f / BLOCK) && Covered(fs, h / BLOCK)
    ensures Pos(es, f) != Pos(fs, h)
  {
    var i, j := Which(es, f / BLOCK), Which(fs, h / BLOCK);
    assert es[i].start + es[i].len <= fs[j].start || fs[j].start + fs[j].len <= es[i].start;
  }

  /** The first `done` bytes of `buf` are written. */
  ghost predicate Wrote(es: seq<Extent>, offset: nat, buf: seq<byte>, done: nat, was: seq<byte>, now: seq<byte>) {
    && done <= |buf| && CoversBytes(es, offset, done) && Mem.Reaches(FileAddrs(es, offset, done), |was|)
    && now == Mem.Stored(was, FileAddrs(es, offset, done), buf[..done])
  }

  lemma WroteMore(es: seq<Extent>, offset: nat, buf: seq<byte>, done: nat, n: nat, part: seq<byte>, at: nat,
                  was: seq<byte>, now: seq<byte>, next: seq<byte>)
    requires done + n <= |buf| && CoversBytes(es, offset, done + n) && |was| == |now|
    requires Wrote(es, offset, buf, done, was, now) && part == buf[done..done + n] && at == offset + done
    requires CoversBytes(es, at, n) && Mem.Reaches(FileAddrs(es, at, n), |now|)
    requires next == Mem.Stored(now, FileAddrs(es, at, n), part)
    ensures Wrote(es, offset, buf, done + n, was, next)
  {
    JoinAddrs(es, offset, done, n);
    NextStored(was, now, next, FileAddrs(es, offset, done), FileAddrs(es, at, n), FileAddrs(es, offset, done + n), buf, done, n);
  }

  /** Two writes in a row are one. */
  lemma NextStored(was: seq<byte>, now: seq<byte>, next: seq<byte>, a: seq<nat>, b: seq<nat>, c: seq<nat>, buf: seq<byte>,
                   done: nat, n: nat)
    requires done + n <= |buf| && |a| == done && |b| == n && c == a + b
    requires Mem.Reaches(a, |was|) && Mem.Reaches(b, |was|)
    requires now == Mem.Stored(was, a, buf[..done]) && next == Mem.Stored(now, b, buf[done..done + n])
    ensures Mem.Reaches(c, |was|) && next == Mem.Stored(was, c, buf[..done + n])
  {
    assert buf[..done + n] == buf[..done] + buf[done..done + n];
    Mem.StoredAppend(was, a, buf[..done], b, buf[done..done + n], c, buf[..done + n]);
  }

  /** `done` of `size` bytes are written when block `l` comes up. */
  ghost predicate BlocksDone(offset: nat, size: nat, first: nat, last: nat, l: nat, done: nat) {
    done <= size && offset + done == if l == first then offset else if l <= last then l * BLOCK else offset + size
  }

  lemma NextBlock(offset: nat, size: nat, first: nat, last: nat, l: nat, done: nat, n: int)
    requires size > 0 && first == offset / BLOCK < last == (offset + size - 1) / BLOCK && first <= l <= last
    requires BlocksDone(offset, size, first, last, l, done)
    requires n == if l == last then offset + size - l * BLOCK else BLOCK - (if l == first then offset % BLOCK else 0)
    ensures 0 < n && done + n <= size && (offset + done) % BLOCK + n <= BLOCK
    ensures BlocksDone(offset, size, first, last, l + 1, done + n) && (l == last ==> n == LastWrite(offset, size))
  {
    assert (offset + done) / BLOCK == l && (offset + done) % BLOCK == if l == first then offset % BLOCK else 0;
  }

  /** The part of a range that falls in its last block. */
  function LastWrite(offset: nat, n: nat): nat
    requires n > 0
  {
    var last := (offset + n - 1) / BLOCK;
    if offset / BLOCK == last then n else offset + n - last * BLOCK
  }

  /** It ends where the range ends and starts at a block boundary or where the range
      does. */
  lemma LastWriteIs(offset: nat, n: nat)
    requires n > 0
    ensures var k := LastWrite(offset, n);
            && 0 < k <= Min(n, BLOCK) && (offset + n - k) / BLOCK == (offset + n - 1) / BLOCK
            && (k < n ==> (offset + n - k) % BLOCK == 0)
  {
  }

  /** It is the whole range exactly when that is inside one block. */
  lemma LastWriteIff(offset: nat, n: nat)
    requires n > 0
    ensures LastWrite(offset, n) == n <==> offset / BLOCK == (offset + n - 1) / BLOCK
  {
  }

  /** A write of 200 bytes at 4000 returns 104. */
  lemma TwoBlockWrite()
    ensures LastWrite(4000, 200) == 104
  {
  }

  // ----- the two operations -----

  /** An inode with an extent tree, and the disk. */
  class OpenFile {
    const d: Blocks
    const node: Node
    const disk: array<byte>
    var size: nat

    constructor (d: Blocks, node: Node, disk: array<byte>, size: nat)
      ensures this.d == d && this.node == node && this.disk == disk && this.size == size
    {
      this.d, this.node, this.disk, this.size := d, node, disk, size;
    }

    ghost predicate Valid() {
      && Tree(d, node, 0, LIMIT)
      && OwnBlocks(Flat(d, node, 0, LIMIT)) && OnDisk(Flat(d, node, 0, LIMIT), disk.Length)
    }

    ghost function Es(): seq<Extent>
      requires Tree(d, node, 0, LIMIT)
    {
      Flat(d, node, 0, LIMIT)
    }

    /** The block lookup both operations use. */
    method Lookup(l: nat, ghost es: seq<Extent>) returns (p: nat, len: nat)
      requires Valid() && es == Es() && Covered(es, l)
      ensures p == Phys(es, l) && len == es[Which(es, l)].len
    {
      ghost var e := es[Which(es, l)];
      InsideBounds(d, node, 0, LIMIT, e);
      p, len := GetPblock(d, node, l, 0, LIMIT, e);
    }

    /** One `disk_write` inside a block. */
    method WriteBlock(offset: nat, data: seq<byte>, ghost n: nat, ghost es: seq<Extent>)
      requires Valid() && es == Es() && n == |data| > 0 && offset % BLOCK + n <= BLOCK && CoversBytes(es, offset, n)
      modifies disk
      ensures Mem.Reaches(FileAddrs(es, offset, n), disk.Length)
      ensures disk[..] == Mem.Stored(old(disk[..]), FileAddrs(es, offset, n), data)
    {
      assert Covered(es, offset / BLOCK);
      var p, len := Lookup(offset / BLOCK, es);
      var start := p * BLOCK + offset % BLOCK;
      BlockAddrs(es, offset, n, start, disk.Length);
      Mem.CopySlice(disk, start, data);
    }

    /** Writing a chunk extends what is written. */
    method WriteNext(offset: nat, buf: seq<byte>, done: nat, n: nat, ghost was: seq<byte>, ghost es: seq<Extent>)
      requires Valid() && es == Es() && CoversBytes(es, offset, |buf|) && |was| == disk.Length
      requires done + n <= |buf| && n > 0 && (offset + done) % BLOCK + n <= BLOCK
      requires Wrote(es, offset, buf, done, was, disk[..])
      modifies disk
      ensures Wrote(es, offset, buf, done + n, was, disk[..])
    {
      var part, at := buf[done..done + n], offset + done;
      ghost var now := disk[..];
      assert CoversBytes(es, at, n);
      WriteBlock(at, part, n, es);
      WroteMore(es, offset, buf, done, n, part, at, was, now, disk[..]);
    }

    /** `op_write` to an inode whose extents cover the range. The result is the
        length of the last block write. */
    method OpWrite(buf: seq<byte>, offset: nat) returns (ret: nat)
      requires Valid() && |buf| > 0 && CoversBytes(Es(), offset, |buf|)
      modifies disk, this`size
      ensures Mem.Reaches(FileAddrs(Es(), offset, |buf|), disk.Length)
      ensures disk[..] == Mem.Stored(old(disk[..]), FileAddrs(Es(), offset, |buf|), buf)
      ensures FileBytes(disk[..], Es(), offset, |buf|) == buf
      ensures size == offset + |buf|
      ensures (forall f: nat :: Within(f, old(size)) ==> Within(f, size)) <==> offset + |buf| >= old(size)
      ensures ret == LastWrite(offset, |buf|)
    {
      ghost var was := disk[..];
      var first, last := offset / BLOCK, (offset + |buf| - 1) / BLOCK;
      if first == last {
        WriteBlock(offset, buf, |buf|, Es());
        ret := |buf|;
      } else {
        ret := WriteBlocks(buf, offset, first, last);
      }
      WithinIff(size, offset + |buf|);
      size := offset + |buf|;
      FlatSorted(d, node, 0, LIMIT);
      ReadBack(was, Es(), offset, buf);
    }

    /** The loop over several blocks. */
    method WriteBlocks(buf: seq<byte>, offset: nat, first: nat, last: nat) returns (ret: nat)
      requires Valid() && |buf| > 0 && CoversBytes(Es(), offset, |buf|)
      requires first == offset / BLOCK && last == (offset + |buf| - 1) / BLOCK && first < last
      modifies disk
      ensures Mem.Reaches(FileAddrs(Es(), offset, |buf|), disk.Length)
      ensures disk[..] == Mem.Stored(old(disk[..]), FileAddrs(Es(), offset, |buf|), buf)
      ensures ret == LastWrite(offset, |buf|)
    {
      ghost var was := disk[..];
      var l, done: nat := first, 0;
      ret := 0;
      while l <= last
        invariant first <= l <= last + 1 && BlocksDone(offset, |buf|, first, last, l, done)
        invariant Wrote(Es(), offset, buf, done, was, disk[..])
        invariant l == last + 1 ==> ret == LastWrite(offset, |buf|)
      {
        var blockOff := if l == first then offset % BLOCK else 0;
        var n := if l == last then offset + |buf| - l * BLOCK else BLOCK - blockOff;
        NextBlock(offset, |buf|, first, last, l, done, n);
        WriteNext(offset, buf, done, n, was, Es());
        ret := n;
        done := done + n;
        l := l + 1;
      }
      assert buf[..done] == buf;
    }

    /** `truncate_size`. Past the end it returns a negative error as a size, which
        its caller does not recognise. */
    function Truncated(count: nat, offset: nat): (n: nat)
      reads this`size
      ensures offset < size ==> n <= count && offset + n <= size && (n == count || offset + n == size)
      ensures size == 0 ==> n == 0
      ensures 0 < size <= offset ==> n == 0x1_0000_0000_0000_0000 - EINVAL
    {
      if size == 0 then 0
      else if offset >= size then 0x1_0000_0000_0000_0000 - EINVAL
      else if offset + count >= size then size - offset else count
    }

    /** `first_read`: the range when it is inside one block, else up to the next
        block boundary. */
    method FirstRead(n: nat, offset: nat, ghost es: seq<Extent>, ghost m: seq<byte>) returns (data: seq<byte>)
      requires Valid() && es == Es() && m == disk[..] && n > 0 && CoversBytes(es, offset, n)
      ensures |data| == FirstPart(offset, n) && Fetched(m, FileAddrs(es, offset, n), data)
    {
      assert Covered(es, offset / BLOCK);
      var p, len := Lookup(offset / BLOCK, es);
      var start := p * BLOCK + offset % BLOCK;
      var got := n;
      if offset / BLOCK != (offset + (n - 1)) / BLOCK {
        got := if offset % BLOCK == 0 then 0 else BLOCK - offset % BLOCK;
      }
      BlockFetched(m, es, offset, n, got, start);
      data := disk[start..start + got];
      assert data == m[start..start + got];
    }

    /** One turn of the loop after it: the rest of the range, or as many blocks as
        the extent has. A read that leaves the disk fails an assertion. */
    method ReadTurn(left: nat, data: seq<byte>, l: nat, ghost a: seq<nat>, ghost first: nat, ghost stop: nat,
                    ghost es: seq<Extent>, ghost m: seq<byte>) returns (more: Option<seq<byte>>, next: nat)
      requires Valid() && es == Es() && m == disk[..] && Taking(a, es, first, stop)
      requires ReadTo(m, a, es, first, stop, data, l) && left == |a| - |data| > 0
      ensures more == None ==> ReadAt(m, a) == None
      ensures more.Some? ==> |data| < |more.value| && ReadTo(m, a, es, first, stop, more.value, next)
    {
      var p, len := Lookup(l, es);
      var bytes := if left <= len * BLOCK then left else len * BLOCK;
      var from := p * BLOCK;
      next := l + len;
      NextTurn(m, a, es, first, stop, data, l, next, len, from, bytes);
      if from + bytes > disk.Length {
        return None, next;
      }
      var part := disk[from..from + bytes];
      assert part == m[from..from + bytes];
      more := Some(data + part);
    }

    /** The loop: `n` bytes from the start of block `first` on. */
    method ReadOn(n: nat, first: nat, ghost a: seq<nat>, ghost stop: nat, ghost es: seq<Extent>, ghost m: seq<byte>)
      returns (r: Option<seq<byte>>)
      requires Valid() && es == Es() && m == disk[..] && Taking(a, es, first, stop) && n == |a|
      ensures r == ReadAt(m, a)
    {
      var data, l: nat := [], first;
      while |data| < n
        invariant ReadTo(m, a, es, first, stop, data, l)
        decreases n - |data|
      {
        var more;
        more, l := ReadTurn(n - |data|, data, l, a, first, stop, es, m);
        if more == None {
          return None;
        }
        data := more.value;
      }
      assert data == Bytes(m, a);
      return Some(data);
    }

    /** Both parts of a read. */
    method ReadRange(n: nat, offset: nat, ghost es: seq<Extent>, ghost m: seq<byte>) returns (r: Option<seq<byte>>)
      requires Valid() && es == Es() && m == disk[..] && n > 0 && CoversBytes(es, offset, n)
      ensures r == ReadAt(m, TakenAddrs(es, offset, n))
    {
      var head := FirstRead(n, offset, es, m);
      if |head| == n {
        OnePart(m, es, offset, n, head);
        return Some(head);
      }
      var tail := ReadRest(n, offset, |head|, es, m);
      BothParts(m, es, offset, n, head, RestTaken(es, offset, n));
      r := if tail == None then None else Some(head + tail.value);
    }

    /** What is left after the first part. */
    method ReadRest(n: nat, offset: nat, k: nat, ghost es: seq<Extent>, ghost m: seq<byte>) returns (r: Option<seq<byte>>)
      requires Valid() && es == Es() && m == disk[..] && n > 0 && CoversBytes(es, offset, n) && k == FirstPart(offset, n) < n
      ensures r == ReadAt(m, RestTaken(es, offset, n))
    {
      r := ReadOn(n - k, (offset + k) / BLOCK, RestTaken(es, offset, n), Stop(offset, n), es, m);
    }

    /** `op_read` from before the end of the file, or of an empty file, of a range
        the extents cover: what the disk has at the addresses the loop takes, and
        the file's bytes when every turn's blocks are consecutive on the disk. */
    method OpRead(count: nat, offset: nat) returns (r: Option<seq<byte>>)
      requires Valid() && count > 0 && (size > 0 ==> offset < size)
      requires size > 0 ==> CoversBytes(Es(), offset, Truncated(count, offset))
      ensures size == 0 ==> r == Some([])
      ensures size > 0 ==> r == ReadAt(disk[..], TakenAddrs(Es(), offset, Truncated(count, offset)))
      ensures size > 0 && Consecutive(Es(), offset, Truncated(count, offset)) ==>
                r == Some(FileBytes(disk[..], Es(), offset, Truncated(count, offset)))
    {
      var n := Truncated(count, offset);
      if n == 0 {
        return Some([]);
      }
      r := ReadRange(n, offset, Es(), disk[..]);
      if Consecutive(Es(), offset, n) {
        ConsecutiveReads(disk[..], Es(), offset, n);
      }
    }

    /** A write and a read of the same range: the bytes written come back, and a
        file on other blocks keeps its bytes. */
    method WriteThenRead(buf: seq<byte>, offset: nat, ghost fs: seq<Extent>, ghost h: nat, ghost n: nat)
      returns (r: Option<seq<byte>>)
      requires Valid() && |buf| > 0 && CoversBytes(Es(), offset, |buf|)
      requires OnDisk(fs, disk.Length) && Disjoint(Es(), fs) && CoversBytes(fs, h, n)
      modifies disk, this`size
      ensures Consecutive(Es(), offset, |buf|) ==> r == Some(buf)
      ensures FileBytes(disk[..], fs, h, n) == old(FileBytes(disk[..], fs, h, n))
    {
      OthersUnchanged(disk[..], Es(), offset, buf, fs, h, n);
      var ret := OpWrite(buf, offset);
      r := OpRead(|buf|, offset);
    }
  }

  /** A one-byte write at the start of a file of ten bytes leaves a file of one: a
      read of all ten returns that byte alone. */
  method ShrinkingWrite() returns (f: OpenFile, r: Option<seq<byte>>)
    ensures f.size == 1 && r == Some([7])
  {
    var es := [Extent(0, 1, 0)];
    var disk := new byte[BLOCK](_ => 0);
    f := new OpenFile(map[], Leaf(4, es), disk, 10);
    assert Covers(es[0], 0);
    assert CoversBytes(es, 0, 1);
    var ret := f.OpWrite([7], 0);
    r := f.OpRead(10, 0);
    OneByte(disk[..], es, [7]);
  }

  lemma OneByte(m: seq<byte>, es: seq<Extent>, data: seq<byte>)
    requires |data| == 1 && CoversBytes(es, 0, 1) && OnDisk(es, |m|) && FileBytes(m, es, 0, 1) == data
    ensures ReadAt(m, TakenAddrs(es, 0, 1)) == Some(data)
  {
    ConsecutiveReads(m, es, 0, 1);
  }

  /** A read at the end of a file of ten bytes: the negative error is a size of
      nearly 2^64, not less than 0. */
  lemma ReadPastEnd(f: OpenFile)
    requires f.size == 10
    ensures f.Truncated(1, 10) == 0xFFFF_FFFF_FFFF_FFEA
  {
  }

  // ----- what reading relies on -----

  /** How much `first_read` reads. */
  ghost function FirstPart(offset: nat, n: nat): (k: nat)
    requires n > 0
    ensures k <= n && offset % BLOCK + k <= BLOCK && (k < n ==> (offset + k) % BLOCK == 0 && k < BLOCK)
    ensures k == n <==> offset / BLOCK == (offset + (n - 1)) / BLOCK
  {
    if offset / BLOCK == (offset + (n - 1)) / BLOCK then n
    else if offset % BLOCK == 0 then 0 else BLOCK - offset % BLOCK
  }

  /** The first block of the loop after it, and the block after the last. */
  ghost function First(offset: nat, n: nat): nat
    requires n > 0
  {
    (offset + FirstPart(offset, n)) / BLOCK
  }

  ghost function Stop(offset: nat, n: nat): nat
    requires n > 0
  {
    (offset + (n - 1)) / BLOCK + 1
  }

  ghost predicate CoversBlocks(es: seq<Extent>, l: nat, stop: nat) {
    forall b: nat :: l <= b < stop ==> Covered(es, b)
  }

  lemma BlocksCovered(es: seq<Extent>, offset: nat, n: nat)
    requires n > 0 && CoversBytes(es, offset, n) && FirstPart(offset, n) < n
    ensures var first, stop, left := First(offset, n), Stop(offset, n), n - FirstPart(offset, n);
            && first < stop && CoversBlocks(es, first, stop) && first * BLOCK == offset + FirstPart(offset, n)
            && (stop - first - 1) * BLOCK < left <= (stop - first) * BLOCK
  {
    forall b: nat | First(offset, n) <= b < Stop(offset, n)
      ensures Covered(es, b)
    {
      assert offset <= b * BLOCK < offset + n && b * BLOCK / BLOCK == b;
    }
  }

  /** The blocks of the file. */
  ghost function FileBlocks(es: seq<Extent>, l: nat, stop: nat): (bs: seq<nat>)
    requires l <= stop && CoversBlocks(es, l, stop)
    ensures |bs| == stop - l && forall i :: 0 <= i < stop - l ==> bs[i] == Phys(es, l + i)
  {
    seq<nat>(stop - l, i requires 0 <= i < stop - l => Phys(es, l + i))
  }

  /** How many blocks a turn of the loop takes: as many as the extent has, also
      when it is entered in its middle. */
  ghost function Turn(es: seq<Extent>, l: nat, stop: nat): (n: nat)
    requires l < stop && Covered(es, l)
    ensures 0 < n <= stop - l
  {
    Min(es[Which(es, l)].len, stop - l)
  }

  ghost function Run(p: nat, n: nat): (bs: seq<nat>)
    ensures |bs| == n && forall i :: 0 <= i < n ==> bs[i] == p + i
  {
    seq<nat>(n, i => p + i)
  }

  /** The disk blocks the loop takes for the blocks from `l` to `stop`. */
  ghost function TakenBlocks(es: seq<Extent>, l: nat, stop: nat): (bs: seq<nat>)
    requires l <= stop && CoversBlocks(es, l, stop)
    ensures |bs| == stop - l
    decreases stop - l
  {
    if l == stop then []
    else
      var n := Turn(es, l, stop);
      Run(Phys(es, l), n) + TakenBlocks(es, l + n, stop)
  }

  /** The blocks of a turn are consecutive on the disk. */
  ghost predicate TurnRuns(es: seq<Extent>, l: nat, n: nat)
    requires CoversBlocks(es, l, l + n)
  {
    forall b: nat :: l <= b < l + n ==> Phys(es, b) == Phys(es, l) + (b - l)
  }

  ghost predicate AllTurnsRun(es: seq<Extent>, l: nat, stop: nat)
    requires l <= stop && CoversBlocks(es, l, stop)
    decreases stop - l
  {
    l == stop || var n := Turn(es, l, stop); TurnRuns(es, l, n) && AllTurnsRun(es, l + n, stop)
  }

  /** The loop takes the blocks of the file if and only if every turn's blocks are
      consecutive on the disk. */
  lemma {:induction false} TakenIff(es: seq<Extent>, l: nat, stop: nat)
    requires l <= stop && CoversBlocks(es, l, stop)
    ensures TakenBlocks(es, l, stop) == FileBlocks(es, l, stop) <==> AllTurnsRun(es, l, stop)
    decreases stop - l
  {
    if l < stop {
      var n := Turn(es, l, stop);
      var next := l + n;
      TakenIff(es, next, stop);
      TakenStep(es, l, stop, n, next);
      RunsStep(es, l, stop, n, next);
      var file, turn, rest := FileBlocks(es, l, stop), FileBlocks(es, l, next), FileBlocks(es, next, stop);
      TurnIff(es, l, n, turn);
      assert file == turn + rest;
      SameParts(Run(Phys(es, l), n), TakenBlocks(es, next, stop), turn, rest, file);
    }
  }

  lemma TakenStep(es: seq<Extent>, l: nat, stop: nat, n: nat, next: nat)
    requires l < stop && CoversBlocks(es, l, stop) && n == Turn(es, l, stop) && next == l + n
    ensures TakenBlocks(es, l, stop) == Run(Phys(es, l), n) + TakenBlocks(es, next, stop)
  {
  }

  lemma RunsStep(es: seq<Extent>, l: nat, stop: nat, n: nat, next: nat)
    requires l < stop && CoversBlocks(es, l, stop) && n == Turn(es, l, stop) && next == l + n
    ensures AllTurnsRun(es, l, stop) <==> TurnRuns(es, l, n) && AllTurnsRun(es, next, stop)
  {
  }

  lemma SameParts<T>(a: seq<T>, b: seq<T>, c: seq<T>, d: seq<T>, all: seq<T>)
    requires |a| == |c| && all == c + d
    ensures a + b == all <==> a == c && b == d
  {
    assert (a + b)[..|a|] == a && (a + b)[|a|..] == b && all[..|a|] == c && all[|a|..] == d;
  }

  lemma TurnIff(es: seq<Extent>, l: nat, n: nat, file: seq<nat>)
    requires n > 0 && CoversBlocks(es, l, l + n) && |file| == n
    requires forall i :: 0 <= i < n ==> file[i] == Phys(es, l + i)
    ensures Run(Phys(es, l), n) == file <==> TurnRuns(es, l, n)
  {
    var run := Run(Phys(es, l), n);
    if run == file {
      forall b: nat | l <= b < l + n
        ensures Phys(es, b) == Phys(es, l) + (b - l)
      {
        assert run[b - l] == file[b - l];
      }
    } else {
      var i :| 0 <= i < n && run[i] != file[i];
      assert Phys(es, l + i) != Phys(es, l) + i;
    }
  }

  // ----- from blocks to bytes -----

  /** The first `n` addresses of a list of blocks. */
  ghost function BlockBytes(bs: seq<nat>, n: nat): (a: seq<nat>)
    requires n <= |bs| * BLOCK
    ensures |a| == n && forall i :: 0 <= i < n ==> a[i] == bs[i / BLOCK] * BLOCK + i % BLOCK
  {
    seq<nat>(n, i requires 0 <= i < n => bs[i / BLOCK] * BLOCK + i % BLOCK)
  }

  lemma BlockBytesIff(a: seq<nat>, b: seq<nat>, n: nat)
    requires |a| == |b| > 0 && (|a| - 1) * BLOCK < n <= |a| * BLOCK
    ensures BlockBytes(a, n) == BlockBytes(b, n) <==> a == b
  {
    if BlockBytes(a, n) == BlockBytes(b, n) {
      forall k | 0 <= k < |a|
        ensures a[k] == b[k]
      {
        assert k * BLOCK < n && k * BLOCK / BLOCK == k && k * BLOCK % BLOCK == 0;
        assert BlockBytes(a, n)[k * BLOCK] == BlockBytes(b, n)[k * BLOCK];
      }
    }
  }

  /** `a` are the addresses the loop takes from block `first` on, the last block
      perhaps in part. */
  ghost predicate Taking(a: seq<nat>, es: seq<Extent>, first: nat, stop: nat) {
    && first < stop && CoversBlocks(es, first, stop) && (stop - first - 1) * BLOCK < |a| <= (stop - first) * BLOCK
    && a == BlockBytes(TakenBlocks(es, first, stop), |a|)
  }

  /** The addresses the loop takes the bytes after the first part from. */
  ghost function RestTaken(es: seq<Extent>, offset: nat, n: nat): (a: seq<nat>)
    requires n > 0 && CoversBytes(es, offset, n) && FirstPart(offset, n) < n
    ensures |a| == n - FirstPart(offset, n) && Taking(a, es, First(offset, n), Stop(offset, n))
  {
    BlocksCovered(es, offset, n);
    BlockBytes(TakenBlocks(es, First(offset, n), Stop(offset, n)), n - FirstPart(offset, n))
  }

  /** The addresses `op_read` takes the range's bytes from. */
  ghost function TakenAddrs(es: seq<Extent>, offset: nat, n: nat): (a: seq<nat>)
    requires CoversBytes(es, offset, n)
    ensures |a| == n
  {
    if n == 0 || FirstPart(offset, n) == n then FileAddrs(es, offset, n)
    else FileAddrs(es, offset, n)[..FirstPart(offset, n)] + RestTaken(es, offset, n)
  }

  /** Every turn of the loop over the range takes consecutive blocks. */
  ghost predicate Consecutive(es: seq<Extent>, offset: nat, n: nat)
    requires CoversBytes(es, offset, n)
  {
    n == 0 || FirstPart(offset, n) == n ||
    (BlocksCovered(es, offset, n); AllTurnsRun(es, First(offset, n), Stop(offset, n)))
  }

  /** After the first part the file's addresses are those of its blocks. */
  lemma RestAddrs(es: seq<Extent>, offset: nat, n: nat)
    requires n > 0 && CoversBytes(es, offset, n) && FirstPart(offset, n) < n
    requires First(offset, n) <= Stop(offset, n) && CoversBlocks(es, First(offset, n), Stop(offset, n))
    requires n - FirstPart(offset, n) <= (Stop(offset, n) - First(offset, n)) * BLOCK
    ensures FileAddrs(es, offset, n)[FirstPart(offset, n)..]
         == BlockBytes(FileBlocks(es, First(offset, n), Stop(offset, n)), n - FirstPart(offset, n))
  {
    var k, first := FirstPart(offset, n), First(offset, n);
    var a, b := FileAddrs(es, offset, n)[k..], BlockBytes(FileBlocks(es, first, Stop(offset, n)), n - k);
    forall i | 0 <= i < n - k
      ensures a[i] == b[i]
    {
      assert (offset + k + i) / BLOCK == first + i / BLOCK && (offset + k + i) % BLOCK == i % BLOCK;
    }
  }

  lemma TakenAddrsIff(es: seq<Extent>, offset: nat, n: nat)
    requires CoversBytes(es, offset, n)
    ensures TakenAddrs(es, offset, n) == FileAddrs(es, offset, n) <==> Consecutive(es, offset, n)
  {
    if n > 0 && FirstPart(offset, n) < n {
      var k, file := FirstPart(offset, n), FileAddrs(es, offset, n);
      RestTakenIff(es, offset, n);
      SameParts(file[..k], RestTaken(es, offset, n), file[..k], file[k..], file);
    }
  }

  lemma RestTakenIff(es: seq<Extent>, offset: nat, n: nat)
    requires n > 0 && CoversBytes(es, offset, n) && FirstPart(offset, n) < n
    ensures RestTaken(es, offset, n) == FileAddrs(es, offset, n)[FirstPart(offset, n)..] <==> Consecutive(es, offset, n)
  {
    BlocksCovered(es, offset, n);
    var k, first, stop := FirstPart(offset, n), First(offset, n), Stop(offset, n);
    TakenIff(es, first, stop);
    RestAddrs(es, offset, n);
    BlockBytesIff(TakenBlocks(es, first, stop), FileBlocks(es, first, stop), n - k);
  }

  // ----- what is read -----

  ghost function Bytes(m: seq<byte>, a: seq<nat>): (s: seq<byte>)
    requires Mem.Reaches(a, |m|)
    ensures |s| == |a| && forall i :: 0 <= i < |a| ==> s[i] == m[a[i]]
  {
    seq<byte>(|a|, i requires 0 <= i < |a| => m[a[i]])
  }

  /** A read of the addresses, or none when one is off the disk. */
  ghost function ReadAt(m: seq<byte>, a: seq<nat>): Option<seq<byte>> {
    if Mem.Reaches(a, |m|) then Some(Bytes(m, a)) else None
  }

  /** `op_read` of the range returns the file's bytes whatever is on the disk, if
      and only if every turn's blocks are consecutive there. */
  lemma ReadsFileIff(es: seq<Extent>, offset: nat, n: nat, size: nat)
    requires OnDisk(es, size) && CoversBytes(es, offset, n)
    ensures (forall m: seq<byte> :: |m| == size ==> ReadAt(m, TakenAddrs(es, offset, n)) == Some(FileBytes(m, es, offset, n)))
            <==> Consecutive(es, offset, n)
  {
    var taken, file := TakenAddrs(es, offset, n), FileAddrs(es, offset, n);
    TakenAddrsIff(es, offset, n);
    if taken == file {
      forall m: seq<byte> | |m| == size
        ensures ReadAt(m, taken) == Some(FileBytes(m, es, offset, n))
      {
        ConsecutiveReads(m, es, offset, n);
      }
    } else {
      var i :| 0 <= i < n && taken[i] != file[i];
      var m := TellApart(es, offset, n, size, taken, i);
    }
  }

  /** A disk on which a read of other addresses shows. */
  lemma TellApart(es: seq<Extent>, offset: nat, n: nat, size: nat, a: seq<nat>, i: nat) returns (m: seq<byte>)
    requires OnDisk(es, size) && CoversBytes(es, offset, n) && |a| == n && i < n && a[i] != FileAddrs(es, offset, n)[i]
    ensures |m| == size && ReadAt(m, a) != Some(FileBytes(m, es, offset, n))
  {
    var p := FileAddrs(es, offset, n)[i];
    PosBounds(es, offset + i, size);
    m := seq(size, j => if j == p then 1 else 0);
    assert FileBytes(m, es, offset, n)[i] == 1;
    assert Mem.Reaches(a, size) ==> Bytes(m, a)[i] == 0;
  }

  lemma ConsecutiveReads(m: seq<byte>, es: seq<Extent>, offset: nat, n: nat)
    requires OnDisk(es, |m|) && CoversBytes(es, offset, n) && Consecutive(es, offset, n)
    ensures ReadAt(m, TakenAddrs(es, offset, n)) == Some(FileBytes(m, es, offset, n))
  {
    TakenAddrsIff(es, offset, n);
    AddrsReach(es, offset, n, |m|);
    assert Bytes(m, FileAddrs(es, offset, n)) == FileBytes(m, es, offset, n);
  }

  /** The bytes of `data` are those at the first addresses. */
  ghost predicate Fetched(m: seq<byte>, a: seq<nat>, data: seq<byte>) {
    |data| <= |a| && forall i :: 0 <= i < |data| ==> a[i] < |m| && data[i] == m[a[i]]
  }

  /** Bytes of one block, as the disk has them. */
  lemma BlockFetched(m: seq<byte>, es: seq<Extent>, offset: nat, n: nat, k: nat, start: nat)
    requires OnDisk(es, |m|) && CoversBytes(es, offset, n) && 0 < n && k <= n
    requires offset % BLOCK + k <= BLOCK && Covered(es, offset / BLOCK) && start == Pos(es, offset)
    ensures start + k <= |m| && Fetched(m, FileAddrs(es, offset, n), m[start..start + k])
  {
    var w := Which(es, offset / BLOCK);
    assert start + k <= (es[w].start + es[w].len) * BLOCK <= |m|;
    forall i | 0 <= i < k
      ensures FileAddrs(es, offset, n)[i] == start + i
    {
      assert (offset + i) / BLOCK == offset / BLOCK;
    }
  }

  lemma OnePart(m: seq<byte>, es: seq<Extent>, offset: nat, n: nat, head: seq<byte>)
    requires n > 0 && CoversBytes(es, offset, n) && |head| == FirstPart(offset, n) == n
    requires Fetched(m, FileAddrs(es, offset, n), head)
    ensures ReadAt(m, TakenAddrs(es, offset, n)) == Some(head)
  {
    assert Bytes(m, FileAddrs(es, offset, n)) == head;
  }

  lemma BothParts(m: seq<byte>, es: seq<Extent>, offset: nat, n: nat, head: seq<byte>, rest: seq<nat>)
    requires n > 0 && CoversBytes(es, offset, n) && |head| == FirstPart(offset, n) < n
    requires Fetched(m, FileAddrs(es, offset, n), head) && rest == RestTaken(es, offset, n)
    ensures ReadAt(m, TakenAddrs(es, offset, n))
         == if ReadAt(m, rest) == None then None else Some(head + ReadAt(m, rest).value)
  {
    JoinAt(m, FileAddrs(es, offset, n)[..|head|], rest, head);
  }

  lemma JoinAt(m: seq<byte>, a: seq<nat>, b: seq<nat>, head: seq<byte>)
    requires |head| == |a| && Fetched(m, a, head)
    ensures ReadAt(m, a + b) == if ReadAt(m, b) == None then None else Some(head + ReadAt(m, b).value)
  {
    if Mem.Reaches(b, |m|) {
      assert Bytes(m, a + b) == head + Bytes(m, b);
    } else {
      var i :| 0 <= i < |b| && b[i] >= |m|;
      assert (a + b)[|a| + i] == b[i];
    }
  }

  // ----- the loop -----

  /** The loop before block `l`, on the way through the addresses `a`: the blocks
      before `l` are read, and it takes from there what it would take when started
      there. */
  ghost predicate ReadTo(m: seq<byte>, a: seq<nat>, es: seq<Extent>, first: nat, stop: nat, data: seq<byte>, l: nat) {
    Fetched(m, a, data) && (|data| < |a| ==> AtTurn(es, first, stop, l) && |data| == (l - first) * BLOCK)
  }

  ghost predicate AtTurn(es: seq<Extent>, first: nat, stop: nat, l: nat) {
    && first <= l < stop && CoversBlocks(es, first, stop)
    && TakenBlocks(es, first, stop)[l - first..] == TakenBlocks(es, l, stop)
  }

  /** A turn takes its part of the addresses, in order. */
  lemma TurnAddr(bs: seq<nat>, p: nat, k: nat, len: nat, n: nat, at: nat, i: nat)
    requires n <= |bs| * BLOCK && at == k * BLOCK && at + i < n && i < len * BLOCK
    requires forall j :: k <= j < k + len && j < |bs| ==> bs[j] == p + (j - k)
    ensures BlockBytes(bs, n)[at + i] == p * BLOCK + i
  {
    var j := i / BLOCK;
    assert (at + i) / BLOCK == k + j && (at + i) % BLOCK == i % BLOCK;
    assert bs[k + j] == p + j;
  }

  lemma TurnBlocks(es: seq<Extent>, first: nat, stop: nat, l: nat, len: nat, bs: seq<nat>, j: nat)
    requires AtTurn(es, first, stop, l) && len == es[Which(es, l)].len && bs == TakenBlocks(es, first, stop)
    requires l - first <= j < l - first + len && j < |bs|
    ensures bs[j] == Phys(es, l) + (j - (l - first))
  {
    var n := Turn(es, l, stop);
    TakenStep(es, l, stop, n, l + n);
    assert bs[j] == bs[l - first..][j - (l - first)];
  }

  lemma NextTurn(m: seq<byte>, a: seq<nat>, es: seq<Extent>, first: nat, stop: nat, data: seq<byte>, l: nat, next: nat,
                 len: nat, from: nat, bytes: nat)
    requires Taking(a, es, first, stop) && |data| < |a| && ReadTo(m, a, es, first, stop, data, l)
    requires len == es[Which(es, l)].len && next == l + len
    requires from == Phys(es, l) * BLOCK && bytes == Min(|a| - |data|, len * BLOCK)
    ensures 0 < bytes && (from + bytes > |m| ==> ReadAt(m, a) == None)
    ensures from + bytes <= |m| ==> ReadTo(m, a, es, first, stop, data + m[from..from + bytes], next)
  {
    var bs, p, k := TakenBlocks(es, first, stop), Phys(es, l), l - first;
    assert forall j :: k <= j < k + len && j < |bs| ==> bs[j] == p + (j - k) by {
      forall j | k <= j < k + len && j < |bs|
        ensures bs[j] == p + (j - k)
      {
        TurnBlocks(es, first, stop, l, len, bs, j);
      }
    }
    TurnRead(m, a, bs, p, k, len, data, from, bytes);
    if |data| + bytes < |a| {
      TurnOn(es, first, stop, l, next, len);
    }
  }

  lemma TurnRead(m: seq<byte>, a: seq<nat>, bs: seq<nat>, p: nat, k: nat, len: nat, data: seq<byte>, from: nat, bytes: nat)
    requires |a| <= |bs| * BLOCK && a == BlockBytes(bs, |a|) && Fetched(m, a, data) && |data| == k * BLOCK < |a|
    requires 0 < len && from == p * BLOCK && bytes == Min(|a| - |data|, len * BLOCK)
    requires forall j :: k <= j < k + len && j < |bs| ==> bs[j] == p + (j - k)
    ensures from + bytes > |m| ==> ReadAt(m, a) == None
    ensures from + bytes <= |m| ==> Fetched(m, a, data + m[from..from + bytes])
  {
    forall i | |data| <= i < |data| + bytes
      ensures a[i] == from + (i - |data|)
    {
      TurnAddr(bs, p, k, len, |a|, |data|, i - |data|);
    }
    assert from + bytes > |m| ==> a[|data| + bytes - 1] >= |m|;
  }

  lemma TurnOn(es: seq<Extent>, first: nat, stop: nat, l: nat, next: nat, len: nat)
    requires AtTurn(es, first, stop, l) && len == es[Which(es, l)].len && next == l + len < stop
    ensures AtTurn(es, first, stop, next)
  {
    TakenStep(es, l, stop, len, next);
    var bs := TakenBlocks(es, first, stop);
    assert bs[next - first..] == bs[l - first..][len..];
  }

  // ----- when the turns run -----

  /** Block `l` begins its extent, or the blocks up to `stop` are inside it. */
  ghost predicate Aligned(es: seq<Extent>, l: nat, stop: nat)
    requires Covered(es, l)
  {
    var e := es[Which(es, l)];
    l == e.block || stop <= e.block + e.len
  }

  /** It is enough that the loop starts an extent or ends inside the one it starts
      in. */
  lemma {:induction false} AlignedRuns(es: seq<Extent>, l: nat, stop: nat)
    requires Sorted(es, 0, LIMIT) && l < stop && CoversBlocks(es, l, stop) && Aligned(es, l, stop)
    ensures AllTurnsRun(es, l, stop)
    decreases stop - l
  {
    var w, n := Which(es, l), Turn(es, l, stop);
    forall b: nat | l <= b < l + n
      ensures Phys(es, b) == Phys(es, l) + (b - l)
    {
      PhysIs(es, b, w);
    }
    if l + n < stop {
      NextStarts(es, w, l + n);
      AlignedRuns(es, l + n, stop);
    }
  }

  /** A range is read right when the part after its first block boundary starts an
      extent or ends inside the one it starts in. */
  lemma AlignedReads(es: seq<Extent>, offset: nat, n: nat)
    requires Sorted(es, 0, LIMIT) && n > 0 && CoversBytes(es, offset, n)
    requires FirstPart(offset, n) < n ==> Covered(es, First(offset, n)) && Aligned(es, First(offset, n), Stop(offset, n))
    ensures Consecutive(es, offset, n)
  {
    if FirstPart(offset, n) < n {
      BlocksCovered(es, offset, n);
      AlignedRuns(es, First(offset, n), Stop(offset, n));
    }
  }

  /** The extent that covers the block after another begins there. */
  lemma NextStarts(es: seq<Extent>, w: nat, l: nat)
    requires Sorted(es, 0, LIMIT) && w < |es| && es[w].len > 0 && l == es[w].block + es[w].len && Covered(es, l)
    ensures es[Which(es, l)].block == l
  {
    var v := Which(es, l);
  }

  /** Three extents of which the first two follow each other on the disk. Blocks 4
      to 11 are one turn of eight blocks from 104 on, and for block 9, which is at
      300, it takes 109. */
  lemma MisreadInMiddle()
    ensures var es := [Extent(0, 8, 100), Extent(8, 1, 108), Extent(9, 8, 300)];
            && Sorted(es, 0, LIMIT) && OwnBlocks(es) && CoversBytes(es, 4 * BLOCK, 8 * BLOCK)
            && TakenAddrs(es, 4 * BLOCK, 8 * BLOCK)[5 * BLOCK] == 109 * BLOCK
            && FileAddrs(es, 4 * BLOCK, 8 * BLOCK)[5 * BLOCK] == 300 * BLOCK
            && !Consecutive(es, 4 * BLOCK, 8 * BLOCK)
  {
    var es := [Extent(0, 8, 100), Extent(8, 1, 108), Extent(9, 8, 300)];
    MiddleExtents(es);
    MisreadTurn(es, 4 * BLOCK, 8 * BLOCK, 5 * BLOCK);
  }

  lemma MiddleExtents(es: seq<Extent>)
    requires es == [Extent(0, 8, 100), Extent(8, 1, 108), Extent(9, 8, 300)]
    ensures Sorted(es, 0, LIMIT) && OwnBlocks(es) && CoversBlocks(es, 4, 12)
    ensures Phys(es, 4) == 104 && es[Which(es, 4)].len == 8 && Phys(es, 9) == 300
  {
    assert |es| == 3 && es[0] == Extent(0, 8, 100) && es[1] == Extent(8, 1, 108) && es[2] == Extent(9, 8, 300);
    PhysIs(es, 4, 0);
    PhysIs(es, 9, 2);
    forall b: nat | 4 <= b < 12
      ensures Covered(es, b)
    {
      assert Covers(es[0], b) || Covers(es[1], b) || Covers(es[2], b);
    }
  }

  lemma MisreadTurn(es: seq<Extent>, offset: nat, n: nat, i: nat)
    requires CoversBlocks(es, 4, 12) && Phys(es, 4) == 104 && es[Which(es, 4)].len == 8 && Phys(es, 9) == 300
    requires offset == 4 * BLOCK && n == 8 * BLOCK && i == 5 * BLOCK
    ensures CoversBytes(es, offset, n) && !Consecutive(es, offset, n)
    ensures TakenAddrs(es, offset, n)[i] == 109 * BLOCK && FileAddrs(es, offset, n)[i] == 300 * BLOCK
  {
    OneTurn(es, offset, n, 4, 8, 104);
    TakenAddrsIff(es, offset, n);
  }

  /** A range of whole blocks that is one turn. */
  lemma OneTurn(es: seq<Extent>, offset: nat, n: nat, l: nat, k: nat, p: nat)
    requires k > 1 && offset == l * BLOCK && n == k * BLOCK && CoversBlocks(es, l, l + k)
    requires Phys(es, l) == p && es[Which(es, l)].len >= k
    ensures CoversBytes(es, offset, n)
    ensures forall i :: 0 <= i < n ==> TakenAddrs(es, offset, n)[i] == p * BLOCK + i
  {
    assert offset / BLOCK == l && (offset + (n - 1)) / BLOCK == l + k - 1;
    assert FirstPart(offset, n) == 0 && First(offset, n) == l && Stop(offset, n) == l + k;
    TakenStep(es, l, l + k, k, l + k);
    assert TakenBlocks(es, l, l + k) == Run(p, k);
    forall i | 0 <= i < n
      ensures TakenAddrs(es, offset, n)[i] == p * BLOCK + i
    {
      assert TakenAddrs(es, offset, n)[i] == BlockBytes(Run(p, k), n)[i];
    }
  }

  // ----- the size a write leaves -----

  /** Byte `f` is before the end of the file. */
  ghost predicate Within(f: nat, size: nat) {
    f < size
  }

  lemma WithinIff(a: nat, b: nat)
    ensures (forall f: nat :: Within(f, a) ==> Within(f, b)) <==> b >= a
  {
    if b < a {
      assert Within(b, a) && !Within(b, b);
    }
  }

  /** The bytes of the file outside the range written keep their values. */
  lemma RestUnchanged(mem: seq<byte>, es: seq<Extent>, offset: nat, data: seq<byte>, at: nat, n: nat)
    requires Sorted(es, 0, LIMIT) && OwnBlocks(es) && OnDisk(es, |mem|)
    requires CoversBytes(es, offset, |data|) && CoversBytes(es, at, n)
    requires at + n <= offset || offset + |data| <= at
    ensures Mem.Reaches(FileAddrs(es, offset, |data|), |mem|)
    ensures FileBytes(Mem.Stored(mem, FileAddrs(es, offset, |data|), data), es, at, n) == FileBytes(mem, es, at, n)
  {
    var a, b := FileAddrs(es, offset, |data|), FileAddrs(es, at, n);
    AddrsReach(es, offset, |data|, |mem|);
    PosInjective(es);
    AddrsApart(es, offset, |data|, a, at, n, b);
    StoredElsewhere(mem, a, data, es, at, n, b);
  }
}
