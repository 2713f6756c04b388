/** One block of a directory, at byte level: records chained by their lengths up
    to a 12-byte tail.  Creating an entry splits the last record, deleting one
    merges it into its predecessor. */
module DirBlock {
  import opened Common

  const BLOCK_SIZE: nat := 4096
  const TAIL_SIZE: nat := 12
  const TAIL: nat := BLOCK_SIZE - TAIL_SIZE
  const BASE_SIZE: nat := 8
  const DOT_SIZE: nat := 12
  const FT_DIR: byte := 2
  const FT_DIR_CSUM: byte := 0xDE

  // ----- little-endian fields -----

  function Get16(b: seq<byte>, o: nat): nat
    requires o + 2 <= |b|
  {
    b[o] as int + 256 * b[o + 1] as int
  }

  function Get32(b: seq<byte>, o: nat): nat
    requires o + 4 <= |b|
  {
    b[o] as int + 256 * b[o + 1] as int + 0x1_0000 * b[o + 2] as int + 0x100_0000 * b[o + 3] as int
  }

  function Put16(b: seq<byte>, o: nat, v: nat): (r: seq<byte>)
    requires o + 2 <= |b| && v < 0x1_0000
    ensures |r| == |b|
  {
    b[o := v % 256][o + 1 := v / 256]
  }

  function Put32(b: seq<byte>, o: nat, v: nat): (r: seq<byte>)
    requires o + 4 <= |b| && v < 0x1_0000_0000
    ensures |r| == |b|
  {
    b[o := v % 256][o + 1 := v / 256 % 256][o + 2 := v / 256 / 256 % 256][o + 3 := v / 256 / 256 / 256]
  }

  lemma Get16Put16(b: seq<byte>, o: nat, v: nat)
    requires o + 2 <= |b| && v < 0x1_0000
    ensures Get16(Put16(b, o, v), o) == v
  {
  }

  lemma Get32Put32(b: seq<byte>, o: nat, v: nat)
    requires o + 4 <= |b| && v < 0x1_0000_0000
    ensures Get32(Put32(b, o, v), o) == v
  {
    var r := Put32(b, o, v);
    assert r[o] == v % 256 && r[o + 1] == v / 256 % 256 && r[o + 2] == v / 256 / 256 % 256;
    assert r[o + 3] == v / 256 / 256 / 256;
  }

  /** Two blocks agree on the bytes [from, to). */
  ghost predicate Same(a: seq<byte>, b: seq<byte>, from: nat, to: nat) {
    |a| == |b| && forall i :: from <= i < to && i < |a| ==> a[i] == b[i]
  }

  // ----- records -----

  /** The space a record with a name of `n` bytes needs. */
  function RecLen(n: nat): (r: nat)
    ensures BASE_SIZE + n <= r < BASE_SIZE + n + 4
  {
    Align4(BASE_SIZE + n)
  }

  datatype Rec = Rec(len: nat, inode: nat, ftype: byte, name: seq<byte>)

  /** A record of `r`'s length fits at `o` and has room for its name. */
  ghost predicate Fits(o: nat, r: Rec) {
    && 0 < |r.name| < 256
    && RecLen(|r.name|) <= r.len
    && o + r.len <= TAIL
  }

  datatype Field = Place | Header | Name

  ghost predicate FieldAt(b: seq<byte>, o: nat, r: Rec, f: Field) {
    && |b| == BLOCK_SIZE
    && Fits(o, r)
    && match f
       case Place => true
       case Header =>
         Get32(b, o) == r.inode && Get16(b, o + 4) == r.len && b[o + 6] == |r.name| && b[o + 7] == r.ftype
       case Name => b[o + 8..o + 8 + |r.name|] == r.name
  }

  /** The bytes at `o` spell the record `r`. */
  ghost predicate RecordAt(b: seq<byte>, o: nat, r: Rec) {
    forall f :: FieldAt(b, o, r, f)
  }

  lemma RecordFacts(b: seq<byte>, o: nat, r: Rec)
    requires RecordAt(b, o, r)
    ensures |b| == BLOCK_SIZE && Fits(o, r)
    ensures Get32(b, o) == r.inode && Get16(b, o + 4) == r.len && b[o + 6] == |r.name| && b[o + 7] == r.ftype
    ensures b[o + 8..o + 8 + |r.name|] == r.name
  {
    var fields := [FieldAt(b, o, r, Place), FieldAt(b, o, r, Header), FieldAt(b, o, r, Name)];
  }

  /** The records `rs` tile the bytes from `o` to `end`. */
  ghost predicate Chain(b: seq<byte>, o: nat, rs: seq<Rec>, end: nat)
    decreases |rs|
  {
    if rs == [] then o == end
    else RecordAt(b, o, rs[0]) && Chain(b, o + rs[0].len, rs[1..], end)
  }

  ghost predicate TailAt(b: seq<byte>) {
    && |b| == BLOCK_SIZE
    && Get32(b, TAIL) == 0
    && Get16(b, TAIL + 4) == TAIL_SIZE
    && b[TAIL + 6] == 0
    && b[TAIL + 7] == FT_DIR_CSUM
  }

  /** A directory block holding the records `rs`. */
  ghost predicate Directory(b: seq<byte>, rs: seq<Rec>) {
    TailAt(b) && rs != [] && Chain(b, 0, rs, TAIL)
  }

  // ----- reasoning about chains -----

  function Span(rs: seq<Rec>): nat
    decreases |rs|
  {
    if rs == [] then 0 else rs[0].len + Span(rs[1..])
  }

  lemma RecordFrame(a: seq<byte>, b: seq<byte>, o: nat, r: Rec)
    requires RecordAt(a, o, r) && Same(a, b, o, o + 8 + |r.name|)
    ensures RecordAt(b, o, r)
  {
    RecordFacts(a, o, r);
    assert forall i :: o <= i < o + 8 + |r.name| ==> a[i] == b[i];
    assert b[o + 8..o + 8 + |r.name|] == a[o + 8..o + 8 + |r.name|];
  }

  lemma {:induction false} ChainFrame(a: seq<byte>, b: seq<byte>, o: nat, rs: seq<Rec>, end: nat)
    requires Chain(a, o, rs, end) && Same(a, b, o, end)
    ensures Chain(b, o, rs, end) && o <= end
    decreases |rs|
  {
    if rs != [] {
      ChainEnd(a, o, rs, end);
      RecordFacts(a, o, rs[0]);
      RecordFrame(a, b, o, rs[0]);
      ChainFrame(a, b, o + rs[0].len, rs[1..], end);
    }
  }

  lemma {:induction false} ChainEnd(b: seq<byte>, o: nat, rs: seq<Rec>, end: nat)
    requires Chain(b, o, rs, end)
    ensures end == o + Span(rs)
    decreases |rs|
  {
    if rs != [] { ChainEnd(b, o + rs[0].len, rs[1..], end); }
  }

  lemma {:induction false} ChainSplit(b: seq<byte>, o: nat, xs: seq<Rec>, ys: seq<Rec>, end: nat)
    requires Chain(b, o, xs + ys, end)
    ensures Chain(b, o, xs, o + Span(xs)) && Chain(b, o + Span(xs), ys, end)
    decreases |xs|
  {
    if xs == [] {
      assert xs + ys == ys;
    } else {
      assert (xs + ys)[1..] == xs[1..] + ys;
      ChainSplit(b, o + xs[0].len, xs[1..], ys, end);
    }
  }

  lemma {:induction false} ChainJoin(b: seq<byte>, o: nat, xs: seq<Rec>, mid: nat, ys: seq<Rec>, end: nat)
    requires Chain(b, o, xs, mid) && Chain(b, mid, ys, end)
    ensures Chain(b, o, xs + ys, end)
    decreases |xs|
  {
    if xs == [] {
      assert xs + ys == ys;
    } else {
      var zs := xs + ys;
      assert zs[0] == xs[0] && zs[1..] == xs[1..] + ys;
      ChainJoin(b, o + xs[0].len, xs[1..], mid, ys, end);
    }
  }

  lemma ChainOne(b: seq<byte>, o: nat, r: Rec)
    requires RecordAt(b, o, r)
    ensures Chain(b, o, [r], o + r.len)
  {
    assert [r][1..] == [];
  }

  // ----- creating an entry -----

  /** The predecessor cut down to the space its name needs. */
  function Trim(b: seq<byte>, o: nat): seq<byte>
    requires o + 8 <= |b|
  {
    Put16(b, o + 4, RecLen(b[o + 6]))
  }

  function PutHeader(b: seq<byte>, o: nat, inode: nat, len: nat, nameLen: byte, ftype: byte): (r: seq<byte>)
    requires o + 8 <= |b| && inode < 0x1_0000_0000 && len < 0x1_0000
    ensures |r| == |b|
  {
    Put16(Put32(b, o, inode)[o + 6 := nameLen], o + 4, len)[o + 7 := ftype]
  }

  /** The name byte by byte, then the terminating NUL. */
  function PutName(b: seq<byte>, o: nat, name: seq<byte>): (r: seq<byte>)
    requires o + |name| < |b|
    ensures |r| == |b|
    decreases |name|
  {
    if name == [] then b[o := 0] else PutName(b[o := name[0]], o + 1, name[1..])
  }

  /** `dentry_create` behind the entry at `o`. */
  function Created(b: seq<byte>, o: nat, name: seq<byte>, inode: nat, ftype: byte): seq<byte>
    requires |name| < 256 && inode < 0x1_0000_0000 && o + 8 <= |b|
    requires RecLen(b[o + 6]) <= Get16(b, o + 4) && o + RecLen(b[o + 6]) + 8 + |name| < |b|
  {
    var need := RecLen(b[o + 6]);
    PutName(PutHeader(Trim(b, o), o + need, inode, Get16(b, o + 4) - need, |name|, ftype), o + need + 8, name)
  }

  ghost predicate HeaderShape(b: seq<byte>, r: seq<byte>, o: nat, inode: nat, len: nat, nameLen: nat, ftype: byte) {
    && o + 8 <= |b| == |r|
    && Get32(r, o) == inode && Get16(r, o + 4) == len && r[o + 6] == nameLen && r[o + 7] == ftype
    && Same(b, r, 0, o) && Same(b, r, o + 8, |b|)
  }

  ghost predicate NameShape(b: seq<byte>, r: seq<byte>, o: nat, name: seq<byte>) {
    && o + |name| < |b| == |r|
    && r[o..o + |name|] == name && r[o + |name|] == 0
    && Same(b, r, 0, o) && Same(b, r, o + |name| + 1, |b|)
  }

  ghost predicate TrimShape(b: seq<byte>, r: seq<byte>, o: nat) {
    && o + 8 <= |b| == |r|
    && Get16(r, o + 4) == RecLen(b[o + 6])
    && Same(b, r, 0, o + 4) && Same(b, r, o + 6, |b|)
  }

  lemma PutHeaderFacts(b: seq<byte>, o: nat, inode: nat, len: nat, nameLen: byte, ftype: byte)
    requires o + 8 <= |b| && inode < 0x1_0000_0000 && len < 0x1_0000
    ensures HeaderShape(b, PutHeader(b, o, inode, len, nameLen, ftype), o, inode, len, nameLen, ftype)
  {
    var r, p := PutHeader(b, o, inode, len, nameLen, ftype), Put32(b, o, inode);
    Get32Put32(b, o, inode);
    Get16Put16(p[o + 6 := nameLen], o + 4, len);
    assert r[o] == p[o] && r[o + 1] == p[o + 1] && r[o + 2] == p[o + 2] && r[o + 3] == p[o + 3];
  }

  lemma {:induction false} PutNameFacts(b: seq<byte>, o: nat, name: seq<byte>)
    requires o + |name| < |b|
    ensures NameShape(b, PutName(b, o, name), o, name)
    decreases |name|
  {
    if name != [] {
      PutNameFacts(b[o := name[0]], o + 1, name[1..]);
      var r := PutName(b, o, name);
      assert r[o] == name[0];
      assert r[o..o + |name|] == [r[o]] + r[o + 1..o + |name|];
    }
  }

  lemma TrimFacts(b: seq<byte>, o: nat)
    requires o + 8 <= |b|
    ensures TrimShape(b, Trim(b, o), o)
  {
    Get16Put16(b, o + 4, RecLen(b[o + 6]));
  }

  /** A record cut down to a smaller length that still holds its name. */
  lemma TrimmedRecord(a: seq<byte>, b: seq<byte>, o: nat, r: Rec, len: nat)
    requires RecordAt(a, o, r) && RecLen(|r.name|) <= len && o + len <= TAIL && |b| == BLOCK_SIZE
    requires Same(a, b, o, o + 4) && Same(a, b, o + 6, o + 8 + |r.name|) && Get16(b, o + 4) == len
    ensures RecordAt(b, o, r.(len := len))
  {
    RecordFacts(a, o, r);
    assert forall i :: o + 6 <= i < o + 8 + |r.name| ==> a[i] == b[i];
    assert b[o + 8..o + 8 + |r.name|] == a[o + 8..o + 8 + |r.name|];
  }

  lemma NewRecord(b: seq<byte>, o: nat, r: Rec)
    requires |b| == BLOCK_SIZE && Fits(o, r)
    requires Get32(b, o) == r.inode && Get16(b, o + 4) == r.len && b[o + 6] == |r.name| && b[o + 7] == r.ftype
    requires b[o + 8..o + 8 + |r.name|] == r.name
    ensures RecordAt(b, o, r)
  {
  }

  /** The room behind an entry's own name. */
  predicate HasSpace(r: Rec, nameLen: nat) {
    RecLen(|r.name|) + RecLen(nameLen) <= r.len
  }

  /** There is room if and only if the record can be cut somewhere so that the first
      part still holds its own name and the second the new one. */
  lemma HasSpaceIff(o: nat, r: Rec, name: seq<byte>)
    requires Fits(o, r) && 0 < |name| < 256
    ensures HasSpace(r, |name|) <==>
              exists cut: nat :: cut <= r.len && Fits(o, r.(len := cut)) && Fits(o + cut, Rec(r.len - cut, 0, 0, name))
  {
    if HasSpace(r, |name|) {
      var cut := RecLen(|r.name|);
      assert Fits(o, r.(len := cut)) && Fits(o + cut, Rec(r.len - cut, 0, 0, name));
    }
  }

  function LastOf(rs: seq<Rec>): Rec
    requires rs != []
  {
    rs[|rs| - 1]
  }

  function Offset(rs: seq<Rec>, k: nat): nat
    requires k <= |rs|
  {
    Span(rs[..k])
  }

  /** The records once an entry has been created behind the last one. */
  function Appended(rs: seq<Rec>, name: seq<byte>, inode: nat, ftype: byte): seq<Rec>
    requires rs != [] && RecLen(|LastOf(rs).name|) <= LastOf(rs).len
  {
    var need := RecLen(|LastOf(rs).name|);
    rs[..|rs| - 1] + [LastOf(rs).(len := need), Rec(LastOf(rs).len - need, inode, ftype, name)]
  }

  /** Where the last record is and how far it reaches. */
  lemma LastRecord(b: seq<byte>, rs: seq<Rec>)
    requires Directory(b, rs)
    ensures var o := Offset(rs, |rs| - 1);
            && RecordAt(b, o, LastOf(rs)) && o + LastOf(rs).len == TAIL
            && Chain(b, 0, rs[..|rs| - 1], o)
  {
    var n := |rs| - 1;
    assert rs == rs[..n] + [rs[n]];
    ChainSplit(b, 0, rs[..n], [rs[n]], TAIL);
    assert [rs[n]][1..] == [];
  }

  /** Which bytes `dentry_create` changes, and to what. */
  ghost predicate CreatedShape(b: seq<byte>, r: seq<byte>, o: nat, name: seq<byte>, inode: nat, ftype: byte)
    requires |name| < 256 && o + 8 <= |b|
    requires RecLen(b[o + 6]) <= Get16(b, o + 4) && o + RecLen(b[o + 6]) + 8 + |name| < |b|
  {
    var n := o + RecLen(b[o + 6]);
    && |r| == |b| && Same(b, r, 0, o + 4) && Same(b, r, o + 6, n) && Get16(r, o + 4) == RecLen(b[o + 6])
    && Get32(r, n) == inode && Get16(r, n + 4) == Get16(b, o + 4) - RecLen(b[o + 6])
    && r[n + 6] == |name| && r[n + 7] == ftype && r[n + 8..n + 8 + |name|] == name
    && r[n + 8 + |name|] == 0 && Same(b, r, n + 9 + |name|, |b|)
  }

  lemma CreatedFacts(b: seq<byte>, o: nat, name: seq<byte>, inode: nat, ftype: byte)
    requires |name| < 256 && inode < 0x1_0000_0000 && o + 8 <= |b|
    requires RecLen(b[o + 6]) <= Get16(b, o + 4) && o + RecLen(b[o + 6]) + 8 + |name| < |b|
    ensures CreatedShape(b, Created(b, o, name, inode, ftype), o, name, inode, ftype)
  {
    var need := RecLen(b[o + 6]);
    var t := Trim(b, o);
    var h := PutHeader(t, o + need, inode, Get16(b, o + 4) - need, |name|, ftype);
    TrimFacts(b, o);
    PutHeaderFacts(t, o + need, inode, Get16(b, o + 4) - need, |name|, ftype);
    PutNameFacts(h, o + need + 8, name);
    CreatedCompose(b, t, h, PutName(h, o + need + 8, name), o, name, inode, ftype);
  }

  lemma CreatedCompose(b: seq<byte>, t: seq<byte>, h: seq<byte>, r: seq<byte>, o: nat, name: seq<byte>, inode: nat, ftype: byte)
    requires |name| < 256 && o + 8 <= |b|
    requires RecLen(b[o + 6]) <= Get16(b, o + 4) && o + RecLen(b[o + 6]) + 8 + |name| < |b|
    requires TrimShape(b, t, o)
    requires HeaderShape(t, h, o + RecLen(b[o + 6]), inode, Get16(b, o + 4) - RecLen(b[o + 6]), |name|, ftype)
    requires NameShape(h, r, o + RecLen(b[o + 6]) + 8, name)
    ensures CreatedShape(b, r, o, name, inode, ftype)
  {
  }

  lemma CreatedDirectory(b: seq<byte>, c: seq<byte>, rs: seq<Rec>, o: nat, name: seq<byte>, inode: nat, ftype: byte)
    requires TailAt(b) && rs != [] && 0 < |name| < 256 && HasSpace(LastOf(rs), |name|)
    requires RecordAt(b, o, LastOf(rs)) && o + LastOf(rs).len == TAIL && Chain(b, 0, rs[..|rs| - 1], o)
    requires o + 8 <= |b| && b[o + 6] == |LastOf(rs).name| && Get16(b, o + 4) == LastOf(rs).len
    requires CreatedShape(b, c, o, name, inode, ftype)
    ensures Directory(c, Appended(rs, name, inode, ftype)) && c[TAIL..] == b[TAIL..]
  {
    var r := LastOf(rs);
    var need := RecLen(|r.name|);
    var added := Rec(r.len - need, inode, ftype, name);
    assert Fits(o, r) by { RecordFacts(b, o, r); }
    CreatedTrimmed(b, c, o, r, name, inode, ftype);
    CreatedAdded(b, c, o, r, name, inode, ftype);
    assert Chain(c, 0, rs[..|rs| - 1], o) by { ChainFrame(b, c, 0, rs[..|rs| - 1], o); }
    SplitChain(c, rs, o, need, added);
    assert TailAt(c) && c[TAIL..] == b[TAIL..] by { TailKept(b, c, o + need + 8 + |name|); }
  }

  lemma CreatedTrimmed(b: seq<byte>, c: seq<byte>, o: nat, r: Rec, name: seq<byte>, inode: nat, ftype: byte)
    requires |b| == BLOCK_SIZE && 0 < |name| < 256 && HasSpace(r, |name|) && o + r.len == TAIL
    requires Fits(o, r) && o + 8 <= |b| && b[o + 6] == |r.name| && Get16(b, o + 4) == r.len
    requires CreatedShape(b, c, o, name, inode, ftype)
    requires RecordAt(b, o, r)
    ensures RecordAt(c, o, r.(len := RecLen(|r.name|)))
  {
    assert Same(b, c, o, o + 4) && Same(b, c, o + 6, o + 8 + |r.name|);
    TrimmedRecord(b, c, o, r, RecLen(|r.name|));
  }

  lemma CreatedAdded(b: seq<byte>, c: seq<byte>, o: nat, r: Rec, name: seq<byte>, inode: nat, ftype: byte)
    requires |b| == BLOCK_SIZE && 0 < |name| < 256 && HasSpace(r, |name|) && o + r.len == TAIL
    requires Fits(o, r) && o + 8 <= |b| && b[o + 6] == |r.name| && Get16(b, o + 4) == r.len
    requires CreatedShape(b, c, o, name, inode, ftype)
    ensures RecordAt(c, o + RecLen(|r.name|), Rec(r.len - RecLen(|r.name|), inode, ftype, name))
  {
    var n, added := o + RecLen(|r.name|), Rec(r.len - RecLen(|r.name|), inode, ftype, name);
    assert Fits(n, added);
    NewRecord(c, n, added);
  }

  /** Creating behind the last entry appends exactly one record: the block
      stays tiled up to an unchanged tail, also when the terminating NUL falls
      on the tail's first byte. */
  lemma CreateKeeps(b: seq<byte>, rs: seq<Rec>, name: seq<byte>, inode: nat, ftype: byte)
    requires Directory(b, rs) && 0 < |name| < 256 && inode < 0x1_0000_0000 && HasSpace(LastOf(rs), |name|)
    ensures var o := Offset(rs, |rs| - 1);
            && o + 8 <= |b| && RecLen(b[o + 6]) <= Get16(b, o + 4) && o + RecLen(b[o + 6]) + 8 + |name| < |b|
            && Directory(Created(b, o, name, inode, ftype), Appended(rs, name, inode, ftype))
            && Created(b, o, name, inode, ftype)[TAIL..] == b[TAIL..]
  {
    var o := Offset(rs, |rs| - 1);
    LastRecord(b, rs);
    RecordFacts(b, o, LastOf(rs));
    CreatedFacts(b, o, name, inode, ftype);
    CreatedDirectory(b, Created(b, o, name, inode, ftype), rs, o, name, inode, ftype);
  }

  /** Two records in the place of the last. */
  lemma SplitChain(c: seq<byte>, rs: seq<Rec>, o: nat, need: nat, added: Rec)
    requires rs != [] && Chain(c, 0, rs[..|rs| - 1], o) && o + need + added.len == TAIL
    requires RecordAt(c, o, LastOf(rs).(len := need)) && RecordAt(c, o + need, added)
    ensures Chain(c, 0, rs[..|rs| - 1] + [LastOf(rs).(len := need), added], TAIL)
  {
    var trimmed := LastOf(rs).(len := need);
    ChainOne(c, o + need, added);
    ChainOne(c, o, trimmed);
    ChainJoin(c, o, [trimmed], o + need, [added], TAIL);
    ChainJoin(c, 0, rs[..|rs| - 1], o, [trimmed] + [added], TAIL);
    assert [trimmed] + [added] == [trimmed, added];
  }

  lemma TailKept(b: seq<byte>, c: seq<byte>, nul: nat)
    requires TailAt(b) && |c| == |b| && nul <= TAIL && c[nul] == 0 && Same(b, c, nul + 1, |b|)
    ensures TailAt(c) && c[TAIL..] == b[TAIL..]
  {
    assert b[TAIL] == 0;
    assert forall i :: TAIL <= i < BLOCK_SIZE ==> c[i] == b[i];
  }

  // ----- deleting an entry -----

  /** Record `k` merged into the one before it. */
  function Merged(rs: seq<Rec>, k: nat): seq<Rec>
    requires 0 < k < |rs|
  {
    rs[..k - 1] + [rs[k - 1].(len := rs[k - 1].len + rs[k].len)] + rs[k + 1..]
  }

  /** A record's place in the block. */
  lemma RecordPlace(b: seq<byte>, rs: seq<Rec>, k: nat)
    requires Directory(b, rs) && k < |rs|
    ensures var o := Offset(rs, k);
            && RecordAt(b, o, rs[k]) && Chain(b, 0, rs[..k], o)
            && Offset(rs, k + 1) == o + rs[k].len
            && Chain(b, o + rs[k].len, rs[k + 1..], TAIL)
  {
    assert rs == rs[..k] + rs[k..];
    ChainSplit(b, 0, rs[..k], rs[k..], TAIL);
    assert rs[k..][0] == rs[k] && rs[k..][1..] == rs[k + 1..];
    SpanStep(rs, k);
  }

  lemma SpanStep(rs: seq<Rec>, k: nat)
    requires k < |rs|
    ensures Span(rs[..k + 1]) == Span(rs[..k]) + rs[k].len
  {
    assert rs[..k + 1] == rs[..k] + [rs[k]];
    SpanAppend(rs[..k], rs[k]);
  }

  lemma {:induction false} SpanAppend(xs: seq<Rec>, r: Rec)
    ensures Span(xs + [r]) == Span(xs) + r.len
    decreases |xs|
  {
    if xs == [] {
      assert xs + [r] == [r] && [r][1..] == [];
    } else {
      assert (xs + [r])[1..] == xs[1..] + [r];
      SpanAppend(xs[1..], r);
    }
  }

  /** `dentry_delete` of record `k`: only the predecessor's length changes. */
  function Deleted(b: seq<byte>, rs: seq<Rec>, k: nat): seq<byte>
    requires 0 < k < |rs| && Offset(rs, k - 1) + 6 <= |b| && rs[k - 1].len + rs[k].len < 0x1_0000
  {
    Put16(b, Offset(rs, k - 1) + 4, rs[k - 1].len + rs[k].len)
  }

  lemma Put16Facts(b: seq<byte>, o: nat, v: nat)
    requires o + 2 <= |b| && v < 0x1_0000
    ensures Get16(Put16(b, o, v), o) == v && Same(b, Put16(b, o, v), 0, o) && Same(b, Put16(b, o, v), o + 2, |b|)
  {
    Get16Put16(b, o, v);
  }

  lemma MergedChain(b: seq<byte>, c: seq<byte>, rs: seq<Rec>, k: nat, o: nat)
    requires 0 < k < |rs| && Chain(b, 0, rs[..k - 1], o) && RecordAt(b, o, rs[k - 1])
    requires o + rs[k - 1].len + rs[k].len <= TAIL && Chain(b, o + rs[k - 1].len + rs[k].len, rs[k + 1..], TAIL)
    requires |c| == |b| == BLOCK_SIZE && Same(b, c, 0, o + 4) && Same(b, c, o + 6, |b|)
    requires Fits(o, rs[k - 1]) && Get16(c, o + 4) == rs[k - 1].len + rs[k].len
    ensures Chain(c, 0, Merged(rs, k), TAIL)
  {
    var r := rs[k - 1].(len := rs[k - 1].len + rs[k].len);
    ChainFrame(b, c, 0, rs[..k - 1], o);
    assert Same(b, c, o, o + 4) && Same(b, c, o + 6, o + 8 + |r.name|);
    TrimmedRecord(b, c, o, rs[k - 1], r.len);
    ChainOne(c, o, r);
    ChainFrame(b, c, o + r.len, rs[k + 1..], TAIL);
    ChainJoin(c, 0, rs[..k - 1], o, [r], o + r.len);
    ChainJoin(c, 0, rs[..k - 1] + [r], o + r.len, rs[k + 1..], TAIL);
  }

  /** Deleting any entry but the first removes exactly that record. */
  lemma DeleteKeeps(b: seq<byte>, rs: seq<Rec>, k: nat)
    requires Directory(b, rs) && 0 < k < |rs|
    ensures Offset(rs, k - 1) + 6 <= |b| && rs[k - 1].len + rs[k].len < 0x1_0000
    ensures Directory(Deleted(b, rs, k), Merged(rs, k)) && Deleted(b, rs, k)[TAIL..] == b[TAIL..]
  {
    var o := Offset(rs, k - 1);
    MergedPlace(b, rs, k, o);
    var c := Deleted(b, rs, k);
    Put16Facts(b, o + 4, rs[k - 1].len + rs[k].len);
    MergedChain(b, c, rs, k, o);
    assert TailAt(c) && c[TAIL..] == b[TAIL..] by { TailBehind(b, c, o + 6); }
  }

  /** The two records that become one, and the chain on either side. */
  lemma MergedPlace(b: seq<byte>, rs: seq<Rec>, k: nat, o: nat)
    requires Directory(b, rs) && 0 < k < |rs| && o == Offset(rs, k - 1)
    ensures |b| == BLOCK_SIZE && Chain(b, 0, rs[..k - 1], o) && RecordAt(b, o, rs[k - 1]) && Fits(o, rs[k - 1])
    ensures o + rs[k - 1].len + rs[k].len <= TAIL && Chain(b, o + rs[k - 1].len + rs[k].len, rs[k + 1..], TAIL)
  {
    RecordPlace(b, rs, k - 1);
    RecordPlace(b, rs, k);
    RecordFacts(b, o, rs[k - 1]);
    RecordFacts(b, o + rs[k - 1].len, rs[k]);
  }

  lemma TailBehind(b: seq<byte>, c: seq<byte>, from: nat)
    requires TailAt(b) && |c| == |b| && from <= TAIL && Same(b, c, from, |b|)
    ensures TailAt(c) && c[TAIL..] == b[TAIL..]
  {
    assert forall i :: TAIL <= i < BLOCK_SIZE ==> c[i] == b[i];
  }

  // ----- what the block means -----

  datatype Entry = Entry(name: seq<byte>, inode: nat, ftype: byte)

  function EntryOf(r: Rec): Entry {
    Entry(r.name, r.inode, r.ftype)
  }

  /** The directory as a list. */
  function Entries(rs: seq<Rec>): seq<Entry> {
    seq(|rs|, i requires 0 <= i < |rs| => EntryOf(rs[i]))
  }

  function FindIndex(es: seq<Entry>, name: seq<byte>): Option<nat>
    decreases |es|
  {
    if es == [] then None
    else if es[0].name == name then Some(0)
    else match FindIndex(es[1..], name) case None => None case Some(k) => Some(k + 1)
  }

  lemma {:induction false} FindIndexIs(es: seq<Entry>, name: seq<byte>, k: nat)
    requires k <= |es| && forall i :: 0 <= i < k ==> es[i].name != name
    ensures k == |es| ==> FindIndex(es, name) == None
    ensures k < |es| && es[k].name == name ==> FindIndex(es, name) == Some(k)
    decreases k
  {
    if k > 0 {
      FindIndexIs(es[1..], name, k - 1);
    }
  }

  lemma {:induction false} FindIndexBound(es: seq<Entry>, name: seq<byte>)
    ensures FindIndex(es, name).Some? ==> FindIndex(es, name).value < |es|
    decreases |es|
  {
    if es != [] { FindIndexBound(es[1..], name); }
  }

  /** Creating appends an entry. */
  lemma AppendedEntries(rs: seq<Rec>, name: seq<byte>, inode: nat, ftype: byte)
    requires rs != [] && RecLen(|LastOf(rs).name|) <= LastOf(rs).len
    ensures Entries(Appended(rs, name, inode, ftype)) == Entries(rs) + [Entry(name, inode, ftype)]
  {
  }

  /** Deleting removes its target and nothing else. */
  lemma MergedEntries(rs: seq<Rec>, k: nat)
    requires 0 < k < |rs|
    ensures Entries(Merged(rs, k)) == Entries(rs)[..k] + Entries(rs)[k + 1..]
  {
  }

  // ----- every run -----

  datatype Op = Create(name: seq<byte>, inode: nat, ftype: byte) | Delete(name: seq<byte>)

  predicate Legal(op: Op) {
    op.Create? ==> 0 < |op.name| < 256 && op.inode < 0x1_0000_0000
  }

  /** Create after the space check; delete of an entry that is not the first. */
  function AfterOp(rs: seq<Rec>, op: Op): seq<Rec>
    requires rs != []
  {
    match op
    case Create(name, inode, ftype) =>
      if HasSpace(LastOf(rs), |name|) then Appended(rs, name, inode, ftype) else rs
    case Delete(name) =>
      FindIndexBound(Entries(rs), name);
      match FindIndex(Entries(rs), name)
      case None => rs
      case Some(k) => if k == 0 then rs else Merged(rs, k)
  }

  function BytesAfter(b: seq<byte>, rs: seq<Rec>, op: Op): seq<byte>
    requires rs != [] && Legal(op) && Directory(b, rs)
  {
    match op
    case Create(name, inode, ftype) =>
      if HasSpace(LastOf(rs), |name|) then
        CreateKeeps(b, rs, name, inode, ftype);
        Created(b, Offset(rs, |rs| - 1), name, inode, ftype)
      else b
    case Delete(name) =>
      FindIndexBound(Entries(rs), name);
      match FindIndex(Entries(rs), name)
      case None => b
      case Some(k) =>
        if k == 0 then b
        else
          DeleteKeeps(b, rs, k);
          Deleted(b, rs, k)
  }

  /** The list the driver of the directory expects. */
  function ListAfter(es: seq<Entry>, op: Op, room: bool): seq<Entry> {
    match op
    case Create(name, inode, ftype) => if room then es + [Entry(name, inode, ftype)] else es
    case Delete(name) =>
      FindIndexBound(es, name);
      match FindIndex(es, name)
      case None => es
      case Some(k) => if k == 0 then es else es[..k] + es[k + 1..]
  }

  ghost predicate FirstNamed(rs: seq<Rec>, name: seq<byte>, k: nat) {
    k < |rs| && rs[k].name == name && forall i :: 0 <= i < k ==> rs[i].name != name
  }

  lemma FirstFound(rs: seq<Rec>, name: seq<byte>)
    ensures (forall i :: 0 <= i < |rs| ==> rs[i].name != name) ==> FindIndex(Entries(rs), name) == None
    ensures forall k: nat :: FirstNamed(rs, name, k) ==> FindIndex(Entries(rs), name) == Some(k)
  {
    var es := Entries(rs);
    assert forall i :: 0 <= i < |rs| ==> es[i].name == rs[i].name;
    if forall i :: 0 <= i < |rs| ==> rs[i].name != name {
      FindIndexIs(es, name, |rs|);
    }
    forall k: nat | FirstNamed(rs, name, k)
      ensures FindIndex(es, name) == Some(k)
    {
      FindIndexIs(es, name, k);
    }
  }

  lemma OpKeeps(b: seq<byte>, rs: seq<Rec>, op: Op)
    requires Directory(b, rs) && Legal(op)
    ensures AfterOp(rs, op) != [] && Directory(BytesAfter(b, rs, op), AfterOp(rs, op))
    ensures BytesAfter(b, rs, op)[TAIL..] == b[TAIL..]
    ensures Entries(AfterOp(rs, op)) ==
            ListAfter(Entries(rs), op, op.Create? && HasSpace(LastOf(rs), |op.name|))
    ensures op.Create? && HasSpace(LastOf(rs), |op.name|) ==>
              Entries(AfterOp(rs, op)) == Entries(rs) + [Entry(op.name, op.inode, op.ftype)]
    ensures op.Create? && !HasSpace(LastOf(rs), |op.name|) ==> BytesAfter(b, rs, op) == b
    ensures op.Delete? && (forall i :: 0 <= i < |rs| ==> rs[i].name != op.name) ==> BytesAfter(b, rs, op) == b
    ensures op.Delete? ==> forall k :: 0 < k < |rs| && FirstNamed(rs, op.name, k) ==>
              Entries(AfterOp(rs, op)) == Entries(rs)[..k] + Entries(rs)[k + 1..]
  {
    FindIndexBound(Entries(rs), op.name);
    if op.Delete? { FirstFound(rs, op.name); }
    match op
    case Create(name, inode, ftype) =>
      if HasSpace(LastOf(rs), |name|) {
        CreateKeeps(b, rs, name, inode, ftype);
        AppendedEntries(rs, name, inode, ftype);
      }
    case Delete(name) =>
      match FindIndex(Entries(rs), name)
      case None =>
      case Some(k) =>
        if k != 0 {
          DeleteKeeps(b, rs, k);
          MergedEntries(rs, k);
        }
  }

  /** `c` with records `ts` is reached from `b` with records `rs`. */
  ghost predicate Run(b: seq<byte>, rs: seq<Rec>, ops: seq<Op>, c: seq<byte>, ts: seq<Rec>)
    requires Directory(b, rs)
    decreases |ops|
  {
    if ops == [] then b == c && rs == ts
    else
      && Legal(ops[0])
      && (OpKeeps(b, rs, ops[0]); Run(BytesAfter(b, rs, ops[0]), AfterOp(rs, ops[0]), ops[1..], c, ts))
  }

  /** Which creations of a run find room behind the last record. */
  ghost function Rooms(rs: seq<Rec>, ops: seq<Op>): (rooms: seq<bool>)
    ensures |rooms| == |ops|
    decreases |ops|
  {
    if ops == [] then []
    else if rs == [] then [false] + Rooms(rs, ops[1..])
    else [ops[0].Create? && HasSpace(LastOf(rs), |ops[0].name|)] + Rooms(AfterOp(rs, ops[0]), ops[1..])
  }

  ghost function ListRun(es: seq<Entry>, ops: seq<Op>, rooms: seq<bool>): seq<Entry>
    requires |rooms| == |ops|
    decreases |ops|
  {
    if ops == [] then es else ListRun(ListAfter(es, ops[0], rooms[0]), ops[1..], rooms[1..])
  }

  /** Over every run the records tile the block exactly, the tail never changes,
      and the entries are those of the plain list. */
  lemma {:induction false} DirectoryRun(b: seq<byte>, rs: seq<Rec>, ops: seq<Op>, c: seq<byte>, ts: seq<Rec>)
    requires Directory(b, rs) && Run(b, rs, ops, c, ts)
    ensures Directory(c, ts) && c[TAIL..] == b[TAIL..]
    ensures Entries(ts) == ListRun(Entries(rs), ops, Rooms(rs, ops))
    decreases |ops|
  {
    if ops != [] {
      OpKeeps(b, rs, ops[0]);
      assert Rooms(rs, ops)[1..] == Rooms(AfterOp(rs, ops[0]), ops[1..]);
      DirectoryRun(BytesAfter(b, rs, ops[0]), AfterOp(rs, ops[0]), ops[1..], c, ts);
    }
  }
}
