/** The loops and stores of `dentry.c` on the shared directory buffer. */
module DirBuffer {
  import opened Common
  import opened DirBlock

  method Store16(buf: array<byte>, o: nat, v: nat)
    requires o + 2 <= buf.Length && v < 0x1_0000
    modifies buf
    ensures buf[..] == Put16(old(buf[..]), o, v)
  {
    buf[o] := v % 256;
    buf[o + 1] := v / 256;
  }

  method Store32(buf: array<byte>, o: nat, v: nat)
    requires o + 4 <= buf.Length && v < 0x1_0000_0000
    modifies buf
    ensures buf[..] == Put32(old(buf[..]), o, v)
  {
    buf[o] := v % 256;
    buf[o + 1] := v / 256 % 256;
    buf[o + 2] := v / 256 / 256 % 256;
    buf[o + 3] := v / 256 / 256 / 256;
  }

  /** `strncpy` and the NUL written after it. */
  method StoreName(buf: array<byte>, o: nat, name: seq<byte>)
    requires o + |name| < buf.Length
    modifies buf
    ensures buf[..] == PutName(old(buf[..]), o, name)
  {
    ghost var all := PutName(buf[..], o, name);
    var i := 0;
    while i < |name|
      invariant 0 <= i <= |name|
      invariant PutName(buf[..], o + i, name[i..]) == all
    {
      assert name[i..][1..] == name[i + 1..];
      buf[o + i] := name[i];
      i := i + 1;
    }
    assert name[i..] == [];
    buf[o + i] := 0;
  }

  method StoreHeader(buf: array<byte>, o: nat, inode: nat, len: nat, nameLen: byte, ftype: byte)
    requires o + 8 <= buf.Length && inode < 0x1_0000_0000 && len < 0x1_0000
    modifies buf
    ensures buf[..] == PutHeader(old(buf[..]), o, inode, len, nameLen, ftype)
  {
    Store32(buf, o, inode);
    buf[o + 6] := nameLen;
    Store16(buf, o + 4, len);
    buf[o + 7] := ftype;
  }

  method Load16(buf: array<byte>, o: nat) returns (v: nat)
    requires o + 2 <= buf.Length
    ensures v == Get16(buf[..], o) && v < 0x1_0000
  {
    v := buf[o] as int + 256 * buf[o + 1] as int;
  }

  /** `dentry_find` on one block: without a name the last entry, with a name
      the first entry of that name and the one before it. */
  method DentryFind(buf: array<byte>, name: Option<seq<byte>>, ghost rs: seq<Rec>)
    returns (found: Option<nat>, before: Option<nat>)
    requires Directory(buf[..], rs)
    ensures name == None ==> found == Some(Offset(rs, |rs| - 1))
    ensures name.Some? ==>
              match FindIndex(Entries(rs), name.value)
              case None => found == None
              case Some(k) =>
                && k < |rs| && found == Some(Offset(rs, k))
                && before == if k == 0 then None else Some(Offset(rs, k - 1))
  {
    var offset: nat := 0;
    before := None;
    ghost var k: nat, b := 0, buf[..];
    while true
      invariant k <= |rs| && offset == Offset(rs, k)
      invariant before == if k == 0 then None else Some(Offset(rs, k - 1))
      invariant name.Some? ==> forall i :: 0 <= i < k ==> Entries(rs)[i].name != name.value
      decreases |rs| - k
    {
      AtOffset(b, rs, k);
      if buf[offset] == 0 && buf[offset + 1] == 0 && buf[offset + 2] == 0 && buf[offset + 3] == 0 && buf[offset + 6] == 0 {
        if name == None {
          return before, None;
        }
        FindIndexIs(Entries(rs), name.value, k);
        return None, None;
      }
      var len := Load16(buf, offset + 4);
      var here := offset;
      offset := offset + len;
      if name.Some? && |name.value| == buf[here + 6] && buf[here + 8..here + 8 + |name.value|] == name.value {
        FindIndexIs(Entries(rs), name.value, k);
        return Some(here), before;
      }
      before := Some(here);
      k := k + 1;
    }
  }

  /** What the search sees at record `k`, or at the tail. */
  lemma AtOffset(b: seq<byte>, rs: seq<Rec>, k: nat)
    requires Directory(b, rs) && k <= |rs|
    ensures |b| == BLOCK_SIZE
    ensures k == |rs| ==> Offset(rs, k) == TAIL && b[TAIL] == b[TAIL + 1] == b[TAIL + 2] == b[TAIL + 3] == b[TAIL + 6] == 0
    ensures k < |rs| ==>
              var o := Offset(rs, k);
              && o + 8 + |rs[k].name| <= TAIL && 0 < |rs[k].name| < 256
              && Get16(b, o + 4) == rs[k].len && b[o + 6] == |rs[k].name|
              && b[o + 8..o + 8 + |rs[k].name|] == rs[k].name
              && Offset(rs, k + 1) == o + rs[k].len
  {
    if k == |rs| {
      assert rs[..k] == rs;
      ChainEnd(b, 0, rs, TAIL);
    } else {
      RecordPlace(b, rs, k);
      RecordFacts(b, Offset(rs, k), rs[k]);
    }
  }

  /** `dentry_has_enough_space`. */
  method DentryHasEnoughSpace(buf: array<byte>, o: nat, nameLen: nat, ghost rs: seq<Rec>) returns (ok: bool)
    requires Directory(buf[..], rs) && o == Offset(rs, |rs| - 1) && nameLen < 256
    ensures ok <==> HasSpace(LastOf(rs), nameLen)
  {
    AtOffset(buf[..], rs, |rs| - 1);
    LastRecord(buf[..], rs);
    RecordFacts(buf[..], o, LastOf(rs));
    var len := Load16(buf, o + 4);
    var left := len - RecLen(buf[o + 6]);
    return left >= RecLen(nameLen);
  }

  /** `dentry_create` behind the last entry. */
  method DentryCreate(buf: array<byte>, o: nat, name: seq<byte>, inode: nat, ftype: byte, ghost rs: seq<Rec>)
    requires Directory(buf[..], rs) && o == Offset(rs, |rs| - 1)
    requires 0 < |name| < 256 && inode < 0x1_0000_0000 && HasSpace(LastOf(rs), |name|)
    modifies buf
    ensures Directory(buf[..], Appended(rs, name, inode, ftype))
    ensures Entries(Appended(rs, name, inode, ftype)) == Entries(rs) + [Entry(name, inode, ftype)]
    ensures buf[TAIL..] == old(buf[TAIL..])
  {
    ghost var b := buf[..];
    CreateKeeps(b, rs, name, inode, ftype);
    AppendedEntries(rs, name, inode, ftype);
    assert buf.Length == BLOCK_SIZE;
    StoreEntry(buf, o, name, inode, ftype);
    assert buf[TAIL..] == buf[..][TAIL..] && b[TAIL..] == old(buf[TAIL..]);
  }

  /** Its stores. */
  method StoreEntry(buf: array<byte>, o: nat, name: seq<byte>, inode: nat, ftype: byte)
    requires |name| < 256 && inode < 0x1_0000_0000 && o + 8 <= buf.Length
    requires RecLen(buf[o + 6]) <= Get16(buf[..], o + 4) && o + RecLen(buf[o + 6]) + 8 + |name| < buf.Length
    modifies buf
    ensures buf[..] == Created(old(buf[..]), o, name, inode, ftype)
  {
    var left := Load16(buf, o + 4);
    var need := RecLen(buf[o + 6]);
    Store16(buf, o + 4, need);
    StoreHeader(buf, o + need, inode, left - need, |name|, ftype);
    StoreName(buf, o + need + 8, name);
  }

  /** `dentry_delete` of an entry that is present and not the first. */
  method DentryDelete(buf: array<byte>, name: seq<byte>, ghost rs: seq<Rec>, ghost k: nat)
    requires Directory(buf[..], rs) && FindIndex(Entries(rs), name) == Some(k) && 0 < k < |rs|
    modifies buf
    ensures Directory(buf[..], Merged(rs, k))
    ensures Entries(Merged(rs, k)) == Entries(rs)[..k] + Entries(rs)[k + 1..]
    ensures buf[TAIL..] == old(buf[TAIL..])
  {
    ghost var b := buf[..];
    var found, before := DentryFind(buf, Some(name), rs);
    DeleteKeeps(b, rs, k);
    MergedEntries(rs, k);
    LengthsAt(b, rs, k, before.value, found.value);
    AddLength(buf, before.value, found.value, rs[k - 1].len, rs[k].len);
    assert buf[..] == Deleted(b, rs, k);
    assert buf[TAIL..] == buf[..][TAIL..] && b[TAIL..] == old(buf[TAIL..]);
  }

  /** Its store: the length at `q` is added to the one at `p`. */
  method AddLength(buf: array<byte>, p: nat, q: nat, ghost x: nat, ghost y: nat)
    requires p + 6 <= buf.Length && q + 6 <= buf.Length && x + y < 0x1_0000
    requires Get16(buf[..], p + 4) == x && Get16(buf[..], q + 4) == y
    modifies buf
    ensures buf[..] == Put16(old(buf[..]), p + 4, x + y)
  {
    var len := Load16(buf, q + 4);
    var prev := Load16(buf, p + 4);
    Store16(buf, p + 4, prev + len);
  }

  lemma LengthsAt(b: seq<byte>, rs: seq<Rec>, k: nat, p: nat, q: nat)
    requires Directory(b, rs) && 0 < k < |rs| && p == Offset(rs, k - 1) && q == Offset(rs, k)
    ensures p + 6 <= |b| && q + 6 <= |b| && Get16(b, p + 4) == rs[k - 1].len && Get16(b, q + 4) == rs[k].len
  {
    AtOffset(b, rs, k);
    AtOffset(b, rs, k - 1);
  }

  /** The two entries every directory starts with. */
  function DotRecords(parent: nat, inode: nat): seq<Rec> {
    [Rec(DOT_SIZE, inode, FT_DIR, [46]), Rec(BLOCK_SIZE - DOT_SIZE - TAIL_SIZE, parent, FT_DIR, [46, 46])]
  }

  /** A record written whole: header, name, NUL. */
  function PutRecord(b: seq<byte>, o: nat, r: Rec): (c: seq<byte>)
    requires |r.name| < 256 && r.inode < 0x1_0000_0000 && r.len < 0x1_0000 && o + 8 + |r.name| < |b|
  {
    PutName(PutHeader(b, o, r.inode, r.len, |r.name|, r.ftype), o + 8, r.name)
  }

  lemma PutRecordFacts(b: seq<byte>, o: nat, r: Rec)
    requires |b| == BLOCK_SIZE && r.inode < 0x1_0000_0000 && Fits(o, r)
    ensures var c := PutRecord(b, o, r);
            RecordAt(c, o, r) && Same(b, c, 0, o) && Same(b, c, o + 9 + |r.name|, |b|)
  {
    var h := PutHeader(b, o, r.inode, r.len, |r.name|, r.ftype);
    PutHeaderFacts(b, o, r.inode, r.len, |r.name|, r.ftype);
    PutNameFacts(h, o + 8, r.name);
    RecordWhole(b, h, PutName(h, o + 8, r.name), o, r);
  }

  lemma RecordWhole(b: seq<byte>, h: seq<byte>, c: seq<byte>, o: nat, r: Rec)
    requires |b| == BLOCK_SIZE && Fits(o, r)
    requires HeaderShape(b, h, o, r.inode, r.len, |r.name|, r.ftype) && NameShape(h, c, o + 8, r.name)
    ensures RecordAt(c, o, r) && Same(b, c, 0, o) && Same(b, c, o + 9 + |r.name|, |b|)
  {
    NewRecord(c, o, r);
  }

  function PutTail(b: seq<byte>): seq<byte>
    requires |b| == BLOCK_SIZE
  {
    Put32(PutHeader(b, TAIL, 0, TAIL_SIZE, 0, FT_DIR_CSUM), TAIL + 8, 0)
  }

  lemma PutTailFacts(b: seq<byte>)
    requires |b| == BLOCK_SIZE
    ensures TailAt(PutTail(b))
  {
    var h := PutHeader(b, TAIL, 0, TAIL_SIZE, 0, FT_DIR_CSUM);
    PutHeaderFacts(b, TAIL, 0, TAIL_SIZE, 0, FT_DIR_CSUM);
    assert forall i :: TAIL <= i < TAIL + 8 ==> PutTail(b)[i] == h[i];
  }

  /** The initial block is a directory of the two dot entries. */
  lemma InitDirectory(b: seq<byte>, parent: nat, inode: nat)
    requires |b| == BLOCK_SIZE && parent < 0x1_0000_0000 && inode < 0x1_0000_0000
    ensures var rs := DotRecords(parent, inode);
            var d := PutRecord(PutTail(b), 0, rs[0]);
            |d| == BLOCK_SIZE && Directory(PutRecord(d, DOT_SIZE, rs[1]), rs)
  {
    var rs := DotRecords(parent, inode);
    var t := PutTail(b);
    var d := PutRecord(t, 0, rs[0]);
    var c := PutRecord(d, DOT_SIZE, rs[1]);
    PutTailFacts(b);
    PutRecordFacts(t, 0, rs[0]);
    PutRecordFacts(d, DOT_SIZE, rs[1]);
    TailBehind(t, d, TAIL);
    TailBehind(d, c, TAIL);
    RecordFrame(d, c, 0, rs[0]);
    ChainOne(c, 0, rs[0]);
    ChainOne(c, DOT_SIZE, rs[1]);
    ChainJoin(c, 0, [rs[0]], DOT_SIZE, [rs[1]], TAIL);
    assert [rs[0]] + [rs[1]] == rs;
  }

  /** `dentry_init`. */
  method DentryInit(buf: array<byte>, parent: nat, inode: nat)
    requires buf.Length == BLOCK_SIZE && parent < 0x1_0000_0000 && inode < 0x1_0000_0000
    modifies buf
    ensures Directory(buf[..], DotRecords(parent, inode))
    ensures Entries(DotRecords(parent, inode)) == [Entry([46], inode, FT_DIR), Entry([46, 46], parent, FT_DIR)]
  {
    InitDirectory(buf[..], parent, inode);
    StoreHeader(buf, TAIL, 0, TAIL_SIZE, 0, FT_DIR_CSUM);
    Store32(buf, TAIL + 8, 0);
    StoreHeader(buf, 0, inode, DOT_SIZE, 1, FT_DIR);
    StoreName(buf, 8, [46]);
    StoreHeader(buf, DOT_SIZE, parent, BLOCK_SIZE - DOT_SIZE - TAIL_SIZE, 2, FT_DIR);
    StoreName(buf, DOT_SIZE + 8, [46, 46]);
  }
}
