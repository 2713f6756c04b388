/** The layout the formatter writes: where the metadata lies, the first block
    bitmap, and what the allocator may then hand out. */
module Mkfs {
  import opened Common
  import opened Bits
  import opened BlockAlloc

  const DISK_MIN: nat := 512 * 1024
  const BLOCK: nat := 4096
  const INODE_RATIO: nat := 4 * BLOCK
  const INODE_SIZE: nat := 256
  const DESC_SIZE: nat := 64
  const PBLOCK_NUM: nat := 4

  datatype Layout = Layout(
    blocks: nat,           // block_count
    groups: nat,           // group_count
    inodesPerGroup: nat,
    dBitmap: nat,          // first block of each area
    iBitmap: nat,
    table: nat,
    tableLen: nat,         // inode table blocks of one group
    dataStart: nat,
    alloced: nat)

  /** The layout arithmetic; no layout for an image that is too small or whose
      metadata exceeds what one block counts. */
  function Plan(imgSize: nat): Option<Layout> {
    if imgSize < DISK_MIN then None
    else
      var blocks := imgSize / BLOCK;
      var groups := (blocks + GROUP - 1) / GROUP;
      var inodes := blocks * BLOCK / INODE_RATIO;
      var perGroup := inodes / groups;
      var dBitmap := 2;
      var iBitmap := dBitmap + groups;
      var table := iBitmap + groups;
      var tableLen := perGroup * INODE_SIZE / BLOCK;
      var dataStart := Align4(table + groups * tableLen);
      var alloced := dataStart + PBLOCK_NUM * 2;
      if alloced > BLOCK then None
      else Some(Layout(blocks, groups, perGroup, dBitmap, iBitmap, table, tableLen, dataStart, alloced))
  }

  ghost predicate Planned(imgSize: nat, l: Layout) {
    Plan(imgSize) == Some(l)
  }

  /** The areas follow one another. */
  ghost predicate Chained(l: Layout) {
    && l.dBitmap == 2 && l.iBitmap == l.dBitmap + l.groups && l.table == l.iBitmap + l.groups
    && l.table + l.groups * l.tableLen <= l.dataStart && l.dataStart % 4 == 0 && l.alloced == l.dataStart + 8
  }

  /** The metadata is on the disk and inside the first group, the group
      descriptors fit their block, and block numbers fit 32 bits. */
  ghost predicate Sized(l: Layout) {
    && 0 < l.groups && l.groups * DESC_SIZE <= BLOCK
    && (l.groups - 1) * GROUP < l.blocks <= l.groups * GROUP <= 0x1_0000_0000
    && l.alloced <= BLOCK && l.alloced <= l.blocks
    && l.inodesPerGroup <= GROUP / 4 && l.tableLen == l.inodesPerGroup / 16
  }

  lemma PlanFits(imgSize: nat, l: Layout)
    requires Planned(imgSize, l)
    ensures Chained(l) && Sized(l)
  {
    PlanSized(l.blocks, l.groups, l.inodesPerGroup, l.tableLen);
  }

  lemma PlanSized(blocks: nat, groups: nat, perGroup: nat, tableLen: nat)
    requires 128 <= blocks && groups == (blocks + GROUP - 1) / GROUP
    requires perGroup == blocks * BLOCK / INODE_RATIO / groups && tableLen == perGroup * INODE_SIZE / BLOCK
    requires 2 + 2 * groups + groups * tableLen <= BLOCK
    ensures 0 < groups <= 64 && (groups - 1) * GROUP < blocks <= groups * GROUP
    ensures perGroup <= GROUP / 4 && tableLen == perGroup / 16
    ensures groups == 1 ==> tableLen <= blocks / 64
  {
    assert blocks * BLOCK / INODE_RATIO == blocks / 4;
    PerGroup(blocks / 4, groups);
    assert tableLen == perGroup / 16;
    GroupBound(blocks, groups, perGroup, tableLen);
  }

  lemma PerGroup(inodes: nat, groups: nat)
    requires 0 < groups && inodes <= groups * (GROUP / 4)
    ensures inodes / groups <= GROUP / 4
    ensures (inodes / groups) * groups + groups > inodes
  {
    var p := inodes / groups;
    assert inodes == p * groups + inodes % groups;
    if p > GROUP / 4 {
      Rows(GROUP / 4, p, groups);
    }
  }

  lemma GroupBound(blocks: nat, groups: nat, perGroup: nat, tableLen: nat)
    requires 0 < groups && (groups - 1) * GROUP < blocks
    requires perGroup * groups + groups > blocks / 4 && tableLen == perGroup / 16
    requires 2 + 2 * groups + groups * tableLen <= BLOCK
    ensures groups <= 64
  {
    InodesHeld(perGroup, tableLen, groups);
  }

  /** Rounding a table down to blocks drops fewer than 16 inodes of a group. */
  lemma {:induction false} InodesHeld(perGroup: nat, tableLen: nat, groups: nat)
    requires tableLen == perGroup / 16
    ensures perGroup * groups <= 16 * (groups * tableLen) + 15 * groups
  {
    if groups > 0 {
      InodesHeld(perGroup, tableLen, groups - 1);
      assert perGroup * groups == perGroup * (groups - 1) + perGroup;
      assert groups * tableLen == (groups - 1) * tableLen + tableLen;
    }
  }

  /** The formatter takes an image if and only if it has at least 512 KiB and fewer
      than 260608 blocks, just under 1018 MiB. */
  lemma PlanSomeIff(imgSize: nat)
    ensures Plan(imgSize).Some? <==> DISK_MIN <= imgSize < 260608 * BLOCK
  {
    if imgSize >= DISK_MIN {
      var blocks := imgSize / BLOCK;
      var groups := (blocks + GROUP - 1) / GROUP;
      var perGroup := blocks * BLOCK / INODE_RATIO / groups;
      var tableLen := perGroup * INODE_SIZE / BLOCK;
      assert blocks * BLOCK / INODE_RATIO == blocks / 4;
      assert tableLen == perGroup / 16;
      PerGroup(blocks / 4, groups);
      TablesIff(blocks, groups, perGroup, tableLen);
      assert imgSize < 260608 * BLOCK <==> blocks < 260608;
    }
  }

  lemma TablesIff(blocks: nat, groups: nat, perGroup: nat, tableLen: nat)
    requires 0 < groups && (groups - 1) * GROUP < blocks <= groups * GROUP
    requires perGroup == blocks / 4 / groups <= GROUP / 4 && tableLen == perGroup / 16
    requires perGroup * groups + groups > blocks / 4
    ensures Align4(2 + groups + groups + groups * tableLen) + PBLOCK_NUM * 2 <= BLOCK <==> blocks < 260608
  {
    if groups <= 7 {
      assert groups * tableLen <= 7 * 512 by { MulAtMost(groups, 7, tableLen, 512); }
    } else if groups == 8 {
      assert tableLen == blocks / 512;
    } else {
      InodesHeld(perGroup, tableLen, groups);
    }
  }

  lemma MulAtMost(a: nat, b: nat, c: nat, d: nat)
    requires a <= b && c <= d
    ensures a * c <= b * d
  {
    assert b * d - a * c == (b - a) * d + a * (d - c);
  }

  // ----- the metadata areas -----

  datatype Area = Super | Gdt | BlockMap(g: nat) | InodeMap(g: nat) | Table(g: nat) | Root | Ctl

  ghost predicate Exists(l: Layout, a: Area) {
    (a.BlockMap? || a.InodeMap? || a.Table?) ==> a.g < l.groups
  }

  function Start(l: Layout, a: Area): nat {
    match a
    case Super => 0
    case Gdt => 1
    case BlockMap(g) => l.dBitmap + g
    case InodeMap(g) => l.iBitmap + g
    case Table(g) => l.table + g * l.tableLen
    case Root => l.dataStart
    case Ctl => l.dataStart + PBLOCK_NUM
  }

  function Length(l: Layout, a: Area): nat {
    match a
    case Table(_) => l.tableLen
    case Root => PBLOCK_NUM
    case Ctl => PBLOCK_NUM
    case _ => 1
  }

  /** The blocks set aside for areas of the same kind. */
  function Zone(l: Layout, a: Area): (nat, nat) {
    match a
    case Super => (0, 1)
    case Gdt => (1, 2)
    case BlockMap(_) => (l.dBitmap, l.iBitmap)
    case InodeMap(_) => (l.iBitmap, l.table)
    case Table(_) => (l.table, l.dataStart)
    case Root => (l.dataStart, l.dataStart + PBLOCK_NUM)
    case Ctl => (l.dataStart + PBLOCK_NUM, l.alloced)
  }

  lemma InZone(l: Layout, a: Area)
    requires Chained(l) && Exists(l, a)
    ensures Zone(l, a).0 <= Start(l, a) && Start(l, a) + Length(l, a) <= Zone(l, a).1 <= l.alloced
  {
    if a.Table? { Rows(a.g, l.groups, l.tableLen); }
  }

  /** No two metadata areas share a block, and all lie below `alloced`. A table has
      its rounded-down length here; the slots past it are `SlotsApartIff`. */
  lemma AreasApart(l: Layout, a: Area, b: Area)
    requires Chained(l) && Exists(l, a) && Exists(l, b) && a != b
    ensures Start(l, a) + Length(l, a) <= l.alloced
    ensures Start(l, a) + Length(l, a) <= Start(l, b) || Start(l, b) + Length(l, b) <= Start(l, a)
  {
    InZone(l, a);
    InZone(l, b);
    if Rank(a) < Rank(b) {
      ZoneOrder(l, a, b);
    } else if Rank(b) < Rank(a) {
      ZoneOrder(l, b, a);
    } else if a.Table? {
      TablesApart(l, a.g, b.g);
    }
  }

  function Rank(a: Area): nat {
    match a
    case Super => 0
    case Gdt => 1
    case BlockMap(_) => 2
    case InodeMap(_) => 3
    case Table(_) => 4
    case Root => 5
    case Ctl => 6
  }

  lemma ZoneOrder(l: Layout, a: Area, b: Area)
    requires Chained(l) && Rank(a) < Rank(b)
    ensures Zone(l, a).1 <= Zone(l, b).0
  {
  }

  lemma TablesApart(l: Layout, g: nat, h: nat)
    requires g != h
    ensures Start(l, Table(g)) + l.tableLen <= Start(l, Table(h)) || Start(l, Table(h)) + l.tableLen <= Start(l, Table(g))
  {
    if g < h { Rows(g, h, l.tableLen); } else { Rows(h, g, l.tableLen); }
  }

  // ----- the first block bitmap -----

  /** The buffer that carried the inode bitmap, refilled: whole bytes by memset,
      then the bits of a last partial byte. */
  method FillBlockBitmap(alloced: nat) returns (a: array<bv8>)
    requires 8 <= alloced <= BLOCK
    ensures fresh(a) && a.Length == BYTES
    ensures forall i :: 0 <= i < GROUP ==> (BitSet(a[i / 8], i % 8) <==> i < alloced)
  {
    a := new bv8[BYTES](i => if i == 0 then 7 else 0);
    var n := alloced / 8;
    for i := 0 to n
      invariant forall j :: 0 <= j < BYTES ==> a[j] == if j < i then 255 else if j == 0 then 7 else 0
    {
      a[i] := 255;
    }
    if alloced % 8 != 0 {
      a[n] := a[n] | LowMask(alloced % 8);
    }
    forall i | 0 <= i < GROUP
      ensures BitSet(a[i / 8], i % 8) <==> i < alloced
    {
      AllBits(i % 8);
      if i / 8 == n && alloced % 8 != 0 {
        LowBits(0, alloced % 8, i % 8);
      }
    }
  }

  /** The group bitmaps a formatted disk starts with. */
  ghost predicate Formatted(l: Layout, bm: seq<seq<bv8>>) {
    && Shaped(bm) && |bm| == l.groups
    && forall g, i :: 0 <= g < |bm| && 0 <= i < GROUP ==> (Bit(bm, g, i) <==> g == 0 && i < l.alloced)
  }

  /** The formatter's bitmaps: zero blocks, the first then overwritten. */
  method Format(imgSize: nat, ghost plan: Layout) returns (bm: seq<seq<bv8>>)
    requires Planned(imgSize, plan)
    ensures Formatted(plan, bm)
  {
    PlanFits(imgSize, plan);
    var l := Plan(imgSize).value;
    var first := FillBlockBitmap(l.alloced);
    bm := seq(l.groups, _ => seq(BYTES, _ => 0));
    bm := bm[0 := first[..]];
    forall g, i | 0 <= g < |bm| && 0 <= i < GROUP
      ensures Bit(bm, g, i) <==> g == 0 && i < l.alloced
    {
      AllBits(i % 8);
    }
  }

  /** A formatted bitmap marks exactly the blocks below `alloced`: the metadata
      and the extents of the two first inodes. */
  lemma FormattedSound(l: Layout, bm: seq<seq<bv8>>)
    requires Chained(l) && Sized(l) && Formatted(l, bm)
    ensures forall b :: 0 <= b < |bm| * GROUP ==> (BlockUsed(bm, b) <==> b < l.alloced)
    ensures Sound(bm, l.dataStart, [l.dataStart, l.dataStart + PBLOCK_NUM])
  {
    var ext := [l.dataStart, l.dataStart + PBLOCK_NUM];
    forall b | 0 <= b < |bm| * GROUP
      ensures BlockUsed(bm, b) <==> b < l.alloced
      ensures In(b, ext) <==> l.dataStart <= b < l.alloced
    {
      BlockBit(bm, b, b / GROUP, b % GROUP);
      TwoExtents(b, l.dataStart);
    }
  }

  lemma TwoExtents(b: nat, d: nat)
    ensures In(b, [d, d + PBLOCK_NUM]) <==> d <= b < d + 8
  {
    var ext := [d, d + PBLOCK_NUM];
    assert ext[0] == d && ext[1] == d + 4;
    if d <= b < d + 4 {
      assert ext[0] <= b < ext[0] + 4;
    } else if d <= b < d + 8 {
      assert ext[1] <= b < ext[1] + 4;
    }
  }

  /** On a formatted disk, over every run of allocations, no extent handed out
      meets a metadata area, the first two inodes' extents or another extent. */
  lemma AllocationsApart(imgSize: nat, l: Layout, bm: seq<seq<bv8>>, picks: seq<nat>, k: nat, a: Area)
    requires Planned(imgSize, l) && Formatted(l, bm) && Run(bm, picks) && k < |picks| && Exists(l, a)
    ensures picks[k] % 4 == 0
    ensures Start(l, a) + Length(l, a) <= picks[k]
    ensures forall j :: 0 <= j < |picks| && j != k ==> picks[j] + 4 <= picks[k] || picks[k] + 4 <= picks[j]
    ensures UsedCount(After(bm, picks)) == UsedCount(bm) + 4 * |picks|
  {
    assert Chained(l) && Sized(l) by { PlanFits(imgSize, l); }
    var two := [l.dataStart, l.dataStart + PBLOCK_NUM];
    assert Apart(|bm|, l.dataStart, two + picks) by {
      FormattedSound(l, bm);
      AllocationRun(bm, l.dataStart, two, picks);
    }
    PicksApart(|bm|, l.dataStart, picks, k);
    InZone(l, a);
    Conservation(bm, picks);
  }

  lemma PicksApart(n: nat, d: nat, picks: seq<nat>, k: nat)
    requires Apart(n, d, [d, d + PBLOCK_NUM] + picks) && k < |picks|
    ensures picks[k] % 4 == 0 && d + 8 <= picks[k]
    ensures forall j :: 0 <= j < |picks| && j != k ==> picks[j] + 4 <= picks[k] || picks[k] + 4 <= picks[j]
  {
    var all := [d, d + PBLOCK_NUM] + picks;
    assert all[0] == d && all[1] == d + 4 && all[k + 2] == picks[k];
    forall j | 0 <= j < |picks| && j != k
      ensures picks[j] + 4 <= picks[k] || picks[k] + 4 <= picks[j]
    {
      assert all[j + 2] == picks[j];
    }
  }

  /** Every block the bitmaps offer is on the disk exactly when the disk fills
      its last group. */
  lemma OffersOnDiskIff(l: Layout, bm: seq<seq<bv8>>)
    requires Chained(l) && Sized(l) && Formatted(l, bm)
    ensures (forall e: nat :: FreeExtent(bm, e) ==> e + 4 <= l.blocks) <==> l.blocks == l.groups * GROUP
  {
    if l.blocks == l.groups * GROUP {
      forall e: nat | FreeExtent(bm, e)
        ensures e + 4 <= l.blocks
      {
        FreeExtentBlocks(bm, e);
      }
    } else {
      FormattedSound(l, bm);
      var e := l.groups * GROUP - 4;
      FreeExtentBlocks(bm, e);
      assert FreeExtent(bm, e) && e + 4 > l.blocks;
    }
  }

  /** A formatted disk has exactly the metadata and the first two extents in use. */
  lemma FormattedCount(l: Layout, bm: seq<seq<bv8>>)
    requires Chained(l) && Sized(l) && Formatted(l, bm)
    ensures UsedCount(bm) == l.alloced
  {
    FormattedSound(l, bm);
    CountBelow(Flags(bm), l.alloced, |bm| * GROUP);
  }

  lemma {:induction false} CountBelow(f: seq<bool>, k: nat, n: nat)
    requires n <= |f| && forall b :: 0 <= b < |f| ==> (f[b] <==> b < k)
    ensures CountSet(f, n) == Min(k, n)
  {
    if n > 0 { CountBelow(f, k, n - 1); }
  }

  /** On every disk just formatted the count of used blocks is not the number of
      clear bits that `bitmap_pblock_count` reports for it. */
  lemma FormattedMiscounted(imgSize: nat, l: Layout, bm: seq<seq<bv8>>)
    requires Planned(imgSize, l) && Formatted(l, bm)
    ensures |bm| * GROUP - UsedCount(bm) != UsedCount(bm)
  {
    PlanFits(imgSize, l);
    FormattedCount(l, bm);
  }

  /** The smallest image: 128 blocks of which 16 are used. Its bitmap offers block
      128, and 32752 blocks are counted as used. */
  lemma SmallestImage(bm: seq<seq<bv8>>) returns (l: Layout)
    requires Formatted(Layout(128, 1, 32, 2, 3, 4, 2, 8, 16), bm)
    ensures Planned(DISK_MIN, l) && l.blocks == 128 && Formatted(l, bm)
    ensures FreeExtent(bm, 128) && UsedCount(bm) == 16 && |bm| * GROUP - UsedCount(bm) == 32752
  {
    l := Layout(128, 1, 32, 2, 3, 4, 2, 8, 16);
    PlanFits(DISK_MIN, l);
    FormattedSound(l, bm);
    FreeExtentBlocks(bm, 128);
    FormattedCount(l, bm);
  }

  // ----- inode slots -----

  /** Which 256-byte slot of the disk is slot `r` of group `g`. */
  function SlotIndex(l: Layout, g: nat, r: nat): nat {
    Start(l, Table(g)) * (BLOCK / INODE_SIZE) + r
  }

  /** `inode_get_offset`, of the inode with index `g * inodesPerGroup + r`. */
  function SlotAt(l: Layout, g: nat, r: nat): (off: nat)
    ensures off == SlotIndex(l, g, r) * INODE_SIZE
  {
    Start(l, Table(g)) * BLOCK + r * INODE_SIZE
  }

  ghost predicate SlotInTable(l: Layout, g: nat, r: nat) {
    SlotAt(l, g, r) + INODE_SIZE <= (Start(l, Table(g)) + l.tableLen) * BLOCK
  }

  lemma SlotEnd(l: Layout, g: nat, r: nat)
    requires Sized(l) && r < l.inodesPerGroup
    ensures l.inodesPerGroup % 16 == 0 ==> SlotInTable(l, g, r)
    ensures l.inodesPerGroup % 16 != 0 && r == l.inodesPerGroup - 1 ==> !SlotInTable(l, g, r)
  {
    var start := Start(l, Table(g));
    assert (start + l.tableLen) * BLOCK == start * BLOCK + l.inodesPerGroup / 16 * BLOCK;
  }

  /** Inode slots stay inside their group's table exactly when the inodes of a
      group fill whole blocks. */
  lemma SlotsInTableIff(l: Layout)
    requires Sized(l) && l.inodesPerGroup > 0
    ensures (forall g: nat, r: nat :: g < l.groups && r < l.inodesPerGroup ==> SlotInTable(l, g, r))
            <==> l.inodesPerGroup % 16 == 0
  {
    if l.inodesPerGroup % 16 == 0 {
      forall g: nat, r: nat | g < l.groups && r < l.inodesPerGroup
        ensures SlotInTable(l, g, r)
      {
        SlotEnd(l, g, r);
      }
    } else {
      SlotEnd(l, 0, l.inodesPerGroup - 1);
    }
  }

  /** Of two inodes the one with the smaller number lies before the other, in
      one group always and across groups when tables are not rounded down. */
  lemma SlotsInOrder(l: Layout, g: nat, r: nat, h: nat, q: nat)
    requires Sized(l) && r < l.inodesPerGroup && h < l.groups
    requires l.groups == 1 || l.inodesPerGroup % 16 == 0
    requires g < h || (g == h && r < q)
    ensures SlotAt(l, g, r) + INODE_SIZE <= SlotAt(l, h, q)
  {
    if g < h {
      SlotEnd(l, g, r);
      Rows(g, h, l.tableLen);
    }
  }

  // ----- inode slots and the other areas -----

  ghost predicate SlotBelowData(l: Layout, g: nat, r: nat) {
    SlotAt(l, g, r) + INODE_SIZE <= l.dataStart * BLOCK
  }

  /** The end of the last table, in bytes, and of the last slot. */
  lemma LastSlot(l: Layout, g: nat, r: nat)
    requires Sized(l) && g < l.groups && r < l.inodesPerGroup
    ensures SlotAt(l, g, r) + INODE_SIZE <= (l.table + l.groups * l.tableLen) * BLOCK + l.inodesPerGroup % 16 * INODE_SIZE
    ensures g == l.groups - 1 ==> SlotAt(l, g, 16 * l.tableLen) == (l.table + l.groups * l.tableLen) * BLOCK
  {
    Rows(g, l.groups, l.tableLen);
    assert (g + 1) * l.tableLen == g * l.tableLen + l.tableLen;
    assert l.inodesPerGroup == 16 * l.tableLen + l.inodesPerGroup % 16;
    if g < l.groups - 1 { Rows(g + 1, l.groups, l.tableLen); }
  }

  /** The layout arithmetic, with the data aligned behind the tables. */
  ghost predicate Laid(l: Layout) {
    Chained(l) && Sized(l) && l.dataStart == Align4(l.table + l.groups * l.tableLen)
  }

  lemma PlanLaid(imgSize: nat, l: Layout)
    requires Planned(imgSize, l)
    ensures Laid(l)
  {
    PlanFits(imgSize, l);
  }

  ghost predicate AllBelowData(l: Layout) {
    forall g: nat, r: nat :: g < l.groups && r < l.inodesPerGroup ==> SlotBelowData(l, g, r)
  }

  /** Slots end before the data, that is before the root directory, if and only if
      the inodes of a group fill whole blocks or the tables do not end on a
      multiple of four blocks. */
  lemma SlotsBelowDataIff(l: Layout)
    requires Laid(l) && l.inodesPerGroup > 0
    ensures AllBelowData(l) <==> l.inodesPerGroup % 16 == 0 || (l.table + l.groups * l.tableLen) % 4 != 0
  {
    var end := l.table + l.groups * l.tableLen;
    if l.inodesPerGroup % 16 == 0 || end % 4 != 0 {
      forall g: nat, r: nat | g < l.groups && r < l.inodesPerGroup
        ensures SlotBelowData(l, g, r)
      {
        LastSlot(l, g, r);
        RoundedUp(end, l.dataStart, l.inodesPerGroup % 16);
      }
    } else {
      SlotInRoot(l);
      assert !SlotBelowData(l, l.groups - 1, 16 * l.tableLen);
    }
  }

  lemma RoundedUp(end: nat, start: nat, extra: nat)
    requires start == Align4(end) && extra < 16 && (extra == 0 || end % 4 != 0)
    ensures end * BLOCK + extra * INODE_SIZE <= start * BLOCK
  {
  }

  /** Otherwise the first slot past the last table is the first byte of the root
      directory. */
  lemma SlotInRoot(l: Layout)
    requires Sized(l) && l.dataStart == l.table + l.groups * l.tableLen && l.inodesPerGroup % 16 != 0
    ensures 16 * l.tableLen < l.inodesPerGroup
    ensures SlotAt(l, l.groups - 1, 16 * l.tableLen) == Start(l, Root) * BLOCK
  {
    LastSlot(l, l.groups - 1, 16 * l.tableLen);
  }

  /** An image of 288 blocks: one group of 72 inodes, and the slot of inode 65 is
      the start of the root directory. */
  lemma RootAt288Blocks() returns (l: Layout)
    ensures Planned(288 * BLOCK, l) && l == Layout(288, 1, 72, 2, 3, 4, 4, 8, 16)
    ensures SlotAt(l, 0, 64) == Start(l, Root) * BLOCK
  {
    l := Layout(288, 1, 72, 2, 3, 4, 4, 8, 16);
  }

  ghost predicate Meets(l: Layout, g: nat, r: nat, a: Area) {
    SlotAt(l, g, r) < (Start(l, a) + Length(l, a)) * BLOCK && Start(l, a) * BLOCK < SlotAt(l, g, r) + INODE_SIZE
  }

  /** Areas other than the tables are before these or from the data on. */
  lemma AreaPlace(l: Layout, a: Area)
    requires Chained(l) && Exists(l, a) && !a.Table?
    ensures Start(l, a) + Length(l, a) <= l.table || Start(l, a) >= l.dataStart
    ensures a.Ctl? ==> Start(l, a) == l.dataStart + PBLOCK_NUM
  {
  }

  /** A slot that ends before the data meets none of these, and others at most the
      root directory. */
  lemma SlotMeets(l: Layout, g: nat, r: nat, a: Area)
    requires Laid(l) && g < l.groups && r < l.inodesPerGroup && Exists(l, a) && !a.Table?
    ensures Meets(l, g, r, a) ==> a.Root?
    ensures SlotBelowData(l, g, r) ==> !Meets(l, g, r, a)
  {
    AreaPlace(l, a);
    SlotSpan(l, g, r);
    Outside(Start(l, a), Length(l, a), l.table, l.dataStart, SlotAt(l, g, r));
  }

  lemma SlotSpan(l: Layout, g: nat, r: nat)
    requires Sized(l) && l.table + l.groups * l.tableLen <= l.dataStart && g < l.groups && r < l.inodesPerGroup
    ensures l.table * BLOCK <= SlotAt(l, g, r) && SlotAt(l, g, r) + INODE_SIZE <= (l.dataStart + 1) * BLOCK
  {
    SlotStart(l.table, g, l.tableLen, r);
    LastSlot(l, g, r);
    SpanEnd(l.table + l.groups * l.tableLen, l.dataStart, l.inodesPerGroup % 16);
  }

  lemma SlotStart(table: nat, g: nat, len: nat, r: nat)
    ensures table * BLOCK <= (table + g * len) * BLOCK + r * INODE_SIZE
  {
    assert g * len >= 0;
  }

  lemma SpanEnd(end: nat, data: nat, extra: nat)
    requires end <= data && extra < 16
    ensures end * BLOCK + extra * INODE_SIZE <= (data + 1) * BLOCK
  {
  }

  lemma Outside(start: nat, len: nat, table: nat, data: nat, slot: nat)
    requires table * BLOCK <= slot && slot + INODE_SIZE <= (data + 1) * BLOCK
    requires start + len <= table || start >= data
    ensures start != data && (start + len <= table || start > data) ==> slot >= (start + len) * BLOCK || start * BLOCK >= slot + INODE_SIZE
    ensures slot + INODE_SIZE <= data * BLOCK ==> slot >= (start + len) * BLOCK || start * BLOCK >= slot + INODE_SIZE
  {
  }

  ghost predicate AllDisjoint(l: Layout) {
    forall g: nat, r: nat, h: nat, q: nat ::
      g < l.groups && h < l.groups && r < l.inodesPerGroup && q < l.inodesPerGroup && !SameInode(g, r, h, q)
      ==> SlotsDisjoint(l, g, r, h, q)
  }

  /** No slot meets a bitmap, the descriptors, the root directory or the control
      file. */
  ghost predicate NoneMeets(l: Layout) {
    forall g: nat, r: nat, a: Area ::
      g < l.groups && r < l.inodesPerGroup && Exists(l, a) && !a.Table? ==> !Meets(l, g, r, a)
  }

  lemma NoneMeetsIff(l: Layout)
    requires Laid(l)
    ensures NoneMeets(l) <==> AllBelowData(l)
  {
    if AllBelowData(l) {
      forall g: nat, r: nat, a: Area | g < l.groups && r < l.inodesPerGroup && Exists(l, a) && !a.Table?
        ensures !Meets(l, g, r, a)
      {
        assert SlotBelowData(l, g, r);
        SlotMeets(l, g, r, a);
      }
    } else {
      var g: nat, r: nat :| g < l.groups && r < l.inodesPerGroup && !SlotBelowData(l, g, r);
      LastSlot(l, g, r);
      assert Meets(l, g, r, Root);
    }
  }

  /** On a formatted disk no two inodes share a byte and none shares one with
      another area, if and only if the inodes of a group fill whole blocks, or there
      is one group whose table does not end on a multiple of four blocks. */
  lemma SlotsApartIff(imgSize: nat, l: Layout)
    requires Planned(imgSize, l) && l.inodesPerGroup > 0
    ensures AllDisjoint(l) && NoneMeets(l) <==> l.inodesPerGroup % 16 == 0 || (l.groups == 1 && l.tableLen % 4 != 0)
  {
    PlanLaid(imgSize, l);
    LaidApartIff(l);
  }

  lemma LaidApartIff(l: Layout)
    requires Laid(l) && l.inodesPerGroup > 0
    ensures AllDisjoint(l) && NoneMeets(l) <==> l.inodesPerGroup % 16 == 0 || (l.groups == 1 && l.tableLen % 4 != 0)
  {
    SlotsDisjointIff(l);
    assert NoneMeets(l) <==> l.inodesPerGroup % 16 == 0 || (l.table + l.groups * l.tableLen) % 4 != 0 by {
      NoneMeetsIff(l);
      SlotsBelowDataIff(l);
    }
    if l.groups == 1 {
      OneTable(l.table, l.groups, l.tableLen);
    }
  }

  lemma OneTable(table: nat, groups: nat, len: nat)
    requires table == 4 && groups == 1
    ensures (table + groups * len) % 4 == len % 4
  {
    assert groups * len == len;
  }

  /** Otherwise the first slot past the first group's table is the first slot of
      the second group, byte for byte. */
  lemma SlotShared(l: Layout)
    requires Sized(l) && l.groups >= 2 && l.inodesPerGroup % 16 != 0
    ensures l.inodesPerGroup - l.inodesPerGroup % 16 < l.inodesPerGroup
    ensures SlotAt(l, 0, l.inodesPerGroup - l.inodesPerGroup % 16) == SlotAt(l, 1, 0)
  {
    assert l.inodesPerGroup - l.inodesPerGroup % 16 == 16 * l.tableLen;
    assert 1 * l.tableLen == l.tableLen && 0 * l.tableLen == 0;
  }

  ghost predicate SameInode(g: nat, r: nat, h: nat, q: nat) {
    g == h && r == q
  }

  ghost predicate SlotsDisjoint(l: Layout, g: nat, r: nat, h: nat, q: nat) {
    SlotAt(l, g, r) + INODE_SIZE <= SlotAt(l, h, q) || SlotAt(l, h, q) + INODE_SIZE <= SlotAt(l, g, r)
  }

  /** All slots are pairwise disjoint if and only if there is one group or the
      inodes of a group fill whole blocks. */
  lemma SlotsDisjointIff(l: Layout)
    requires Sized(l) && l.inodesPerGroup > 0
    ensures AllDisjoint(l) <==> l.groups == 1 || l.inodesPerGroup % 16 == 0
  {
    if l.groups == 1 || l.inodesPerGroup % 16 == 0 {
      forall g: nat, r: nat, h: nat, q: nat |
        g < l.groups && h < l.groups && r < l.inodesPerGroup && q < l.inodesPerGroup && !SameInode(g, r, h, q)
        ensures SlotsDisjoint(l, g, r, h, q)
      {
        if g < h || (g == h && r < q) { SlotsInOrder(l, g, r, h, q); } else { SlotsInOrder(l, h, q, g, r); }
      }
    } else {
      SlotShared(l);
      var r := l.inodesPerGroup - l.inodesPerGroup % 16;
      assert !SameInode(0, r, 1, 0) && !SlotsDisjoint(l, 0, r, 1, 0);
    }
  }

  /** A 700 MiB image: six groups of 7466 inodes, so slot 7456 of the first is
      slot 0 of the second. */
  lemma SharedAt700MiB() returns (l: Layout)
    ensures Planned(700 * 1024 * 1024, l) && Sized(l) && l.groups == 6 && l.inodesPerGroup == 7466
    ensures SlotAt(l, 0, 7456) == SlotAt(l, 1, 0)
  {
    l := Layout(179200, 6, 7466, 2, 8, 14, 466, 2812, 2820);
    assert Align4(14 + 6 * 466) == 2812;
    PlanFits(700 * 1024 * 1024, l);
    SlotShared(l);
  }
}
