/** The inode cache on a disk the formatter laid out: when every inode has a slot
    of its own, and what is lost when not. */
module InodeSlots {
  import opened Common
  import opened Mkfs
  import Cache = InodeCache

  /** The slots of the inodes numbered 1, 2, and so on. */
  function Slots(l: Layout): (s: seq<nat>)
    requires l.inodesPerGroup > 0
    ensures |s| == l.groups * l.inodesPerGroup
  {
    seq<nat>(l.groups * l.inodesPerGroup, i requires i >= 0 => SlotIndex(l, i / l.inodesPerGroup, i % l.inodesPerGroup))
  }

  lemma SlotOf(l: Layout, g: nat, r: nat)
    requires g < l.groups && r < l.inodesPerGroup
    ensures var i := g * l.inodesPerGroup + r;
            i < |Slots(l)| && Slots(l)[i] == SlotIndex(l, g, r)
  {
    var p := l.inodesPerGroup;
    Rows(g, l.groups, p);
    ModUnique(g * p + r, g, r, p);
  }

  /** The group and the place in it of an inode. */
  lemma Coordinates(l: Layout, i: nat) returns (g: nat, r: nat)
    requires l.inodesPerGroup > 0 && i < |Slots(l)|
    ensures g < l.groups && r < l.inodesPerGroup && i == g * l.inodesPerGroup + r
    ensures Slots(l)[i] == SlotIndex(l, g, r)
  {
    var p := l.inodesPerGroup;
    g, r := i / p, i % p;
    assert i == g * p + r;
    if l.groups < g { Rows(l.groups, g, p); }
    SlotOf(l, g, r);
  }

  lemma InOrder(g: nat, r: nat, h: nat, q: nat, p: nat)
    requires r < p && q < p && g * p + r < h * p + q
    ensures g < h || (g == h && r < q)
  {
    if h < g { Rows(h, g, p); }
  }

  /** The inodes of a formatted disk have slots of their own if and only if there
      is one group or the inodes of a group fill whole blocks. */
  lemma ApartIff(l: Layout)
    requires Sized(l) && l.inodesPerGroup > 0
    ensures Cache.Apart(Slots(l)) <==> l.groups == 1 || l.inodesPerGroup % 16 == 0
  {
    var s := Slots(l);
    if l.groups == 1 || l.inodesPerGroup % 16 == 0 {
      forall i, j | 0 <= i < j < |s|
        ensures s[i] != s[j]
      {
        var g, r := Coordinates(l, i);
        var h, q := Coordinates(l, j);
        InOrder(g, r, h, q, l.inodesPerGroup);
        SlotsInOrder(l, g, r, h, q);
      }
    } else {
      var r := l.inodesPerGroup - l.inodesPerGroup % 16;
      SlotShared(l);
      SlotOf(l, 0, r);
      SlotOf(l, 1, 0);
      assert s[r] == s[l.inodesPerGroup];
    }
  }

  lemma SlotBound(l: Layout) returns (n: nat)
    requires l.inodesPerGroup > 0
    ensures forall k :: 0 <= k < |Slots(l)| ==> Slots(l)[k] < n
  {
    n := SlotIndex(l, l.groups, l.inodesPerGroup);
    forall k | 0 <= k < |Slots(l)|
      ensures Slots(l)[k] < n
    {
      var g, r := Coordinates(l, k);
      Rows(g, l.groups, l.tableLen);
    }
  }

  /** On a formatted disk every run of the cache, with its evictions and the
      unmount, keeps every live inode if and only if there is one group or the
      inodes of a group fill whole blocks. The cache is the only writer here; what
      it shares with the directory code is `RootUntouchedIff`. */
  lemma FormattedCacheIff<I(!new)>(imgSize: nat, l: Layout, x: I, y: I)
    requires Planned(imgSize, l) && l.inodesPerGroup > 0 && x != y
    ensures (forall c: Cache.Cache<I>, s: map<nat, I>, ops: seq<Cache.Op<I>> ::
               c.slots == Slots(l) && Cache.Mounted(c, s) ==> Cache.Kept(c, s, ops))
            <==> l.groups == 1 || l.inodesPerGroup % 16 == 0
  {
    PlanFits(imgSize, l);
    ApartIff(l);
    var n := SlotBound(l);
    Cache.KeptIff(Slots(l), n, x, y);
  }

  /** The slots of the disk that the root directory's blocks are. */
  ghost predicate InRoot(l: Layout, j: nat) {
    Start(l, Root) * (BLOCK / INODE_SIZE) <= j < (Start(l, Root) + PBLOCK_NUM) * (BLOCK / INODE_SIZE)
  }

  ghost predicate RootFree(l: Layout, slots: seq<nat>) {
    forall k :: 0 <= k < |slots| ==> !InRoot(l, slots[k])
  }

  /** No inode's slot is in the root directory if and only if the inodes of a group
      fill whole blocks or the tables do not end on a multiple of four. */
  lemma RootFreeIff(l: Layout, slots: seq<nat>)
    requires Laid(l) && l.inodesPerGroup > 0 && slots == Slots(l)
    ensures RootFree(l, slots) <==> l.inodesPerGroup % 16 == 0 || (l.table + l.groups * l.tableLen) % 4 != 0
  {
    SlotsBelowDataIff(l);
    if AllBelowData(l) {
      forall k | 0 <= k < |slots|
        ensures !InRoot(l, slots[k])
      {
        var g, r := Coordinates(l, k);
        assert SlotBelowData(l, g, r);
        BeforeRoot(l, g, r);
      }
    } else {
      var k := RootTaken(l);
      assert InRoot(l, slots[k]);
    }
  }

  lemma RootTaken(l: Layout) returns (k: nat)
    requires Laid(l) && l.inodesPerGroup % 16 != 0 && (l.table + l.groups * l.tableLen) % 4 == 0
    ensures k < |Slots(l)| && InRoot(l, Slots(l)[k])
  {
    SlotInRoot(l);
    AtRoot(l, l.groups - 1, 16 * l.tableLen);
    k := TakenAt(l, l.groups - 1, 16 * l.tableLen);
  }

  lemma TakenAt(l: Layout, g: nat, r: nat) returns (k: nat)
    requires g < l.groups && r < l.inodesPerGroup && InRoot(l, SlotIndex(l, g, r))
    ensures k < |Slots(l)| && InRoot(l, Slots(l)[k])
  {
    SlotOf(l, g, r);
    k := g * l.inodesPerGroup + r;
  }

  lemma BeforeRoot(l: Layout, g: nat, r: nat)
    requires SlotBelowData(l, g, r)
    ensures !InRoot(l, SlotIndex(l, g, r))
  {
  }

  lemma AtRoot(l: Layout, g: nat, r: nat)
    requires SlotAt(l, g, r) == Start(l, Root) * BLOCK
    ensures SlotIndex(l, g, r) == 16 * Start(l, Root) && InRoot(l, SlotIndex(l, g, r))
  {
  }

  /** Every run of the cache on a formatted disk leaves the root directory's blocks
      alone under the same condition, and only then. */
  lemma RootUntouchedIff<I(!new)>(imgSize: nat, l: Layout, n: nat, x: I, y: I)
    requires Planned(imgSize, l) && l.inodesPerGroup > 0 && x != y
    requires l.alloced * (BLOCK / INODE_SIZE) <= n
    ensures (forall c: Cache.Cache<I>, s: map<nat, I>, ops: seq<Cache.Op<I>>, j: nat ::
               c.slots == Slots(l) && |c.disk| == n && Cache.Mounted(c, s) && InRoot(l, j) ==> Cache.Untouched(c, s, ops, j))
            <==> l.inodesPerGroup % 16 == 0 || (l.table + l.groups * l.tableLen) % 4 != 0
  {
    PlanLaid(imgSize, l);
    var slots := Slots(l);
    RootFreeIff(l, slots);
    SlotsFit(l, n);
    if !RootFree(l, slots) {
      var k :| 0 <= k < |slots| && InRoot(l, slots[k]);
      var c, ops := Cache.Overwrite(slots, n, k + 1, x, y);
      assert InRoot(l, slots[k]) && !Cache.Untouched(c, map[], ops, slots[k]);
    } else {
      forall c: Cache.Cache<I>, s: map<nat, I>, ops: seq<Cache.Op<I>>, j: nat |
        c.slots == slots && |c.disk| == n && Cache.Mounted(c, s) && InRoot(l, j)
        ensures Cache.Untouched(c, s, ops, j)
      {
        Cache.UntouchedIff(slots, n, j, x, y);
      }
    }
  }

  lemma SlotsFit(l: Layout, n: nat)
    requires Laid(l) && l.inodesPerGroup > 0 && l.alloced * (BLOCK / INODE_SIZE) <= n
    ensures forall k :: 0 <= k < |Slots(l)| ==> Slots(l)[k] < n
  {
    forall k | 0 <= k < |Slots(l)|
      ensures Slots(l)[k] < n
    {
      var g, r := Coordinates(l, k);
      LastSlot(l, g, r);
    }
  }

  /** On an image of 288 blocks, creating inode 65 overwrites the root directory. */
  lemma LostRootAt288Blocks<I>(x: I, y: I) returns (l: Layout, c: Cache.Cache<I>, ops: seq<Cache.Op<I>>)
    requires x != y
    ensures Planned(288 * BLOCK, l) && l.inodesPerGroup > 0 && c.slots == Slots(l) && InRoot(l, 128)
    ensures Cache.Mounted(c, map[]) && Cache.Run(c, map[], ops) && !Cache.Untouched(c, map[], ops, 128)
  {
    l := RootAt288Blocks();
    SlotOf(l, 0, 64);
    AtRoot(l, 0, 64);
    c, ops := Cache.Overwrite(Slots(l), 4608, 65, x, y);
  }

  /** On a 700 MiB image inode 7457 is lost when inode 7467 is created after it. */
  lemma LostAt700MiB<I>(x: I, y: I) returns (l: Layout, c: Cache.Cache<I>, s: map<nat, I>, ops: seq<Cache.Op<I>>)
    requires x != y
    ensures Planned(700 * 1024 * 1024, l) && l.inodesPerGroup > 0 && c.slots == Slots(l)
    ensures s == map[] && Cache.Mounted(c, s) && Cache.Run(c, s, ops) && !Cache.Kept(c, s, ops)
    ensures var (d, t) := Cache.After(c, s, ops);
            Cache.Shape(d) && 7457 in t && t[7457] == x && Cache.OnDisk(Cache.Flushed(d, d.count), 7457, y)
  {
    l := SharedAt700MiB();
    SlotOf(l, 0, 7456);
    SlotOf(l, 1, 0);
    var n := SlotBound(l);
    c, s, ops := Cache.LostWrite(Slots(l), n, 7457, 7467, x, y);
  }
}
