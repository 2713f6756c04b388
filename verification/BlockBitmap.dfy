/** The in-memory block bitmap: searching for a free extent and marking it. */
module BlockBitmap {
  import opened Bits
  import opened Common
  import opened BlockAlloc

  ghost predicate HasFree(bytes: seq<bv8>)
    requires |bytes| == BYTES
  {
    exists q: nat :: q < UNITS && FreeUnit(bytes, q)
  }

  lemma ExtentOfUnit(bm: seq<seq<bv8>>, g: nat, q: nat)
    requires Shaped(bm) && g < |bm| && q < UNITS
    ensures (g * GROUP + 4 * q) / GROUP == g
    ensures FreeExtent(bm, g * GROUP + 4 * q) <==> FreeUnit(bm[g], q)
  {
    UnitPlace(g, q, g * GROUP + 4 * q);
  }

  lemma UnitPlace(g: nat, q: nat, e: nat)
    requires q < UNITS && e == g * GROUP + 4 * q
    ensures e / GROUP == g && e % GROUP / 4 == q && e % 4 == 0
  {
    ModUnique(e, g, 4 * q, GROUP);
    ModUnique(e, 8192 * g + q, 0, 4);
  }

  /** No group has a free unit when no extent is free, and conversely. */
  lemma NoneFree(bm: seq<seq<bv8>>)
    requires Shaped(bm)
    ensures (forall e :: !FreeExtent(bm, e)) <==> forall g :: 0 <= g < |bm| ==> !HasFree(bm[g])
  {
    if e: nat :| FreeExtent(bm, e) {
      assert HasFree(bm[e / GROUP]);
    }
    if g: nat :| 0 <= g < |bm| && HasFree(bm[g]) {
      var q: nat :| q < UNITS && FreeUnit(bm[g], q);
      ExtentOfUnit(bm, g, q);
      assert FreeExtent(bm, g * GROUP + 4 * q);
    }
  }

  /** The block number of a unit, in 32-bit arithmetic. */
  function BlockOf(g: nat, q: nat): (b: nat)
    requires q < UNITS && (g + 1) * GROUP <= 0x1_0000_0000
    ensures b == g * GROUP + 4 * q < 0x1_0000_0000
  {
    (g * GROUP + q * 4) % 0x1_0000_0000
  }

  function Next(i: nat, n: nat): (r: nat)
    requires i < n
    ensures r < n && r == (if i + 1 == n then 0 else i + 1)
  {
    (i + 1) % n
  }

  /** Group `h` lies behind the scan that left `g` and stands at `i`. */
  ghost predicate Passed(h: nat, g: nat, i: nat) {
    h == g || (if i > g then g < h < i else h > g || h < i)
  }

  /** The extent is the lowest free one of its group. */
  ghost predicate Lowest(bm: seq<seq<bv8>>, r: nat)
    requires Shaped(bm)
  {
    FreeExtent(bm, r) && forall e: nat :: FreeExtent(bm, e) && e / GROUP == r / GROUP ==> r <= e
  }

  /** It is what a search that starts in group `g` and wraps round meets first. */
  ghost predicate FirstFrom(bm: seq<seq<bv8>>, g: nat, r: nat)
    requires Shaped(bm) && g < |bm|
  {
    && Lowest(bm, r)
    && forall h: nat :: h < |bm| && Behind(g, h, |bm|) < Behind(g, r / GROUP, |bm|) ==> !HasFree(bm[h])
  }

  /** How many groups past `g`, wrapping round, group `h` is. */
  function Behind(g: nat, h: nat, n: nat): (d: nat)
    requires g < n && h < n
    ensures d < n && (g + d == h || g + d == h + n)
  {
    if h >= g then h - g else h + n - g
  }

  lemma PassedIff(h: nat, g: nat, i: nat, n: nat)
    requires h < n && g < n && i < n && i != g
    ensures Passed(h, g, i) <==> Behind(g, h, n) < Behind(g, i, n)
  {
  }

  lemma LowestUnit(bm: seq<seq<bv8>>, g: nat, q: nat)
    requires Shaped(bm) && g < |bm| && q < UNITS && FreeUnit(bm[g], q)
    requires forall j :: 0 <= j < q ==> !FreeUnit(bm[g], j)
    ensures Lowest(bm, g * GROUP + 4 * q) && (g * GROUP + 4 * q) / GROUP == g
  {
    ExtentOfUnit(bm, g, q);
    forall e: nat | FreeExtent(bm, e) && e / GROUP == g
      ensures g * GROUP + 4 * q <= e
    {
      var j := e % GROUP / 4;
      assert FreeUnit(bm[g], j) && j >= q;
      assert e == g * GROUP + e % GROUP;
    }
  }

  /** What `bitmap_pblock_set` asserts of a block: its group, in 32 bits, exists. */
  predicate SetAsserts(e: nat, groups: nat) {
    e / GROUP % 0x1_0000_0000 < groups
  }

  lemma GroupAsserted(bm: seq<seq<bv8>>, e: nat)
    requires Shaped(bm) && |bm| * GROUP <= 0x1_0000_0000 && (e == NONE || FreeExtent(bm, e))
    ensures SetAsserts(e, |bm|) <==> e != NONE
  {
    if e == NONE {
      NoneGroup();
    } else {
      FreeExtentBlocks(bm, e);
      BlockGroup(e, |bm|);
    }
  }

  lemma NoneGroup()
    ensures NONE / GROUP % 0x1_0000_0000 == 0xFFFF_FFFF
  {
    ModUnique(NONE, 0x1_FFFF_FFFF_FFFF, GROUP - 1, GROUP);
    ModUnique(0x1_FFFF_FFFF_FFFF, 0x1_FFFF, 0xFFFF_FFFF, 0x1_0000_0000);
  }

  lemma BlockGroup(e: nat, groups: nat)
    requires e < groups * GROUP <= 0x1_0000_0000
    ensures SetAsserts(e, groups) && e != NONE
  {
    var g := e / GROUP;
    assert g * GROUP <= e;
    ModUnique(g, 0, g, 0x1_0000_0000);
  }

  class DBitmap {
    var bm: seq<seq<bv8>>
    var dirty: seq<bool>

    ghost predicate Valid()
      reads this
    {
      Shaped(bm) && |dirty| == |bm|
    }

    /** The scan of one group: its lowest free unit. */
    method ScanGroup(g: nat) returns (q: int)
      requires Valid() && g < |bm|
      ensures q == -1 <==> !HasFree(bm[g])
      ensures q != -1 ==> 0 <= q < UNITS && FreeUnit(bm[g], q)
      ensures q != -1 ==> forall j :: 0 <= j < q ==> !FreeUnit(bm[g], j)
    {
      for i := 0 to UNITS
        invariant forall j :: 0 <= j < i ==> !FreeUnit(bm[g], j)
      {
        if FreeUnit(bm[g], i) {
          return i;
        }
      }
      return -1;
    }

    /** `bitmap_pblock_find`. The wrapping loop starts at the next group without
        the modulus, so it is entered only with a next group to look at. */
    method PblockFind(inodeIdx: nat, inodesPerGroup: nat) returns (r: nat)
      requires Valid() && |bm| * GROUP <= 0x1_0000_0000
      requires inodesPerGroup > 0 && inodeIdx / inodesPerGroup < |bm|
      requires inodeIdx / inodesPerGroup + 1 < |bm| || HasFree(bm[inodeIdx / inodesPerGroup])
      ensures r == NONE <==> forall e :: !FreeExtent(bm, e)
      ensures r != NONE ==> FirstFrom(bm, inodeIdx / inodesPerGroup, r)
      ensures HasFree(bm[inodeIdx / inodesPerGroup]) ==> r / GROUP == inodeIdx / inodesPerGroup
    {
      var g := inodeIdx / inodesPerGroup;
      NoneFree(bm);
      var q := ScanGroup(g);
      if q != -1 {
        LowestUnit(bm, g, q);
        return BlockOf(g, q);
      }
      r := WrapScan(g);
    }

    /** The search of the other groups, wrapping round. */
    method WrapScan(g: nat) returns (r: nat)
      requires Valid() && |bm| * GROUP <= 0x1_0000_0000 && g + 1 < |bm| && !HasFree(bm[g])
      ensures r == NONE <==> forall h :: 0 <= h < |bm| ==> !HasFree(bm[h])
      ensures r != NONE ==> FirstFrom(bm, g, r)
    {
      var i := g + 1;
      while i != g
        invariant 0 <= i < |bm|
        invariant forall h :: 0 <= h < |bm| && Passed(h, g, i) ==> !HasFree(bm[h])
        decreases if i > g then |bm| - i + g else g - i
      {
        var q := ScanGroup(i);
        if q != -1 {
          LowestUnit(bm, i, q);
          forall h: nat | h < |bm| && Behind(g, h, |bm|) < Behind(g, i, |bm|)
            ensures !HasFree(bm[h])
          {
            PassedIff(h, g, i, |bm|);
          }
          return BlockOf(i, q);
        }
        i := Next(i, |bm|);
      }
      assert forall h :: 0 <= h < |bm| ==> Passed(h, g, g);
      return NONE;
    }

    /** `bitmap_pblock_set(e, 4, 1)`. */
    method PblockSet(e: nat)
      requires Valid() && e < |bm| * GROUP
      modifies this
      ensures Valid() && bm == Mark(old(bm), e) && dirty == old(dirty)[e / GROUP := true]
    {
      var g := e / GROUP;
      bm := bm[g := SetUnit(bm[g], e % GROUP / 4)];
      dirty := dirty[g := true];
    }

    /** Find, then set, as the callers that give an inode its blocks do. None of them
        tests for the all-ones value: on a full disk `bitmap_pblock_set` gets it, and
        its assertion fails before a bit is set. */
    method Allocate(inodeIdx: nat, inodesPerGroup: nat, ghost meta: nat, ghost ext: seq<nat>) returns (e: nat)
      requires Valid() && |bm| * GROUP <= 0x1_0000_0000 && Sound(bm, meta, ext) && meta % 4 == 0
      requires inodesPerGroup > 0 && inodeIdx / inodesPerGroup < |bm|
      requires inodeIdx / inodesPerGroup + 1 < |bm| || HasFree(bm[inodeIdx / inodesPerGroup])
      modifies this
      ensures Valid()
      ensures e == NONE <==> forall b :: 0 <= b < |old(bm)| * GROUP ==> BlockUsed(old(bm), b)
      ensures SetAsserts(e, |old(bm)|) <==> e != NONE
      ensures e == NONE ==> bm == old(bm) && dirty == old(dirty)
      ensures e != NONE ==>
                && FirstFrom(old(bm), inodeIdx / inodesPerGroup, e) && bm == Mark(old(bm), e)
                && Sound(bm, meta, ext + [e]) && UsedCount(bm) == UsedCount(old(bm)) + 4
    {
      NoFragments(bm, meta, ext);
      e := PblockFind(inodeIdx, inodesPerGroup);
      GroupAsserted(bm, e);
      if SetAsserts(e, |bm|) {
        MarkKeeps(bm, meta, ext, e);
        MarkCount(bm, e);
        PblockSet(e);
      }
    }

    /** `bitmap_pblock_count`. The test is for a clear bit, so the two counts come
        out exchanged: right only when just half the blocks are used. */
    method PblockCount() returns (used: nat, free: nat)
      requires Valid()
      ensures free == UsedCount(bm) && used + free == |bm| * GROUP
      ensures used == UsedCount(bm) <==> 2 * UsedCount(bm) == |bm| * GROUP
    {
      used, free := 0, 0;
      ghost var f := Flags(bm);
      for g := 0 to |bm|
        invariant used + free == g * GROUP && free == CountSet(f, g * GROUP)
      {
        used, free := CountGroup(g, used, free, f);
      }
    }

    /** The inner loop. */
    method CountGroup(g: nat, used0: nat, free0: nat, ghost f: seq<bool>) returns (used: nat, free: nat)
      requires Valid() && g < |bm| && f == Flags(bm)
      requires used0 + free0 == g * GROUP && free0 == CountSet(f, g * GROUP)
      ensures used + free == (g + 1) * GROUP && free == CountSet(f, (g + 1) * GROUP)
    {
      used, free := used0, free0;
      ghost var b: nat := g * GROUP;
      for j := 0 to GROUP
        invariant used + free == b == g * GROUP + j <= |f| && free == CountSet(f, b)
      {
        CountStep(bm, f, g, j, b);
        b := b + 1;
        if bm[g][j / 8] & Mask1(j % 8) == 0 {
          used := used + 1;
        } else {
          free := free + 1;
        }
      }
      assert b == (g + 1) * GROUP;
    }
  }

  lemma CountStep(bm: seq<seq<bv8>>, f: seq<bool>, g: nat, j: nat, b: nat)
    requires Shaped(bm) && g < |bm| && j < GROUP && b == g * GROUP + j && f == Flags(bm)
    ensures b < |f| && CountSet(f, b + 1) == CountSet(f, b) + if bm[g][j / 8] & Mask1(j % 8) == 0 then 0 else 1
  {
    BlockBit(bm, b, g, j);
  }
}
