/** The block bitmap and its allocator, which hands out aligned extents of four
    blocks. */
module BlockAlloc {
  import opened Bits
  import opened Common

  const GROUP: nat := 32768   // blocks of a group
  const BYTES: nat := 4096    // bytes of a group's bitmap
  const UNITS: nat := 8192    // four-block units of a group
  const NONE: nat := 0xFFFF_FFFF_FFFF_FFFF

  /** One bitmap per group. */
  ghost predicate Shaped(bm: seq<seq<bv8>>) {
    forall g :: 0 <= g < |bm| ==> |bm[g]| == BYTES
  }

  predicate Bit(bm: seq<seq<bv8>>, g: nat, i: nat)
    requires Shaped(bm) && g < |bm| && i < GROUP
  {
    BitSet(bm[g][i / 8], i % 8)
  }

  /** Block `b` is bit `i` of group `g`. */
  ghost predicate Place(b: nat, g: nat, i: nat) {
    i < GROUP && b == g * GROUP + i
  }

  ghost predicate BlockUsed(bm: seq<seq<bv8>>, b: nat)
    requires Shaped(bm)
  {
    forall g: nat, i: nat {:trigger Place(b, g, i)} :: Place(b, g, i) && g < |bm| ==> Bit(bm, g, i)
  }

  lemma BlockBit(bm: seq<seq<bv8>>, b: nat, g: nat, i: nat)
    requires Shaped(bm) && Place(b, g, i) && g < |bm|
    ensures BlockUsed(bm, b) == Bit(bm, g, i)
  {
    forall h: nat, k: nat | Place(b, h, k)
      ensures h == g && k == i
    {
      assert h == b / GROUP && g == b / GROUP;
    }
  }

  /** `BIT4`. */
  predicate FreeUnit(bytes: seq<bv8>, q: nat)
    requires |bytes| == BYTES && q < UNITS
  {
    bytes[q / 2] & Mask4(q % 2) == 0
  }

  /** `SET_BIT4` with a used mark. */
  function SetUnit(bytes: seq<bv8>, q: nat): (r: seq<bv8>)
    requires |bytes| == BYTES && q < UNITS
    ensures |r| == BYTES
  {
    bytes[q / 2 := bytes[q / 2] | Mask4(q % 2)]
  }

  // ----- units and their four bits -----

  lemma UnitBit(q: nat, j: nat)
    requires j < 4
    ensures (4 * q + j) / 8 == q / 2 && (4 * q + j) % 8 == 4 * (q % 2) + j
  {
  }

  lemma FreeUnitBits(bm: seq<seq<bv8>>, g: nat, q: nat)
    requires Shaped(bm) && g < |bm| && q < UNITS
    ensures FreeUnit(bm[g], q) <==>
              !Bit(bm, g, 4 * q) && !Bit(bm, g, 4 * q + 1) && !Bit(bm, g, 4 * q + 2) && !Bit(bm, g, 4 * q + 3)
  {
    ClearNibble(bm[g][q / 2], q % 2);
    UnitBit(q, 0);
    UnitBit(q, 1);
    UnitBit(q, 2);
    UnitBit(q, 3);
  }

  /** Marking a unit sets its four bits and no other bit of the group. */
  lemma SetUnitBit(bytes: seq<bv8>, q: nat, i: nat)
    requires |bytes| == BYTES && q < UNITS && i < GROUP
    ensures BitSet(SetUnit(bytes, q)[i / 8], i % 8) <==> BitSet(bytes[i / 8], i % 8) || 4 * q <= i < 4 * q + 4
  {
    OrNibble(bytes[q / 2], q % 2, i % 8);
    if i / 8 == q / 2 {
      assert 4 * q <= i < 4 * q + 4 <==> 4 * (q % 2) <= i % 8 < 4 * (q % 2) + 4;
    }
  }

  // ----- extents of blocks -----

  /** `bitmap_pblock_set(e, 4, 1)`. */
  function Mark(bm: seq<seq<bv8>>, e: nat): (r: seq<seq<bv8>>)
    requires Shaped(bm) && e < |bm| * GROUP
    ensures |r| == |bm| && Shaped(r)
  {
    bm[e / GROUP := SetUnit(bm[e / GROUP], e % GROUP / 4)]
  }

  lemma MarkAt(bm: seq<seq<bv8>>, g: nat, q: nat, h: nat, i: nat)
    requires Shaped(bm) && g < |bm| && q < UNITS && h < |bm| && i < GROUP
    ensures var r := bm[g := SetUnit(bm[g], q)];
            Bit(r, h, i) <==> Bit(bm, h, i) || (h == g && 4 * q <= i < 4 * q + 4)
  {
    if h == g { SetUnitBit(bm[g], q, i); }
  }

  lemma InExtent(b: nat, h: nat, i: nat, e: nat, g: nat, q: nat)
    requires b == h * GROUP + i && i < GROUP && e == g * GROUP + 4 * q && q < UNITS
    ensures h == g && 4 * q <= i < 4 * q + 4 <==> e <= b < e + 4
  {
  }

  lemma MarkBlock(bm: seq<seq<bv8>>, e: nat, b: nat)
    requires Shaped(bm) && e % 4 == 0 && e < |bm| * GROUP && b < |bm| * GROUP
    ensures BlockUsed(Mark(bm, e), b) <==> BlockUsed(bm, b) || e <= b < e + 4
  {
    BlockPlace(b, |bm|);
    BlockPlace(e, |bm|);
    var h, i, g, j := b / GROUP, b % GROUP, e / GROUP, e % GROUP;
    UnitOf(e, g, j);
    MarkPlace(bm, Mark(bm, e), b, h, i, e, g, j / 4);
  }

  lemma BlockPlace(b: nat, n: nat)
    requires b < n * GROUP
    ensures b / GROUP < n && b == b / GROUP * GROUP + b % GROUP
  {
  }

  lemma UnitOf(e: nat, g: nat, j: nat)
    requires e % 4 == 0 && e == g * GROUP + j && j < GROUP
    ensures j / 4 < UNITS && j == 4 * (j / 4)
  {
  }

  lemma MarkPlace(bm: seq<seq<bv8>>, r: seq<seq<bv8>>, b: nat, h: nat, i: nat, e: nat, g: nat, q: nat)
    requires Shaped(bm) && g < |bm| && q < UNITS && h < |bm| && i < GROUP
    requires r == bm[g := SetUnit(bm[g], q)] && b == h * GROUP + i && e == g * GROUP + 4 * q
    ensures BlockUsed(r, b) <==> BlockUsed(bm, b) || e <= b < e + 4
  {
    assert BlockUsed(bm, b) == Bit(bm, h, i) by { BlockBit(bm, b, h, i); }
    assert BlockUsed(r, b) == Bit(r, h, i) by { BlockBit(r, b, h, i); }
    MarkAt(bm, g, q, h, i);
    InExtent(b, h, i, e, g, q);
  }

  ghost predicate FreeExtent(bm: seq<seq<bv8>>, e: nat)
    requires Shaped(bm)
  {
    e % 4 == 0 && e < |bm| * GROUP && FreeUnit(bm[e / GROUP], e % GROUP / 4)
  }

  lemma FreeAt(bm: seq<seq<bv8>>, e: nat, g: nat, q: nat)
    requires Shaped(bm) && g < |bm| && q < UNITS && e == g * GROUP + 4 * q
    ensures FreeUnit(bm[g], q) <==>
              !BlockUsed(bm, e) && !BlockUsed(bm, e + 1) && !BlockUsed(bm, e + 2) && !BlockUsed(bm, e + 3)
  {
    assert BlockUsed(bm, e) == Bit(bm, g, 4 * q) by { BlockBit(bm, e, g, 4 * q); }
    assert BlockUsed(bm, e + 1) == Bit(bm, g, 4 * q + 1) by { BlockBit(bm, e + 1, g, 4 * q + 1); }
    assert BlockUsed(bm, e + 2) == Bit(bm, g, 4 * q + 2) by { BlockBit(bm, e + 2, g, 4 * q + 2); }
    assert BlockUsed(bm, e + 3) == Bit(bm, g, 4 * q + 3) by { BlockBit(bm, e + 3, g, 4 * q + 3); }
    FreeUnitBits(bm, g, q);
  }

  /** The allocator's test: all four blocks are unused. */
  lemma FreeExtentBlocks(bm: seq<seq<bv8>>, e: nat)
    requires Shaped(bm) && e % 4 == 0 && e < |bm| * GROUP
    ensures e + 4 <= |bm| * GROUP
    ensures FreeExtent(bm, e) <==>
              !BlockUsed(bm, e) && !BlockUsed(bm, e + 1) && !BlockUsed(bm, e + 2) && !BlockUsed(bm, e + 3)
  {
    FreeAt(bm, e, e / GROUP, e % GROUP / 4);
  }

  // ----- what every allocation keeps -----

  ghost predicate In(b: nat, ext: seq<nat>) {
    exists k :: 0 <= k < |ext| && ext[k] <= b < ext[k] + 4
  }

  /** The used blocks are exactly those below `meta` and those of the extents. */
  ghost predicate Exact(bm: seq<seq<bv8>>, meta: nat, ext: seq<nat>)
    requires Shaped(bm)
  {
    forall b :: 0 <= b < |bm| * GROUP ==> (BlockUsed(bm, b) <==> b < meta || In(b, ext))
  }

  /** Extents are aligned, above the metadata, inside the groups and pairwise
      disjoint. */
  ghost predicate Apart(n: nat, meta: nat, ext: seq<nat>) {
    && (forall k :: 0 <= k < |ext| ==> ext[k] % 4 == 0 && meta <= ext[k] && ext[k] + 4 <= n * GROUP)
    && (forall j, k :: 0 <= j < k < |ext| ==> ext[j] + 4 <= ext[k] || ext[k] + 4 <= ext[j])
  }

  ghost predicate Sound(bm: seq<seq<bv8>>, meta: nat, ext: seq<nat>) {
    Shaped(bm) && Exact(bm, meta, ext) && Apart(|bm|, meta, ext)
  }

  lemma MarkKeeps(bm: seq<seq<bv8>>, meta: nat, ext: seq<nat>, e: nat)
    requires Sound(bm, meta, ext) && FreeExtent(bm, e)
    ensures Sound(Mark(bm, e), meta, ext + [e])
  {
    FreeExtentBlocks(bm, e);
    MarkExact(bm, meta, ext, e);
    assert !BlockUsed(bm, e);
    forall k | 0 <= k < |ext|
      ensures ext[k] + 4 <= e || e + 4 <= ext[k]
    {
      assert ext[k] <= e < ext[k] + 4 ==> In(e, ext);
      assert In(ext[k], ext);
      assert BlockUsed(bm, ext[k]);
    }
  }

  lemma MarkExact(bm: seq<seq<bv8>>, meta: nat, ext: seq<nat>, e: nat)
    requires Sound(bm, meta, ext) && FreeExtent(bm, e)
    ensures Exact(Mark(bm, e), meta, ext + [e])
  {
    forall b | 0 <= b < |bm| * GROUP
      ensures BlockUsed(Mark(bm, e), b) <==> b < meta || In(b, ext + [e])
    {
      MarkBlock(bm, e, b);
      InAppend(b, ext, e);
    }
  }

  lemma InAppend(b: nat, ext: seq<nat>, e: nat)
    ensures In(b, ext + [e]) <==> In(b, ext) || e <= b < e + 4
  {
    var all := ext + [e];
    if In(b, ext) {
      var k :| 0 <= k < |ext| && ext[k] <= b < ext[k] + 4;
      assert all[k] <= b < all[k] + 4;
    }
    if e <= b < e + 4 {
      assert all[|ext|] == e;
    }
    if In(b, all) {
      var k :| 0 <= k < |all| && all[k] <= b < all[k] + 4;
      if k < |ext| { assert ext[k] <= b < ext[k] + 4; }
    }
  }

  // ----- runs of find-then-set -----

  ghost predicate Run(bm: seq<seq<bv8>>, picks: seq<nat>)
    requires Shaped(bm)
    decreases |picks|
  {
    picks == [] || (FreeExtent(bm, picks[0]) && Run(Mark(bm, picks[0]), picks[1..]))
  }

  ghost function After(bm: seq<seq<bv8>>, picks: seq<nat>): (r: seq<seq<bv8>>)
    requires Shaped(bm) && Run(bm, picks)
    ensures Shaped(r) && |r| == |bm|
    decreases |picks|
  {
    if picks == [] then bm else After(Mark(bm, picks[0]), picks[1..])
  }

  /** Over every run, the extents handed out are aligned, clear of everything
      below `meta`, of the extents that were there and of each other, and the
      bitmap marks exactly those. */
  lemma {:induction false} AllocationRun(bm: seq<seq<bv8>>, meta: nat, ext: seq<nat>, picks: seq<nat>)
    requires Sound(bm, meta, ext) && Run(bm, picks)
    ensures Sound(After(bm, picks), meta, ext + picks)
    decreases |picks|
  {
    if picks == [] {
      assert ext + picks == ext;
    } else {
      MarkKeeps(bm, meta, ext, picks[0]);
      AllocationRun(Mark(bm, picks[0]), meta, ext + [picks[0]], picks[1..]);
      assert ext + [picks[0]] + picks[1..] == ext + picks;
    }
  }

  // ----- conservation -----

  /** Which blocks are used, in order. */
  ghost function Flags(bm: seq<seq<bv8>>): (f: seq<bool>)
    requires Shaped(bm)
    ensures |f| == |bm| * GROUP && forall b :: 0 <= b < |f| ==> f[b] == BlockUsed(bm, b)
  {
    seq(|bm| * GROUP, b requires 0 <= b < |bm| * GROUP => BlockUsed(bm, b))
  }

  /** How many blocks are used. */
  ghost function UsedCount(bm: seq<seq<bv8>>): nat
    requires Shaped(bm)
  {
    CountSet(Flags(bm), |bm| * GROUP)
  }

  lemma {:induction false} CountFour(f: seq<bool>, h: seq<bool>, e: nat, n: nat)
    requires |f| == |h| && n <= |f| && e + 4 <= |f|
    requires forall b :: 0 <= b < |f| ==> (h[b] <==> f[b] || e <= b < e + 4)
    requires !f[e] && !f[e + 1] && !f[e + 2] && !f[e + 3]
    ensures CountSet(h, n) == CountSet(f, n) + if n <= e then 0 else if n <= e + 4 then n - e else 4
  {
    if n > 0 { CountFour(f, h, e, n - 1); }
  }

  lemma MarkCount(bm: seq<seq<bv8>>, e: nat)
    requires Shaped(bm) && FreeExtent(bm, e)
    ensures UsedCount(Mark(bm, e)) == UsedCount(bm) + 4
  {
    FreeExtentBlocks(bm, e);
    var f, h := Flags(bm), Flags(Mark(bm, e));
    forall b | 0 <= b < |f|
      ensures h[b] <==> f[b] || e <= b < e + 4
    {
      MarkBlock(bm, e, b);
    }
    CountFour(f, h, e, |f|);
  }

  /** Every extent handed out takes four blocks from the free ones. */
  lemma {:induction false} Conservation(bm: seq<seq<bv8>>, picks: seq<nat>)
    requires Shaped(bm) && Run(bm, picks)
    ensures UsedCount(After(bm, picks)) == UsedCount(bm) + 4 * |picks|
    decreases |picks|
  {
    if picks != [] {
      MarkCount(bm, picks[0]);
      Conservation(Mark(bm, picks[0]), picks[1..]);
    }
  }

  /** Space is not lost to fragments: no free extent means every block is used. */
  lemma NoFragments(bm: seq<seq<bv8>>, meta: nat, ext: seq<nat>)
    requires Sound(bm, meta, ext) && meta % 4 == 0
    ensures (forall e :: !FreeExtent(bm, e)) <==> forall b :: 0 <= b < |bm| * GROUP ==> BlockUsed(bm, b)
  {
    if forall e :: !FreeExtent(bm, e) {
      forall b | 0 <= b < |bm| * GROUP
        ensures BlockUsed(bm, b)
      {
        var e := b - b % 4;
        FreeExtentBlocks(bm, e);
        assert !FreeExtent(bm, e);
        UnitWhole(bm, meta, ext, e, e + 1);
        UnitWhole(bm, meta, ext, e, e + 2);
        UnitWhole(bm, meta, ext, e, e + 3);
      }
    } else {
      var e :| FreeExtent(bm, e);
      FreeExtentBlocks(bm, e);
      assert !BlockUsed(bm, e);
    }
  }

  /** The four blocks of a unit are used together. */
  lemma UnitWhole(bm: seq<seq<bv8>>, meta: nat, ext: seq<nat>, e: nat, b: nat)
    requires Shaped(bm) && Exact(bm, meta, ext) && meta % 4 == 0 && e % 4 == 0 && e <= b < e + 4 <= |bm| * GROUP
    requires forall k :: 0 <= k < |ext| ==> ext[k] % 4 == 0
    ensures BlockUsed(bm, b) == BlockUsed(bm, e)
  {
    assert BlockUsed(bm, b) == Claimed(b, meta, ext) && BlockUsed(bm, e) == Claimed(e, meta, ext);
    ClaimedWhole(meta, ext, e, b);
  }

  ghost predicate Claimed(b: nat, meta: nat, ext: seq<nat>) {
    b < meta || In(b, ext)
  }

  lemma ClaimedWhole(meta: nat, ext: seq<nat>, e: nat, b: nat)
    requires forall k :: 0 <= k < |ext| ==> ext[k] % 4 == 0
    requires meta % 4 == 0 && e % 4 == 0 && e <= b < e + 4
    ensures Claimed(b, meta, ext) == Claimed(e, meta, ext)
  {
    InWhole(ext, e, b);
  }

  lemma InWhole(ext: seq<nat>, e: nat, b: nat)
    requires forall k :: 0 <= k < |ext| ==> ext[k] % 4 == 0
    requires e % 4 == 0 && e <= b < e + 4
    ensures In(b, ext) <==> In(e, ext)
  {
    if In(b, ext) {
      var k :| 0 <= k < |ext| && ext[k] <= b < ext[k] + 4;
      Aligned(ext[k], e, b);
    }
    if In(e, ext) {
      var k :| 0 <= k < |ext| && ext[k] <= e < ext[k] + 4;
      Aligned(ext[k], e, b);
    }
  }

  lemma Aligned(x: nat, e: nat, b: nat)
    requires x % 4 == 0 && e % 4 == 0 && e <= b < e + 4
    ensures x <= b < x + 4 <==> x == e
    ensures x <= e < x + 4 <==> x == e
  {
  }
}
