/** The extent tree of an inode: looking up a logical block. */
module Extents {

  const U32: nat := 0x1_0000_0000
  const LEAF_EH_MAX: nat := 4

  /** `len` blocks of the file from logical block `block`, stored from `start`. */
  datatype Extent = Extent(block: nat, len: nat, start: nat)

  datatype Idx = Idx(block: nat, leaf: nat)

  /** An extent header with the entries that follow it. */
  datatype Node =
    | Leaf(max: nat, es: seq<Extent>)
    | Index(max: nat, depth: nat, ix: seq<Idx>)

  type Blocks = map<nat, Node>

  function Depth(n: Node): nat {
    if n.Leaf? then 0 else n.depth
  }

  function Width(n: Node): nat {
    if n.Leaf? then 0 else |n.ix|
  }

  ghost predicate Covers(e: Extent, lblock: nat) {
    e.block <= lblock < e.block + e.len
  }

  // ----- well-formed trees -----

  /** Extents in order, disjoint and inside [lo, hi). */
  ghost predicate Sorted(es: seq<Extent>, lo: nat, hi: nat) {
    && (forall i :: 0 <= i < |es| ==> lo <= es[i].block && es[i].block + es[i].len <= hi)
    && (forall i, j :: 0 <= i < j < |es| ==> es[i].block + es[i].len <= es[j].block)
  }

  function UpTo(ix: seq<Idx>, i: nat, hi: nat): nat
    requires i < |ix|
  {
    if i + 1 < |ix| then ix[i + 1].block else hi
  }

  ghost predicate Keys(ix: seq<Idx>, lo: nat, hi: nat) {
    && (forall i :: 0 <= i < |ix| ==> lo <= ix[i].block <= hi)
    && (forall i, j :: 0 <= i < j < |ix| ==> ix[i].block < ix[j].block)
  }

  /** Sorted keys, children of smaller depth holding what lies between their key
      and the next, sorted extents in the leaves. */
  ghost predicate Tree(d: Blocks, n: Node, lo: nat, hi: nat)
    decreases Depth(n)
  {
    && lo <= hi <= U32 && n.max <= LEAF_EH_MAX
    && match n
       case Leaf(_, es) => Sorted(es, lo, hi)
       case Index(_, depth, ix) =>
         && Keys(ix, lo, hi)
         && forall i :: 0 <= i < |ix| ==>
              && ix[i].leaf in d && Depth(d[ix[i].leaf]) < depth
              && Tree(d, d[ix[i].leaf], ix[i].block, UpTo(ix, i, hi))
  }

  /** All extents of a tree, left to right. */
  ghost function Flat(d: Blocks, n: Node, lo: nat, hi: nat): seq<Extent>
    requires Tree(d, n, lo, hi)
    decreases Depth(n), Width(n) + 1
  {
    match n
    case Leaf(_, es) => es
    case Index(_, depth, ix) => FlatFrom(d, n, lo, hi, 0)
  }

  ghost function FlatFrom(d: Blocks, n: Node, lo: nat, hi: nat, i: nat): seq<Extent>
    requires n.Index? && Tree(d, n, lo, hi) && i <= |n.ix|
    decreases Depth(n), |n.ix| - i
  {
    if i == |n.ix| then []
    else Flat(d, d[n.ix[i].leaf], n.ix[i].block, UpTo(n.ix, i, hi)) + FlatFrom(d, n, lo, hi, i + 1)
  }

  // ----- the leaf scan -----

  /** Where an extent ends, in 32-bit arithmetic. */
  function End32(e: Extent): (end: nat)
    ensures e.block + e.len < U32 ==> end == e.block + e.len
    ensures e.block + e.len == U32 ==> end == 0
  {
    (e.block + e.len) % U32
  }

  /** A difference of block numbers, in 32-bit arithmetic. */
  function Sub32(a: nat, b: nat): (d: nat)
    ensures b <= a < U32 ==> d == a - b
    ensures a < b <= U32 ==> d == U32 - (b - a)
  {
    (a - b) % U32
  }

  ghost predicate Found(es: seq<Extent>, lblock: nat, i: nat) {
    i < |es| && End32(es[i]) > lblock && forall j :: 0 <= j < i ==> End32(es[j]) <= lblock
  }

  /** What the lookup of a block that `e` covers gives: an extent that ends at
      2^32 is not found, because its end wraps to 0. */
  ghost predicate Answers(e: Extent, lblock: nat, r: nat, len: nat) {
    if e.block + e.len < U32 then r == e.start + (lblock - e.block) && len == e.len else r == 0
  }

  /** `extent_get_block_from_ees`: the first extent that ends past the block. Zero
      stands for none; the offset in it is a 32-bit difference. */
  method BlockFromEes(es: seq<Extent>, lblock: nat, ghost lo: nat, ghost hi: nat) returns (r: nat, len: nat)
    requires Sorted(es, lo, hi) && hi <= U32 && lblock < U32
    ensures (forall i :: 0 <= i < |es| ==> es[i].block + es[i].len <= lblock) ==> r == 0
    ensures forall i :: 0 <= i < |es| && Covers(es[i], lblock) ==> Answers(es[i], lblock, r, len)
    ensures forall i: nat :: Found(es, lblock, i) && lblock < es[i].block ==>
              r == es[i].start + U32 - (es[i].block - lblock)
  {
    len := 0;
    for i := 0 to |es|
      invariant forall j :: 0 <= j < i ==> End32(es[j]) <= lblock
    {
      if End32(es[i]) > lblock {
        len := es[i].len;
        r := es[i].start + Sub32(lblock, es[i].block);
        return;
      }
    }
    return 0, len;
  }

  /** Block 3 lies between the extents of blocks 0 and 5: the lookup returns the
      second one's start and a 32-bit difference, block 2^32 + 18. */
  method LookupInGap() returns (r: nat, len: nat)
    ensures r == U32 + 18
  {
    var es := [Extent(0, 1, 10), Extent(5, 1, 20)];
    assert Found(es, 3, 1);
    r, len := BlockFromEes(es, 3, 0, 6);
  }

  /** The last block of a file of 2^32 blocks has an extent, and none is found. */
  method LookupAtLimit() returns (r: nat, len: nat)
    ensures Covers(Extent(U32 - 1, 1, 7), U32 - 1) && r == 0
  {
    var es := [Extent(U32 - 1, 1, 7)];
    assert Covers(es[0], U32 - 1);
    r, len := BlockFromEes(es, U32 - 1, 0, U32);
  }

  // ----- the index scan -----

  /** The last entry whose key is not past the block. */
  method Descend(ix: seq<Idx>, lblock: nat, ghost lo: nat, ghost hi: nat) returns (k: int)
    requires Keys(ix, lo, hi)
    ensures -1 <= k < |ix|
    ensures forall i :: 0 <= i < |ix| ==> (ix[i].block <= lblock <==> i <= k)
  {
    k := -1;
    for i := 0 to |ix|
      invariant k == i - 1
      invariant forall j :: 0 <= j < i ==> ix[j].block <= lblock
    {
      if ix[i].block > lblock {
        return;
      }
      k := i;
    }
  }

  // ----- the tree -----

  /** Each extent of a tree comes from the child between whose keys it lies. */
  lemma {:induction false} ChildOf(d: Blocks, n: Node, lo: nat, hi: nat, i: nat, e: Extent) returns (k: nat)
    requires n.Index? && Tree(d, n, lo, hi) && i <= |n.ix| && e in FlatFrom(d, n, lo, hi, i)
    ensures i <= k < |n.ix| && e in Flat(d, d[n.ix[k].leaf], n.ix[k].block, UpTo(n.ix, k, hi))
    decreases |n.ix| - i
  {
    if e in Flat(d, d[n.ix[i].leaf], n.ix[i].block, UpTo(n.ix, i, hi)) {
      k := i;
    } else {
      k := ChildOf(d, n, lo, hi, i + 1, e);
    }
  }

  lemma {:induction false} InsideBounds(d: Blocks, n: Node, lo: nat, hi: nat, e: Extent)
    requires Tree(d, n, lo, hi) && e in Flat(d, n, lo, hi)
    ensures lo <= e.block && e.block + e.len <= hi
    decreases Depth(n)
  {
    if n.Index? {
      var k := ChildOf(d, n, lo, hi, 0, e);
      InsideBounds(d, d[n.ix[k].leaf], n.ix[k].block, UpTo(n.ix, k, hi), e);
    }
  }

  /** `extent_get_pblock` on a block that some extent of the tree covers. */
  method GetPblock(d: Blocks, n: Node, lblock: nat, ghost lo: nat, ghost hi: nat, ghost e: Extent)
    returns (r: nat, len: nat)
    requires Tree(d, n, lo, hi) && e in Flat(d, n, lo, hi) && Covers(e, lblock)
    ensures Answers(e, lblock, r, len)
    decreases Depth(n)
  {
    InsideBounds(d, n, lo, hi, e);
    match n
    case Leaf(_, es) =>
      r, len := BlockFromEes(es, lblock, lo, hi);
    case Index(_, depth, ix) =>
      ghost var c := ChildOf(d, n, lo, hi, 0, e);
      InsideBounds(d, d[ix[c].leaf], ix[c].block, UpTo(ix, c, hi), e);
      var k := Descend(ix, lblock, lo, hi);
      assert k == c;
      r, len := GetPblock(d, d[ix[k].leaf], lblock, ix[k].block, UpTo(ix, k, hi), e);
  }

  /** The flat list is itself sorted, so the covering extent is the only one. */
  lemma {:induction false} FlatSorted(d: Blocks, n: Node, lo: nat, hi: nat)
    requires Tree(d, n, lo, hi)
    ensures Sorted(Flat(d, n, lo, hi), lo, hi)
    decreases Depth(n), Width(n) + 1
  {
    if n.Index? { FlatFromSorted(d, n, lo, hi, 0, lo); }
  }

  lemma {:induction false} FlatFromSorted(d: Blocks, n: Node, lo: nat, hi: nat, i: nat, from: nat)
    requires n.Index? && Tree(d, n, lo, hi) && i <= |n.ix|
    requires from <= hi && (i < |n.ix| ==> from <= n.ix[i].block)
    ensures Sorted(FlatFrom(d, n, lo, hi, i), from, hi)
    decreases Depth(n), |n.ix| - i
  {
    if i < |n.ix| {
      var to := UpTo(n.ix, i, hi);
      FlatSorted(d, d[n.ix[i].leaf], n.ix[i].block, to);
      FlatFromSorted(d, n, lo, hi, i + 1, to);
      JoinSorted(Flat(d, d[n.ix[i].leaf], n.ix[i].block, to), FlatFrom(d, n, lo, hi, i + 1), from, n.ix[i].block, to, hi);
    }
  }

  lemma JoinSorted(a: seq<Extent>, b: seq<Extent>, from: nat, lo: nat, mid: nat, hi: nat)
    requires from <= lo && from <= mid <= hi && Sorted(a, lo, mid) && Sorted(b, mid, hi)
    ensures Sorted(a + b, from, hi)
  {
  }

  /** The lookup through the tree is the lookup in the flat list. */
  method LookupFlat(d: Blocks, n: Node, lblock: nat, ghost lo: nat, ghost hi: nat, ghost at: nat)
    returns (r: nat, len: nat)
    requires Tree(d, n, lo, hi) && at < |Flat(d, n, lo, hi)| && Covers(Flat(d, n, lo, hi)[at], lblock)
    ensures var es := Flat(d, n, lo, hi);
            forall i :: 0 <= i < |es| && Covers(es[i], lblock) ==>
              i == at && Answers(es[i], lblock, r, len)
  {
    FlatSorted(d, n, lo, hi);
    r, len := GetPblock(d, n, lblock, lo, hi, Flat(d, n, lo, hi)[at]);
  }
}
