/** Block pointers in the ext2/ext3 style: direct, single, double and triple
    indirect. */
module Indirect {
  import opened Common

  const NDIR: nat := 12

  /** How many blocks one, two and three levels of pointer blocks reach. */
  datatype Geometry = Geometry(a: nat, b: nat, c: nat)

  ghost predicate Powers(g: Geometry) {
    g.a > 0 && g.b == g.a * g.a && g.c == g.a * g.b
  }

  function MaxInd(g: Geometry): nat { NDIR + g.a }
  function MaxDind(g: Geometry): nat { MaxInd(g) + g.b }
  function MaxTind(g: Geometry): nat { MaxDind(g) + g.c }

  /** Where the pointer of a logical block is kept. */
  datatype Slot = Direct(i: nat) | Ind(i: nat) | Dind(i: nat, j: nat) | Tind(i: nat, j: nat, k: nat)

  function SlotOf(g: Geometry, lblock: nat): Slot
    requires g.a > 0 && g.b > 0
  {
    if lblock < NDIR then Direct(lblock)
    else if lblock < MaxInd(g) then Ind(lblock - NDIR)
    else if lblock < MaxDind(g) then
      var l := lblock - MaxInd(g);
      Dind(l / g.a, l % g.a)
    else
      var l := lblock - MaxDind(g);
      Tind(l / g.b, l % g.b / g.a, l % g.b % g.a)
  }

  ghost predicate InBounds(g: Geometry, s: Slot) {
    match s
    case Direct(i) => i < NDIR
    case Ind(i) => i < g.a
    case Dind(i, j) => i < g.a && j < g.a
    case Tind(i, j, k) => i < g.a && j < g.a && k < g.a
  }

  function BlockOf(g: Geometry, s: Slot): nat {
    match s
    case Direct(i) => i
    case Ind(i) => NDIR + i
    case Dind(i, j) => MaxInd(g) + (i * g.a + j)
    case Tind(i, j, k) => MaxDind(g) + (i * g.b + (j * g.a + k))
  }

  /** Quotient and remainder, by the product they belong to. */
  lemma Divide(x: nat, m: nat, n: nat)
    requires m > 0 && x < n * m
    ensures x / m < n && x % m < m && x == x / m * m + x % m
  {
    assert x == x / m * m + x % m;
    if n < x / m { Rows(n, x / m, m); }
  }

  lemma Compose(q: nat, r: nat, m: nat, n: nat)
    requires r < m && q < n
    ensures 0 <= q * m + r < n * m && (q * m + r) / m == q && (q * m + r) % m == r
  {
    Rows(q, n, m);
    var x := q * m + r;
    var d := x / m;
    assert x == d * m + x % m;
    if d < q { Rows(d, q, m); } else if q < d { Rows(q, d, m); }
  }

  /** The decomposition is a bijection between the logical blocks and the slots. */
  lemma SlotIn(g: Geometry, lblock: nat)
    requires Powers(g) && lblock < MaxTind(g)
    ensures InBounds(g, SlotOf(g, lblock)) && BlockOf(g, SlotOf(g, lblock)) == lblock
  {
    if MaxInd(g) <= lblock < MaxDind(g) {
      Divide(lblock - MaxInd(g), g.a, g.a);
    } else if MaxDind(g) <= lblock {
      var l := lblock - MaxDind(g);
      Divide(l, g.b, g.a);
      Divide(l % g.b, g.a, g.a);
    }
  }

  lemma SlotOut(g: Geometry, s: Slot)
    requires Powers(g) && InBounds(g, s)
    ensures BlockOf(g, s) < MaxTind(g) && SlotOf(g, BlockOf(g, s)) == s
  {
    assert g.b > 0;
    match s
    case Direct(_) =>
    case Ind(_) =>
    case Dind(i, j) => DindOut(g, i, j, i * g.a + j);
    case Tind(i, j, k) => TindOut(g, i, j, k, i * g.b + (j * g.a + k));
  }

  lemma DindOut(g: Geometry, i: nat, j: nat, x: int)
    requires g.b > 0 && Powers(g) && i < g.a && j < g.a && x == i * g.a + j
    ensures 0 <= x < g.b && SlotOf(g, MaxInd(g) + x) == Dind(i, j)
  {
    Compose(i, j, g.a, g.a);
    AtDind(g, x);
  }

  lemma TindOut(g: Geometry, i: nat, j: nat, k: nat, x: int)
    requires g.b > 0 && Powers(g) && i < g.a && j < g.a && k < g.a && x == i * g.b + (j * g.a + k)
    ensures 0 <= x < g.c && SlotOf(g, MaxDind(g) + x) == Tind(i, j, k)
  {
    Compose(j, k, g.a, g.a);
    Compose(i, j * g.a + k, g.b, g.a);
    AtTind(g, x);
  }

  lemma AtDind(g: Geometry, l: nat)
    requires g.a > 0 && g.b > 0 && l < g.b
    ensures SlotOf(g, MaxInd(g) + l) == Dind(l / g.a, l % g.a)
  {
  }

  lemma AtTind(g: Geometry, l: nat)
    requires g.a > 0 && g.b > 0
    ensures SlotOf(g, MaxDind(g) + l) == Tind(l / g.b, l % g.b / g.a, l % g.b % g.a)
  {
  }

  // ----- the lookup -----

  /** Pointer blocks on disk. */
  type Words = map<nat, seq<nat>>

  /** Block `b` points at the list `s`. */
  ghost predicate HoldsInd(A: nat, d: Words, b: nat, s: seq<nat>) {
    b in d && |s| <= |d[b]| == A && s == d[b][..|s|]
  }

  function Part<T>(s: seq<T>, from: nat, len: nat): (r: seq<T>)
    requires from <= |s|
    ensures |r| == (if from + len <= |s| then len else |s| - from)
    ensures forall i :: 0 <= i < |r| ==> r[i] == s[from + i]
  {
    if from + len <= |s| then s[from..from + len] else s[from..]
  }

  ghost predicate HoldsDind(A: nat, d: Words, b: nat, s: seq<nat>) {
    && b in d && |d[b]| == A
    && forall i :: 0 <= i < A && i * A < |s| ==> HoldsInd(A, d, d[b][i], Part(s, i * A, A))
  }

  ghost predicate HoldsTind(A: nat, B: nat, d: Words, b: nat, s: seq<nat>) {
    && b in d && |d[b]| == A
    && forall i :: 0 <= i < A && i * B < |s| ==> HoldsDind(A, d, d[b][i], Part(s, i * B, B))
  }

  /** The inode's pointers lay the file's blocks out as the list. */
  ghost predicate LaidOut(g: Geometry, d: Words, iblock: seq<nat>, list: seq<nat>) {
    && |iblock| == NDIR + 3 && |list| <= MaxTind(g)
    && (forall i :: 0 <= i < NDIR && i < |list| ==> iblock[i] == list[i])
    && (|list| > NDIR ==> HoldsInd(g.a, d, iblock[NDIR], Part(list, NDIR, g.a)))
    && (|list| > MaxInd(g) ==> HoldsDind(g.a, d, iblock[NDIR + 1], Part(list, MaxInd(g), g.b)))
    && (|list| > MaxDind(g) ==> HoldsTind(g.a, g.b, d, iblock[NDIR + 2], Part(list, MaxDind(g), g.c)))
  }

  /** Following the pointers of a slot from the inode leads to block `p`. */
  ghost predicate LeadsTo(d: Words, iblock: seq<nat>, s: Slot, p: nat) {
    && |iblock| == NDIR + 3
    && match s
       case Direct(i) => i < NDIR && iblock[i] == p
       case Ind(i) => Word(d, iblock[NDIR], i, p)
       case Dind(i, j) => Words2(d, iblock[NDIR + 1], i, j, p)
       case Tind(i, j, k) => Words3(d, iblock[NDIR + 2], i, j, k, p)
  }

  /** Word `i` of block `b` is `p`. */
  ghost predicate Word(d: Words, b: nat, i: int, p: nat) {
    b in d && 0 <= i < |d[b]| && d[b][i] == p
  }

  ghost predicate Words2(d: Words, b: nat, i: int, j: int, p: nat) {
    exists m :: Word(d, b, i, m) && Word(d, m, j, p)
  }

  ghost predicate Words3(d: Words, b: nat, i: int, j: int, k: int, p: nat) {
    exists m :: Word(d, b, i, m) && Words2(d, m, j, k, p)
  }

  /** `__inode_get_data_pblock_ind`. */
  function GetInd(A: nat, d: Words, lblock: nat, b: nat): nat
    requires lblock < A && b in d && |d[b]| == A
  {
    d[b][lblock]
  }

  /** `__inode_get_data_pblock_dind`. */
  method GetDind(A: nat, d: Words, lblock: nat, b: nat, ghost s: seq<nat>) returns (p: nat)
    requires A > 0 && lblock < A * A && HoldsDind(A, d, b, s) && lblock < |s|
    ensures p == s[lblock] && Words2(d, b, lblock / A, lblock % A, p)
  {
    Divide(lblock, A, A);
    var index := d[b][lblock / A];
    assert HoldsInd(A, d, index, Part(s, lblock / A * A, A));
    p := GetInd(A, d, lblock % A, index);
    assert Word(d, b, lblock / A, index) && Word(d, index, lblock % A, p);
  }

  /** `__inode_get_data_pblock_tind`, with `B` blocks under each double block. */
  method GetTind(A: nat, B: nat, d: Words, lblock: nat, b: nat, ghost s: seq<nat>) returns (p: nat)
    requires A > 0 && B == A * A && lblock < A * B && HoldsTind(A, B, d, b, s) && lblock < |s|
    ensures p == s[lblock]
    ensures B > 0 && Words3(d, b, lblock / B, lblock % B / A, lblock % B % A, p)
  {
    assert B > 0;
    var q, r := lblock / B, lblock % B;
    Divide(lblock, B, A);
    p := GetUnder(A, B, d, q, r, b, q * B, lblock, s);
  }

  /** The double block under entry `q`, and what it leads to. */
  method GetUnder(A: nat, B: nat, d: Words, q: nat, r: nat, b: nat, ghost from: nat, ghost lblock: nat, ghost s: seq<nat>)
    returns (p: nat)
    requires A > 0 && q < A && r < A * A && r < B && from == q * B && lblock == from + r < |s| && HoldsTind(A, B, d, b, s)
    ensures p == s[lblock] && Words3(d, b, q, r / A, r % A, p)
  {
    var dindex := d[b][q];
    ghost var part := Part(s, from, B);
    assert HoldsDind(A, d, dindex, part);
    p := GetDind(A, d, r, dindex, part);
    assert Word(d, b, q, dindex) && Words2(d, dindex, r / A, r % A, p);
  }

  /** `inode_get_data_pblock` without extents: the element of the list, found where the
      block's slot leads. */
  method GetDataPblock(g: Geometry, d: Words, iblock: seq<nat>, lblock: nat, ghost list: seq<nat>) returns (p: nat)
    requires Powers(g) && LaidOut(g, d, iblock, list) && lblock < |list|
    ensures p == list[lblock] && LeadsTo(d, iblock, SlotOf(g, lblock), p)
  {
    if lblock < NDIR {
      return iblock[lblock];
    } else if lblock < MaxInd(g) {
      return GetInd(g.a, d, lblock - NDIR, iblock[NDIR]);
    } else if lblock < MaxDind(g) {
      p := GetDind(g.a, d, lblock - MaxInd(g), iblock[NDIR + 1], Part(list, MaxInd(g), g.b));
    } else {
      p := GetTind(g.a, g.b, d, lblock - MaxDind(g), iblock[NDIR + 2], Part(list, MaxDind(g), g.c));
    }
  }
}
