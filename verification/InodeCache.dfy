/** The write-back inode cache, against a plain store of live inodes. */
module InodeCache {

  const MAX_COUNT: nat := 64
  const INT_MAX: nat := 0x7FFF_FFFF
  const UINT32_MAX: nat := 0xFFFF_FFFF

  datatype Status = Inval | Valid | Dirty

  datatype Entry<I> = Entry(inode: I, idx: nat, lru: nat, status: Status)

  /** The cache and the disk as a sequence of inode slots. `slots` is where
      `inode_get_offset` finds the inodes numbered 1, 2, and so on. */
  datatype Cache<I> = Cache(entries: seq<Entry<I>>, count: nat, slots: seq<nat>, disk: seq<I>)

  predicate Numbered<I>(c: Cache<I>, k: nat) {
    1 <= k <= |c.slots| && c.slots[k - 1] < |c.disk|
  }

  ghost predicate OnDisk<I>(c: Cache<I>, k: nat, v: I) {
    Numbered(c, k) && c.disk[c.slots[k - 1]] == v
  }

  /** No two inodes share a slot. */
  ghost predicate Apart(slots: seq<nat>) {
    forall i, j :: 0 <= i < j < |slots| ==> slots[i] != slots[j]
  }

  ghost predicate Holds<I>(c: Cache<I>, i: nat, k: nat) {
    i < |c.entries| && c.entries[i].status != Inval && c.entries[i].idx == k
  }

  ghost predicate Cached<I>(c: Cache<I>, k: nat) {
    exists i: nat :: Holds(c, i, k)
  }

  // ----- what the cache keeps -----

  ghost predicate Shape<I>(c: Cache<I>) {
    && |c.entries| == MAX_COUNT && c.count <= MAX_COUNT
    && (forall i :: 0 <= i < MAX_COUNT && c.entries[i].status != Inval ==>
          i < c.count && Numbered(c, c.entries[i].idx))
  }

  /** No inode has two valid entries. */
  ghost predicate Distinct<I>(c: Cache<I>) {
    forall i: nat, j: nat, k: nat :: Holds(c, i, k) && Holds(c, j, k) ==> i == j
  }

  /** A clean entry equals the disk. */
  ghost predicate Clean<I>(c: Cache<I>) {
    forall i: nat, k: nat :: Holds(c, i, k) && c.entries[i].status == Valid ==> OnDisk(c, k, c.entries[i].inode)
  }

  /** A valid entry is the live inode of its number. */
  ghost predicate Serves<I>(c: Cache<I>, s: map<nat, I>) {
    forall i: nat, k: nat :: Holds(c, i, k) ==> k in s && c.entries[i].inode == s[k]
  }

  /** A live inode that is not cached is on disk. */
  ghost predicate Backed<I>(c: Cache<I>, s: map<nat, I>) {
    forall k: nat :: k in s ==> Numbered(c, k) && (Cached(c, k) || OnDisk(c, k, s[k]))
  }

  /** The cache on a disk whose slots are apart. */
  ghost predicate Inv<I>(c: Cache<I>, s: map<nat, I>) {
    Apart(c.slots) && Shape(c) && Distinct(c) && Clean(c) && Serves(c, s) && Backed(c, s)
  }

  // ----- the operations -----

  /** The entry `icache_insert` and `icache_lru_replace` take: the next free one,
      else the first invalid one, else the first with the least use count. */
  ghost predicate Victim<I>(c: Cache<I>, i: nat)
    requires Shape(c)
  {
    if c.count < MAX_COUNT then i == c.count
    else
      && i < MAX_COUNT
      && (forall j :: 0 <= j < i ==> c.entries[j].status != Inval)
      && (c.entries[i].status != Inval ==>
            && c.entries[i].lru < INT_MAX
            && (forall j :: 0 <= j < MAX_COUNT ==> c.entries[j].status != Inval)
            && (forall j :: 0 <= j < i ==> c.entries[i].lru < c.entries[j].lru)
            && (forall j :: i < j < MAX_COUNT ==> c.entries[i].lru <= c.entries[j].lru))
  }

  /** `icache_write_back` of entry `i`, when dirty. */
  function WrittenBack<I>(c: Cache<I>, i: nat): Cache<I>
    requires Shape(c) && i < MAX_COUNT
  {
    var e := c.entries[i];
    if e.status == Dirty then c.(disk := c.disk[c.slots[e.idx - 1] := e.inode]) else c
  }

  /** Entry `i` taken over for inode `k`; its contents loaded or left as they were. */
  function Placed<I>(c: Cache<I>, i: nat, k: nat, read: bool): Cache<I>
    requires Shape(c) && i < MAX_COUNT && Numbered(c, k)
  {
    var w := WrittenBack(c, i);
    var inode := if read then w.disk[c.slots[k - 1]] else c.entries[i].inode;
    w.(entries := c.entries[i := Entry(inode, k, 0, Valid)],
       count := if i < c.count then c.count else i + 1)
  }

  function Used(n: nat): nat {
    if n < UINT32_MAX then n + 1 else n
  }

  function Touched<I>(c: Cache<I>, i: nat): Cache<I>
    requires i < |c.entries|
  {
    c.(entries := c.entries[i := c.entries[i].(lru := Used(c.entries[i].lru))])
  }

  /** Contents stored through the entry's pointer, then `ICACHE_SET_DIRTY`. */
  function Stored<I>(c: Cache<I>, i: nat, v: I): Cache<I>
    requires i < |c.entries|
  {
    c.(entries := c.entries[i := c.entries[i].(inode := v, status := Dirty)])
  }

  function Dropped<I>(c: Cache<I>, i: nat): Cache<I>
    requires i < |c.entries|
  {
    c.(entries := c.entries[i := c.entries[i].(status := Inval)])
  }

  // ----- each operation keeps the invariant -----

  lemma OtherEntry<I>(c: Cache<I>, d: Cache<I>, i: nat, e: Entry<I>)
    requires i < |c.entries| && d.entries == c.entries[i := e]
    ensures forall j: nat, k: nat :: j != i ==> (Holds(d, j, k) <==> Holds(c, j, k))
    ensures forall k: nat :: Holds(d, i, k) <==> e.status != Inval && e.idx == k
  {
  }

  lemma WriteBackKeeps<I>(c: Cache<I>, s: map<nat, I>, i: nat)
    requires Inv(c, s) && i < MAX_COUNT
    ensures var w := WrittenBack(c, i);
            && Inv(w, s) && (forall k: nat :: Holds(c, i, k) ==> k in s && OnDisk(w, k, s[k]))
  {
    var w, e := WrittenBack(c, i), c.entries[i];
    assert forall j: nat, k: nat :: Holds(w, j, k) <==> Holds(c, j, k);
    if e.status == Dirty {
      assert Holds(c, i, e.idx);
      SlotKept(c, w, e.idx, e.inode);
      assert OnDisk(w, e.idx, e.inode);
    } else if e.status == Valid {
      assert Holds(c, i, e.idx);
    }
    forall k: nat
      ensures Cached(c, k) <==> Cached(w, k)
    {
      NotCached(c, w, k);
    }
  }

  /** Writing one slot leaves the others. */
  lemma SlotKept<I>(c: Cache<I>, w: Cache<I>, k: nat, v: I)
    requires Apart(c.slots) && Numbered(c, k) && w == c.(disk := c.disk[c.slots[k - 1] := v])
    ensures forall m: nat :: m != k && Numbered(c, m) ==> Numbered(w, m) && w.disk[w.slots[m - 1]] == c.disk[c.slots[m - 1]]
  {
    forall m: nat | m != k && Numbered(c, m)
      ensures Numbered(w, m) && w.disk[w.slots[m - 1]] == c.disk[c.slots[m - 1]]
    {
      assert m < k ==> c.slots[m - 1] != c.slots[k - 1];
      assert k < m ==> c.slots[k - 1] != c.slots[m - 1];
    }
  }

  /** Taking over entry `i` for an uncached live inode loads its store value. */
  lemma LoadKeeps<I>(c: Cache<I>, s: map<nat, I>, i: nat, k: nat)
    requires Inv(c, s) && Victim(c, i) && i < MAX_COUNT && k in s && !Cached(c, k)
    ensures Numbered(c, k) && Inv(Placed(c, i, k, true), s) && Holds(Placed(c, i, k, true), i, k)
  {
    WriteBackKeeps(c, s, i);
    var w, d := WrittenBack(c, i), Placed(c, i, k, true);
    OtherEntry(c, d, i, d.entries[i]);
    NotCached(c, w, k);
    TakeOver(w, d, s, i, k);
  }

  lemma NotCached<I>(c: Cache<I>, w: Cache<I>, k: nat)
    requires w.entries == c.entries
    ensures Cached(c, k) <==> Cached(w, k)
  {
    assert forall j: nat :: Holds(c, j, k) <==> Holds(w, j, k);
  }

  lemma TakeOver<I>(w: Cache<I>, d: Cache<I>, s: map<nat, I>, i: nat, k: nat)
    requires Inv(w, s) && i < MAX_COUNT && k in s && !Cached(w, k)
    requires Numbered(w, k) && d.entries == w.entries[i := Entry(w.disk[w.slots[k - 1]], k, 0, Valid)]
    requires d.disk == w.disk && d.slots == w.slots
    requires d.count == (if i < w.count then w.count else i + 1)
    requires forall m: nat :: Holds(w, i, m) ==> m in s && OnDisk(w, m, s[m])
    ensures Inv(d, s) && Holds(d, i, k)
  {
    OtherEntry(w, d, i, d.entries[i]);
    assert Shape(d);
    assert Backed(d, s) by {
      forall m | m in s
        ensures Cached(d, m) || OnDisk(d, m, s[m])
      {
        if Cached(w, m) {
          var j: nat :| Holds(w, j, m);
          if j != i { assert Holds(d, j, m); }
        }
      }
    }
  }

  lemma TouchKeeps<I>(c: Cache<I>, s: map<nat, I>, i: nat)
    requires Inv(c, s) && i < MAX_COUNT && c.entries[i].status != Inval
    ensures Inv(Touched(c, i), s)
    ensures forall k: nat :: Holds(c, i, k) ==> Holds(Touched(c, i), i, k)
  {
    var d := Touched(c, i);
    assert forall j: nat, k: nat :: Holds(d, j, k) <==> Holds(c, j, k);
    assert forall j :: 0 <= j < MAX_COUNT ==> d.entries[j].inode == c.entries[j].inode && d.entries[j].status == c.entries[j].status;
    assert Backed(d, s) by {
      forall k | k in s
        ensures Cached(d, k) || OnDisk(d, k, s[k])
      {
        if Cached(c, k) {
          var j: nat :| Holds(c, j, k);
          assert Holds(d, j, k);
        }
      }
    }
  }

  /** A store to a cached inode is a store to the plain store. */
  lemma StoreKeeps<I>(c: Cache<I>, s: map<nat, I>, i: nat, k: nat, v: I)
    requires Inv(c, s) && Holds(c, i, k)
    ensures Inv(Stored(c, i, v), s[k := v])
  {
    var d := Stored(c, i, v);
    OtherEntry(c, d, i, d.entries[i]);
    assert Backed(d, s[k := v]) by {
      forall m | m in s[k := v]
        ensures Numbered(d, m) && (Cached(d, m) || OnDisk(d, m, s[k := v][m]))
      {
        assert Holds(c, i, k) && k in s;
        if m == k {
          assert Holds(d, i, k);
        } else if Cached(c, m) {
          var j: nat :| Holds(c, j, m);
          assert Holds(d, j, m);
        }
      }
    }
  }

  /** `inode_create` of a number that is not live: taken over unread, filled in
      and marked dirty. */
  lemma CreateKeeps<I>(c: Cache<I>, s: map<nat, I>, i: nat, k: nat, v: I)
    requires Inv(c, s) && Victim(c, i) && i < MAX_COUNT && k !in s && Numbered(c, k)
    ensures Inv(Stored(Placed(c, i, k, false), i, v), s[k := v])
  {
    WriteBackKeeps(c, s, i);
    var w, d := WrittenBack(c, i), Stored(Placed(c, i, k, false), i, v);
    assert d.entries == w.entries[i := Entry(v, k, 0, Dirty)];
    CreateOver(w, d, s, i, k, v);
  }

  lemma CreateOver<I>(w: Cache<I>, d: Cache<I>, s: map<nat, I>, i: nat, k: nat, v: I)
    requires Inv(w, s) && i < MAX_COUNT && k !in s && Numbered(w, k)
    requires d.entries == w.entries[i := Entry(v, k, 0, Dirty)] && d.disk == w.disk && d.slots == w.slots
    requires d.count == (if i < w.count then w.count else i + 1)
    requires forall m: nat :: Holds(w, i, m) ==> m in s && OnDisk(w, m, s[m])
    ensures Inv(d, s[k := v])
  {
    OtherEntry(w, d, i, d.entries[i]);
    assert Shape(d);
    assert Backed(d, s[k := v]) by {
      forall m | m in s[k := v]
        ensures Numbered(d, m) && (Cached(d, m) || OnDisk(d, m, s[k := v][m]))
      {
        if m == k {
          assert Holds(d, i, k);
        } else if Cached(w, m) {
          var j: nat :| Holds(w, j, m);
          if j != i { assert Holds(d, j, m); }
        }
      }
    }
  }

  lemma DropKeeps<I>(c: Cache<I>, s: map<nat, I>, i: nat, k: nat)
    requires Inv(c, s) && Holds(c, i, k)
    ensures Inv(Dropped(c, i), s - {k})
  {
    var d := Dropped(c, i);
    OtherEntry(c, d, i, d.entries[i]);
    assert Backed(d, s - {k}) by {
      forall m | m in s - {k}
        ensures Numbered(d, m) && (Cached(d, m) || OnDisk(d, m, (s - {k})[m]))
      {
        if Cached(c, m) {
          var j: nat :| Holds(c, j, m);
          assert Holds(d, j, m);
        }
      }
    }
  }

  // ----- runs -----

  /** A request, with the entry it lands in. */
  datatype Op<I> =
    | Get(k: nat, at: nat)
    | Modify(k: nat, at: nat, v: I)
    | Create(k: nat, at: nat, v: I)
    | Delete(k: nat, at: nat)

  ghost predicate Lands<I>(c: Cache<I>, k: nat, i: nat)
    requires Shape(c)
  {
    Holds(c, i, k) || (!Cached(c, k) && Victim(c, i))
  }

  /** `inode_get_by_number`. */
  ghost function Got<I>(c: Cache<I>, k: nat, i: nat): (d: Cache<I>)
    requires Shape(c) && Numbered(c, k) && i < MAX_COUNT
    ensures |d.entries| == MAX_COUNT
  {
    Touched(if Holds(c, i, k) then c else Placed(c, i, k, true), i)
  }

  /** A get raises the use count of its entry by one, short of the largest, from 0
      when the inode was loaded; the entry keeps its contents and status, and a loaded
      one is clean. No other entry changes. */
  lemma GetCounts<I>(c: Cache<I>, k: nat, i: nat)
    requires Shape(c) && Numbered(c, k) && i < MAX_COUNT
    ensures var d, e := Got(c, k, i), c.entries[i];
            && (Holds(c, i, k) ==> d.entries[i] == e.(lru := d.entries[i].lru))
            && (Holds(c, i, k) && e.lru < UINT32_MAX ==> d.entries[i].lru == e.lru + 1)
            && (Holds(c, i, k) && e.lru == UINT32_MAX ==> d.entries[i].lru == UINT32_MAX)
            && (!Holds(c, i, k) ==> d.entries[i].lru == 1 && d.entries[i].status == Valid && d.entries[i].idx == k)
            && forall j :: 0 <= j < MAX_COUNT && j != i ==> d.entries[j] == c.entries[j]
  {
  }

  /** Requests name live inodes, and a new inode a number that is not live. */
  ghost predicate Enabled<I>(c: Cache<I>, s: map<nat, I>, op: Op<I>) {
    && Shape(c) && Numbered(c, op.k) && op.at < MAX_COUNT
    && if op.Create? then op.k !in s && Victim(c, op.at) else op.k in s && Lands(c, op.k, op.at)
  }

  ghost function Apply<I>(c: Cache<I>, op: Op<I>): Cache<I>
    requires Shape(c) && Numbered(c, op.k) && op.at < MAX_COUNT
  {
    match op
    case Get(k, i) => Got(c, k, i)
    case Modify(k, i, v) => Stored(Got(c, k, i), i, v)
    case Create(k, i, v) => Stored(Placed(c, i, k, false), i, v)
    case Delete(k, i) => Dropped(Got(c, k, i), i)
  }

  /** The same request on the plain store. */
  ghost function OnStore<I>(s: map<nat, I>, op: Op<I>): map<nat, I> {
    match op
    case Get(_, _) => s
    case Modify(k, _, v) => s[k := v]
    case Create(k, _, v) => s[k := v]
    case Delete(k, _) => s - {k}
  }

  lemma GotKeeps<I>(c: Cache<I>, s: map<nat, I>, k: nat, i: nat)
    requires Inv(c, s) && k in s && i < MAX_COUNT && Lands(c, k, i)
    ensures Inv(Got(c, k, i), s) && Holds(Got(c, k, i), i, k)
  {
    if Holds(c, i, k) {
      TouchKeeps(c, s, i);
    } else {
      LoadKeeps(c, s, i, k);
      TouchKeeps(Placed(c, i, k, true), s, i);
    }
  }

  lemma StepKeeps<I>(c: Cache<I>, s: map<nat, I>, op: Op<I>)
    requires Inv(c, s) && Enabled(c, s, op)
    ensures Inv(Apply(c, op), OnStore(s, op))
    ensures !op.Create? ==> Got(c, op.k, op.at).entries[op.at].inode == s[op.k]
  {
    if op.Create? {
      CreateKeeps(c, s, op.at, op.k, op.v);
    } else {
      GotKeeps(c, s, op.k, op.at);
      match op
      case Get(k, i) =>
      case Modify(k, i, v) => StoreKeeps(Got(c, k, i), s, i, k, v);
      case Delete(k, i) => DropKeeps(Got(c, k, i), s, i, k);
    }
  }

  ghost predicate Run<I>(c: Cache<I>, s: map<nat, I>, ops: seq<Op<I>>)
    decreases |ops|
  {
    ops == [] || (Enabled(c, s, ops[0]) && Run(Apply(c, ops[0]), OnStore(s, ops[0]), ops[1..]))
  }

  ghost function After<I>(c: Cache<I>, s: map<nat, I>, ops: seq<Op<I>>): (Cache<I>, map<nat, I>)
    requires Run(c, s, ops)
    decreases |ops|
  {
    if ops == [] then (c, s) else After(Apply(c, ops[0]), OnStore(s, ops[0]), ops[1..])
  }

  /** What the run's gets return. */
  ghost function Returned<I>(c: Cache<I>, s: map<nat, I>, ops: seq<Op<I>>): seq<I>
    requires Run(c, s, ops)
    decreases |ops|
  {
    if ops == [] then []
    else
      (if ops[0].Get? then [Got(c, ops[0].k, ops[0].at).entries[ops[0].at].inode] else [])
      + Returned(Apply(c, ops[0]), OnStore(s, ops[0]), ops[1..])
  }

  /** What a plain store would return. */
  ghost function Expected<I>(s: map<nat, I>, ops: seq<Op<I>>): seq<I>
    decreases |ops|
  {
    if ops == [] then []
    else
      (if ops[0].Get? && ops[0].k in s then [s[ops[0].k]] else []) + Expected(OnStore(s, ops[0]), ops[1..])
  }

  /** Over every run the cache answers as the plain store does. */
  lemma {:induction false} RefinesStore<I>(c: Cache<I>, s: map<nat, I>, ops: seq<Op<I>>)
    requires Inv(c, s) && Run(c, s, ops)
    ensures Inv(After(c, s, ops).0, After(c, s, ops).1)
    ensures Returned(c, s, ops) == Expected(s, ops)
    decreases |ops|
  {
    if ops != [] {
      StepKeeps(c, s, ops[0]);
      RefinesStore(Apply(c, ops[0]), OnStore(s, ops[0]), ops[1..]);
    }
  }

  // ----- unmount -----

  /** The write-back loop over the first `n` entries. */
  function Flushed<I>(c: Cache<I>, n: nat): (d: Cache<I>)
    requires Shape(c) && n <= MAX_COUNT
    ensures Shape(d) && d.entries == c.entries && d.count == c.count && d.slots == c.slots && |d.disk| == |c.disk|
  {
    if n == 0 then c else WrittenBack(Flushed(c, n - 1), n - 1)
  }

  /** The disk has the live inodes of the first `n` entries. */
  ghost predicate Settled<I>(c: Cache<I>, s: map<nat, I>, n: nat) {
    forall i: nat, k: nat :: i < n && Holds(c, i, k) && k in s ==> OnDisk(c, k, s[k])
  }

  datatype Aspect = Keeps | Settles

  /** What holds once the first `n` entries are written back. */
  ghost predicate FlushedTo<I>(c: Cache<I>, s: map<nat, I>, n: nat, a: Aspect) {
    match a
    case Keeps => Inv(c, s)
    case Settles => Settled(c, s, n)
  }

  ghost predicate AllFlushed<I>(c: Cache<I>, s: map<nat, I>, n: nat) {
    forall a: Aspect :: FlushedTo(c, s, n, a)
  }

  lemma FlushKeeps<I>(c: Cache<I>, s: map<nat, I>, n: nat)
    requires Inv(c, s) && n <= MAX_COUNT
    ensures Inv(Flushed(c, n), s) && Settled(Flushed(c, n), s, n)
  {
    FlushLoop(c, s, n);
    assert FlushedTo(Flushed(c, n), s, n, Keeps) && FlushedTo(Flushed(c, n), s, n, Settles);
  }

  lemma {:induction false} FlushLoop<I>(c: Cache<I>, s: map<nat, I>, n: nat)
    requires Shape(c) && AllFlushed(c, s, 0) && n <= MAX_COUNT
    ensures AllFlushed(Flushed(c, n), s, n)
  {
    if n > 0 {
      FlushLoop(c, s, n - 1);
      FlushStep(Flushed(c, n - 1), Flushed(c, n), s, n - 1, n);
    }
  }

  lemma FlushStep<I>(d: Cache<I>, w: Cache<I>, s: map<nat, I>, n: nat, next: nat)
    requires Shape(d) && AllFlushed(d, s, n) && n < MAX_COUNT && w == WrittenBack(d, n) && next == n + 1
    ensures AllFlushed(w, s, next)
  {
    assert FlushedTo(d, s, n, Keeps) && FlushedTo(d, s, n, Settles);
    SettleStep(d, w, s, n, next);
  }

  lemma SettleStep<I>(d: Cache<I>, w: Cache<I>, s: map<nat, I>, n: nat, next: nat)
    requires Inv(d, s) && n < MAX_COUNT && Settled(d, s, n) && w == WrittenBack(d, n) && next == n + 1
    ensures Inv(w, s) && Settled(w, s, next)
  {
    WriteBackKeeps(d, s, n);
    forall i: nat, k: nat | i <= n && Holds(w, i, k) && k in s
      ensures OnDisk(w, k, s[k])
    {
      assert Holds(d, i, k);
      if d.entries[n].status == Dirty {
        assert Holds(d, n, d.entries[n].idx);
      }
    }
  }

  /** After any run and the unmount loop, the disk holds every live inode. */
  lemma UnmountDisk<I>(c: Cache<I>, s: map<nat, I>, ops: seq<Op<I>>)
    requires Inv(c, s) && Run(c, s, ops)
    ensures var (d, t) := After(c, s, ops);
            && Shape(d)
            && forall k :: k in t ==> OnDisk(Flushed(d, d.count), k, t[k])
  {
    RefinesStore(c, s, ops);
    var (d, t) := After(c, s, ops);
    FlushKeeps(d, t, d.count);
    var f := Flushed(d, d.count);
    forall k | k in t
      ensures OnDisk(f, k, t[k])
    {
      if Cached(f, k) {
        var i: nat :| Holds(f, i, k);
      }
    }
  }

  // ----- slots that are shared -----

  /** A cache just mounted: nothing cached, every live inode in its slot. */
  ghost predicate Mounted<I>(c: Cache<I>, s: map<nat, I>) {
    && |c.entries| == MAX_COUNT && c.count == 0
    && (forall i :: 0 <= i < MAX_COUNT ==> c.entries[i].status == Inval)
    && (forall k :: k in s ==> OnDisk(c, k, s[k]))
  }

  /** The run and the unmount after it leave every live inode in its slot. */
  ghost predicate Kept<I>(c: Cache<I>, s: map<nat, I>, ops: seq<Op<I>>) {
    Run(c, s, ops) ==>
      var (d, t) := After(c, s, ops);
      Shape(d) && forall k :: k in t ==> OnDisk(Flushed(d, d.count), k, t[k])
  }

  /** A mount with no live inode, its slots holding `x`. */
  ghost function EmptyMount<I>(slots: seq<nat>, n: nat, x: I): (c: Cache<I>)
    ensures Mounted(c, map[]) && Shape(c) && c.slots == slots && c.disk == seq(n, _ => x)
  {
    Cache(seq(MAX_COUNT, _ => Entry(x, 0, 0, Inval)), 0, slots, seq(n, _ => x))
  }

  /** Creating an inode while there are free entries. */
  lemma CreateFresh<I>(c: Cache<I>, s: map<nat, I>, k: nat, v: I, op: Op<I>)
    requires Shape(c) && c.count < MAX_COUNT && Numbered(c, k) && k !in s && op == Create(k, c.count, v)
    ensures Enabled(c, s, op) && OnStore(s, op) == s[k := v]
    ensures Apply(c, op) == c.(entries := c.entries[c.count := Entry(v, k, 0, Dirty)], count := c.count + 1)
    ensures Shape(Apply(c, op))
  {
  }

  /** The unmount loop over the first entries. */
  lemma FlushFirst<I>(d: Cache<I>, w: Cache<I>, v: Cache<I>, one: nat, two: nat)
    requires Shape(d) && w == WrittenBack(d, 0) && Shape(w) && v == WrittenBack(w, 1) && one == 1 && two == 2
    ensures Flushed(d, one) == w && Flushed(d, two) == v
  {
    assert Flushed(d, one - 1) == d;
    assert Flushed(d, one) == WrittenBack(Flushed(d, one - 1), one - 1);
    assert Flushed(d, two) == WrittenBack(Flushed(d, one), two - 1);
  }

  /** With `a` and `b` in one slot, creating `a` and then `b` and unmounting loses
      `a`: its slot has `b`. */
  lemma LostWrite<I>(slots: seq<nat>, n: nat, a: nat, b: nat, x: I, y: I) returns (c: Cache<I>, s: map<nat, I>, ops: seq<Op<I>>)
    requires 1 <= a <= |slots| && 1 <= b <= |slots| && a != b && slots[a - 1] == slots[b - 1] < n && x != y
    ensures c.slots == slots && s == map[] && Mounted(c, s) && Run(c, s, ops) && !Kept(c, s, ops)
    ensures var (d, t) := After(c, s, ops);
            Shape(d) && a in t && t[a] == x && OnDisk(Flushed(d, d.count), a, y)
  {
    c, s := EmptyMount(slots, n, x), map[];
    var first: Op<I>, second: Op<I> := Create(a, 0, x), Create(b, 1, y);
    ops := [first, second];
    CreateFresh(c, s, a, x, first);
    var c1, s1 := Apply(c, first), OnStore(s, first);
    CreateFresh(c1, s1, b, y, second);
    var d, t := Apply(c1, second), OnStore(s1, second);
    TwoSteps(c, s, ops, c1, s1, d, t);
    SharedFlush(d, a, b, x, y, d.count);
    NotKept(c, s, ops, d, t, a, y);
  }

  lemma SharedFlush<I>(d: Cache<I>, a: nat, b: nat, x: I, y: I, n: nat)
    requires Shape(d) && d.entries[0] == Entry(x, a, 0, Dirty) && d.entries[1] == Entry(y, b, 0, Dirty)
    requires Numbered(d, a) && Numbered(d, b) && d.slots[a - 1] == d.slots[b - 1]
    requires n == 2
    ensures OnDisk(Flushed(d, n), a, y)
  {
    var w := SharedFirst(d, a, b, x, y);
    var v := WrittenBack(w, 1);
    assert OnDisk(v, a, y);
    assert Flushed(d, n) == v by { FlushFirst(d, w, v, 1, n); }
  }

  lemma SharedFirst<I>(d: Cache<I>, a: nat, b: nat, x: I, y: I) returns (w: Cache<I>)
    requires Shape(d) && d.entries[0] == Entry(x, a, 0, Dirty) && d.entries[1] == Entry(y, b, 0, Dirty)
    requires Numbered(d, a) && Numbered(d, b) && d.slots[a - 1] == d.slots[b - 1]
    ensures Shape(w) && w == WrittenBack(d, 0) && w.entries[1] == Entry(y, b, 0, Dirty)
    ensures Numbered(w, a) && Numbered(w, b) && w.slots[a - 1] == w.slots[b - 1]
  {
    w := WrittenBack(d, 0);
  }

  lemma OneStep<I>(c: Cache<I>, s: map<nat, I>, ops: seq<Op<I>>, d: Cache<I>, t: map<nat, I>)
    requires ops != [] && ops[1..] == [] && Enabled(c, s, ops[0]) && d == Apply(c, ops[0]) && t == OnStore(s, ops[0])
    ensures Run(c, s, ops) && After(c, s, ops) == (d, t)
  {
    assert Run(d, t, []);
  }

  lemma TwoSteps<I>(c: Cache<I>, s: map<nat, I>, ops: seq<Op<I>>, c1: Cache<I>, s1: map<nat, I>, d: Cache<I>, t: map<nat, I>)
    requires |ops| == 2 && Enabled(c, s, ops[0]) && c1 == Apply(c, ops[0]) && s1 == OnStore(s, ops[0])
    requires Enabled(c1, s1, ops[1]) && d == Apply(c1, ops[1]) && t == OnStore(s1, ops[1])
    ensures Run(c, s, ops) && After(c, s, ops) == (d, t)
  {
    assert ops[1..][1..] == [];
    OneStep(c1, s1, ops[1..], d, t);
  }

  lemma NotKept<I>(c: Cache<I>, s: map<nat, I>, ops: seq<Op<I>>, d: Cache<I>, t: map<nat, I>, k: nat, y: I)
    requires Run(c, s, ops) && After(c, s, ops) == (d, t) && Shape(d)
    requires k in t && t[k] != y && OnDisk(Flushed(d, d.count), k, y)
    ensures !Kept(c, s, ops)
  {
    assert !OnDisk(Flushed(d, d.count), k, t[k]);
  }

  /** Every run from a mount keeps every live inode if and only if no two inodes
      share a slot. */
  lemma KeptIff<I(!new)>(slots: seq<nat>, n: nat, x: I, y: I)
    requires x != y && forall k :: 0 <= k < |slots| ==> slots[k] < n
    ensures (forall c: Cache<I>, s: map<nat, I>, ops: seq<Op<I>> ::
               c.slots == slots && Mounted(c, s) ==> Kept(c, s, ops)) <==> Apart(slots)
  {
    if Apart(slots) {
      forall c: Cache<I>, s: map<nat, I>, ops: seq<Op<I>> | c.slots == slots && Mounted(c, s)
        ensures Kept(c, s, ops)
      {
        assert forall i: nat, k: nat :: !Holds(c, i, k);
        assert Inv(c, s);
        if Run(c, s, ops) { UnmountDisk(c, s, ops); }
      }
    } else {
      var i, j :| 0 <= i < j < |slots| && slots[i] == slots[j];
      var c, s, ops := LostWrite(slots, n, i + 1, j + 1, x, y);
      assert !Kept(c, s, ops);
    }
  }

  // ----- what the cache does not own -----

  /** A run and the unmount after it leave slot `j` as it was. */
  ghost predicate Untouched<I>(c: Cache<I>, s: map<nat, I>, ops: seq<Op<I>>, j: nat) {
    Run(c, s, ops) ==>
      var d := After(c, s, ops).0;
      Shape(d) && j < |d.disk| && j < |c.disk| && Flushed(d, d.count).disk[j] == c.disk[j]
  }

  /** The disk of `d` is that of `c` at `j`, which is no slot. */
  ghost predicate SameAt<I>(c: Cache<I>, d: Cache<I>, j: nat) {
    && Shape(d) && d.slots == c.slots && |d.disk| == |c.disk| && j < |d.disk| && d.disk[j] == c.disk[j]
    && forall k :: 0 <= k < |d.slots| ==> d.slots[k] != j
  }

  lemma StepOutside<I>(c: Cache<I>, s: map<nat, I>, op: Op<I>, j: nat)
    requires SameAt(c, c, j) && Enabled(c, s, op)
    ensures SameAt(c, Apply(c, op), j)
  {
    var k, i := op.k, op.at;
    if op.Create? {
      PlaceOutside(c, i, k, false, j);
      ChangeOutside(c, Placed(c, i, k, false), Apply(c, op), i, j);
    } else {
      if !Holds(c, i, k) { PlaceOutside(c, i, k, true, j); }
      var w := if Holds(c, i, k) then c else Placed(c, i, k, true);
      ChangeOutside(c, w, Got(c, k, i), i, j);
      if !op.Get? { ChangeOutside(c, Got(c, k, i), Apply(c, op), i, j); }
    }
  }

  lemma PlaceOutside<I>(c: Cache<I>, i: nat, k: nat, read: bool, j: nat)
    requires SameAt(c, c, j) && i < MAX_COUNT && Numbered(c, k) && i <= c.count
    ensures SameAt(c, Placed(c, i, k, read), j)
    ensures Placed(c, i, k, read).entries[i].status != Inval
  {
  }

  /** A change of a valid entry that keeps its number, or its invalidation. */
  lemma ChangeOutside<I>(c: Cache<I>, w: Cache<I>, d: Cache<I>, i: nat, j: nat)
    requires SameAt(c, w, j) && i < MAX_COUNT && w.entries[i].status != Inval
    requires |d.entries| == MAX_COUNT && d == w.(entries := w.entries[i := d.entries[i]])
    requires d.entries[i].idx == w.entries[i].idx
    ensures SameAt(c, d, j)
  {
  }

  lemma {:induction false} RunOutside<I>(c: Cache<I>, s: map<nat, I>, ops: seq<Op<I>>, j: nat)
    requires SameAt(c, c, j) && Run(c, s, ops)
    ensures SameAt(c, After(c, s, ops).0, j)
    decreases |ops|
  {
    if ops != [] {
      StepOutside(c, s, ops[0], j);
      RunOutside(Apply(c, ops[0]), OnStore(s, ops[0]), ops[1..], j);
    }
  }

  lemma {:induction false} FlushOutside<I>(d: Cache<I>, n: nat, j: nat)
    requires SameAt(d, d, j) && n <= MAX_COUNT
    ensures SameAt(d, Flushed(d, n), j)
  {
    if n > 0 { FlushOutside(d, n - 1, j); }
  }

  /** Every run from a mount leaves slot `j` of the disk alone if and only if no
      inode has that slot. */
  lemma UntouchedIff<I(!new)>(slots: seq<nat>, n: nat, j: nat, x: I, y: I)
    requires x != y && j < n && forall k :: 0 <= k < |slots| ==> slots[k] < n
    ensures (forall c: Cache<I>, s: map<nat, I>, ops: seq<Op<I>> ::
               c.slots == slots && |c.disk| == n && Mounted(c, s) ==> Untouched(c, s, ops, j))
            <==> forall k :: 0 <= k < |slots| ==> slots[k] != j
  {
    if k :| 0 <= k < |slots| && slots[k] == j {
      var c, ops := Overwrite(slots, n, k + 1, x, y);
      assert !Untouched(c, map[], ops, j);
    } else {
      forall c: Cache<I>, s: map<nat, I>, ops: seq<Op<I>> | c.slots == slots && |c.disk| == n && Mounted(c, s)
        ensures Untouched(c, s, ops, j)
      {
        if Run(c, s, ops) {
          RunOutside(c, s, ops, j);
          FlushOutside(After(c, s, ops).0, After(c, s, ops).0.count, j);
        }
      }
    }
  }

  /** Creating inode `k` and unmounting writes its slot, whatever was there. */
  lemma Overwrite<I>(slots: seq<nat>, n: nat, k: nat, x: I, y: I) returns (c: Cache<I>, ops: seq<Op<I>>)
    requires 1 <= k <= |slots| && slots[k - 1] < n && x != y
    ensures c.slots == slots && |c.disk| == n && Mounted(c, map[]) && Run(c, map[], ops)
    ensures var d := After(c, map[], ops).0;
            && Shape(d) && |d.disk| == n && c.disk[slots[k - 1]] == x && Flushed(d, d.count).disk[slots[k - 1]] == y
            && !Untouched(c, map[], ops, slots[k - 1])
  {
    c := EmptyMount(slots, n, x);
    var op: Op<I> := Create(k, 0, y);
    ops := [op];
    CreateFresh(c, map[], k, y, op);
    var d := Apply(c, op);
    assert ops[1..] == [];
    OneStep(c, map[], ops, d, OnStore(map[], op));
    assert Flushed(d, 1) == WrittenBack(d, 0);
  }

  // ----- eviction always finds an entry -----

  ghost predicate Bounded<I>(c: Cache<I>, n: nat) {
    forall i :: 0 <= i < |c.entries| ==> c.entries[i].lru <= n
  }

  /** The condition the eviction scan needs. */
  ghost predicate Ready<I>(c: Cache<I>)
    requires Shape(c)
  {
    c.count < MAX_COUNT || exists i :: 0 <= i < MAX_COUNT && (c.entries[i].status == Inval || c.entries[i].lru < INT_MAX)
  }

  /** The first invalid entry among the first `n`, or none. */
  lemma FirstInvalid<I>(c: Cache<I>, n: nat) returns (i: nat)
    requires Shape(c) && n <= MAX_COUNT
    ensures i <= n && forall j :: 0 <= j < i ==> c.entries[j].status != Inval
    ensures i < n ==> c.entries[i].status == Inval
  {
    i := 0;
    while i < n && c.entries[i].status != Inval
      invariant i <= n && forall j :: 0 <= j < i ==> c.entries[j].status != Inval
    {
      i := i + 1;
    }
  }

  /** The first entry with the least use count among the first `n`. */
  lemma FirstLeast<I>(c: Cache<I>, n: nat) returns (i: nat)
    requires Shape(c) && 0 < n <= MAX_COUNT
    ensures i < n
    ensures forall j :: 0 <= j < i ==> c.entries[i].lru < c.entries[j].lru
    ensures forall j :: i < j < n ==> c.entries[i].lru <= c.entries[j].lru
  {
    i := 0;
    var m := 1;
    while m < n
      invariant i < m <= n
      invariant forall j :: 0 <= j < i ==> c.entries[i].lru < c.entries[j].lru
      invariant forall j :: i < j < m ==> c.entries[i].lru <= c.entries[j].lru
    {
      if c.entries[m].lru < c.entries[i].lru {
        i := m;
      }
      m := m + 1;
    }
  }

  /** Eviction finds an entry exactly when there is room, or some entry is
      invalid, or some use count is below INT_MAX. */
  lemma VictimIff<I>(c: Cache<I>)
    requires Shape(c)
    ensures Ready(c) <==> exists i: nat :: Victim(c, i)
  {
    if Ready(c) && c.count == MAX_COUNT {
      var f := FirstInvalid(c, MAX_COUNT);
      if f < MAX_COUNT {
        assert Victim(c, f);
      } else {
        var l := FirstLeast(c, MAX_COUNT);
        assert Victim(c, l);
      }
    } else if c.count < MAX_COUNT {
      assert Victim(c, c.count);
    }
  }

  lemma StepBounded<I>(c: Cache<I>, s: map<nat, I>, op: Op<I>, n: nat)
    requires Enabled(c, s, op) && Bounded(c, n)
    ensures Bounded(Apply(c, op), n + 1)
  {
  }

  /** A run of fewer than INT_MAX requests from an unused cache leaves an entry
      for every next request. */
  lemma {:induction false} NeverStalls<I>(c: Cache<I>, s: map<nat, I>, ops: seq<Op<I>>, n: nat, k: nat)
    requires Inv(c, s) && Run(c, s, ops) && Bounded(c, n) && n + |ops| < INT_MAX
    ensures var d := After(c, s, ops).0;
            && Shape(d)
            && (exists i: nat :: Victim(d, i))
            && exists i: nat :: Lands(d, k, i)
    decreases |ops|
  {
    if ops == [] {
      NextLands(c, n, k);
    } else {
      StepKeeps(c, s, ops[0]);
      StepBounded(c, s, ops[0], n);
      NeverStalls(Apply(c, ops[0]), OnStore(s, ops[0]), ops[1..], n + 1, k);
    }
  }

  lemma NextLands<I>(c: Cache<I>, n: nat, k: nat)
    requires Shape(c) && Bounded(c, n) && n < INT_MAX
    ensures (exists i: nat :: Victim(c, i)) && exists i: nat :: Lands(c, k, i)
  {
    assert c.entries[0].lru < INT_MAX;
    VictimIff(c);
    if Cached(c, k) {
      var i: nat :| Holds(c, i, k);
      assert Lands(c, k, i);
    } else {
      var i: nat :| Victim(c, i);
      assert Lands(c, k, i);
    }
  }

  // ----- the cache in place -----

  class ICache<I> {
    const entries: array<Entry<I>>
    var count: nat
    const slots: seq<nat>
    var disk: seq<I>

    ghost function C(): Cache<I>
      reads this, entries
    {
      Cache(entries[..], count, slots, disk)
    }

    /** `cache_init`: zeroed entries over the mounted disk. */
    constructor (zero: I, slots: seq<nat>, disk: seq<I>, ghost s: map<nat, I>)
      requires Apart(slots)
      requires forall k :: k in s ==> 1 <= k <= |slots| && slots[k - 1] < |disk| && disk[slots[k - 1]] == s[k]
      ensures fresh(entries) && Inv(C(), s) && Bounded(C(), 0) && this.slots == slots && this.disk == disk
    {
      entries := new Entry<I>[MAX_COUNT](_ => Entry(zero, 0, 0, Inval));
      count := 0;
      this.slots, this.disk := slots, disk;
      new;
      assert forall i: nat, k: nat :: !Holds(C(), i, k);
    }

    /** `icache_find`. */
    method Find(k: nat) returns (i: int)
      requires Shape(C())
      ensures i == -1 <==> !Cached(C(), k)
      ensures i != -1 ==> 0 <= i && Holds(C(), i, k)
    {
      ghost var c := C();
      for n := 0 to count
        invariant forall j: nat :: j < n ==> !Holds(c, j, k)
      {
        if entries[n].status != Inval && entries[n].idx == k {
          assert Holds(c, n, k);
          return n;
        }
      }
      return -1;
    }

    /** The scan of `icache_lru_replace`. */
    method LruScan() returns (i: nat)
      requires Shape(C()) && count == MAX_COUNT && Ready(C())
      ensures Victim(C(), i)
      ensures i < MAX_COUNT && forall j :: 0 <= j < i ==> entries[j].status != Inval
      ensures entries[i].status != Inval ==> forall j :: 0 <= j < MAX_COUNT ==>
                entries[j].status != Inval && entries[i].lru <= entries[j].lru && (entries[i].lru == entries[j].lru ==> i <= j)
    {
      var least, at := INT_MAX, -1;
      for n := 0 to count
        invariant forall j :: 0 <= j < n ==> entries[j].status != Inval && least <= entries[j].lru
        invariant at == -1 ==> least == INT_MAX
        invariant at != -1 ==> 0 <= at < n && entries[at].lru == least < INT_MAX
        invariant at != -1 ==> forall j :: 0 <= j < at ==> least < entries[j].lru
      {
        if entries[n].status == Inval {
          return n;
        }
        if entries[n].lru < least {
          at, least := n, entries[n].lru;
        }
      }
      return at;
    }

    /** `icache_write_back`, for a dirty entry. */
    method WriteBack(i: nat)
      requires Shape(C()) && i < MAX_COUNT && entries[i].status == Dirty
      modifies this`disk
      ensures C() == WrittenBack(old(C()), i)
    {
      disk := disk[slots[entries[i].idx - 1] := entries[i].inode];
    }

    /** `icache_insert`, with `icache_lru_replace` once the array is full. */
    method Insert(k: nat, read: bool) returns (i: nat)
      requires Shape(C()) && Ready(C()) && Numbered(C(), k)
      modifies this, entries
      ensures i < MAX_COUNT && old(Victim(C(), i)) && C() == Placed(old(C()), i, k, read)
      ensures old(count) < MAX_COUNT ==> i == old(count)
    {
      ghost var c := C();
      if count == MAX_COUNT {
        i := LruScan();
        if entries[i].status == Dirty {
          WriteBack(i);
        }
      } else {
        i := count;
        count := count + 1;
      }
      var inode := if read then disk[slots[k - 1]] else entries[i].inode;
      entries[i] := Entry(inode, k, 0, Valid);
      assert C() == Placed(c, i, k, read);
    }

    /** `inode_get_by_number`; number 0 is -ENOENT. */
    method GetByNumber(k: nat, ghost s: map<nat, I>) returns (i: int)
      requires Inv(C(), s) && (k != 0 ==> k in s && (Cached(C(), k) || Ready(C())))
      modifies this, entries
      ensures k == 0 ==> i == -1 && C() == old(C())
      ensures k != 0 ==>
                && 0 <= i < MAX_COUNT
                && old(Lands(C(), k, i))
                && C() == old(Got(C(), k, i))
                && Inv(C(), s) && Holds(C(), i, k) && C().entries[i].inode == s[k]
    {
      if k == 0 {
        return -1;
      }
      ghost var c := C();
      i := Find(k);
      if i == -1 {
        i := Insert(k, true);
        assert !Holds(c, i, k);
      }
      entries[i] := entries[i].(lru := Used(entries[i].lru));
      assert C() == Got(c, k, i);
      GotKeeps(c, s, k, i);
    }

    /** A change of a cached inode's fields, followed by `ICACHE_SET_DIRTY`. */
    method Set(i: nat, k: nat, v: I, ghost s: map<nat, I>)
      requires Inv(C(), s) && Holds(C(), i, k)
      modifies entries
      ensures C() == Stored(old(C()), i, v) && Inv(C(), s[k := v])
    {
      ghost var c := C();
      entries[i] := entries[i].(inode := v, status := Dirty);
      assert C() == Stored(c, i, v);
      StoreKeeps(c, s, i, k, v);
    }

    /** `inode_create`. */
    method CreateInode(k: nat, v: I, ghost s: map<nat, I>) returns (i: nat)
      requires Inv(C(), s) && k !in s && Numbered(C(), k) && Ready(C())
      modifies this, entries
      ensures Inv(C(), s[k := v]) && Holds(C(), i, k)
      ensures i < MAX_COUNT && C() == old(Apply(C(), Create(k, i, v)))
    {
      ghost var c := C();
      i := Insert(k, false);
      entries[i] := entries[i].(inode := v, status := Dirty);
      assert C() == Stored(Placed(c, i, k, false), i, v);
      CreateKeeps(c, s, i, k, v);
    }

    /** `ICACHE_SET_INVAL`, once the last link is gone. */
    method Invalidate(i: nat, k: nat, ghost s: map<nat, I>)
      requires Inv(C(), s) && Holds(C(), i, k)
      modifies entries
      ensures C() == Dropped(old(C()), i) && Inv(C(), s - {k})
    {
      ghost var c := C();
      entries[i] := entries[i].(status := Inval);
      assert C() == Dropped(c, i);
      DropKeeps(c, s, i, k);
    }

    /** The inode loop of `op_destory`. */
    method Unmount(ghost s: map<nat, I>)
      requires Inv(C(), s)
      modifies this`disk
      ensures C() == Flushed(old(C()), count)
      ensures forall k :: k in s ==> OnDisk(C(), k, s[k])
    {
      WriteBackAll();
      UnmountDisk(old(C()), s, []);
    }

    method WriteBackAll()
      requires Shape(C())
      modifies this`disk
      ensures C() == Flushed(old(C()), count)
    {
      ghost var c := C();
      for i := 0 to count
        invariant C() == Flushed(c, i)
      {
        if entries[i].status == Dirty {
          WriteBack(i);
        }
      }
    }
  }
}
