/** The chained hash table: an array of singly linked chains of nodes, relinked
    in place when the table is rehashed, refining a finite map.  Node memory is
    an explicit store: an address names a node, and 0 is the null pointer. */
module HashTableModel {
  import opened Common

  const HT_MINIMUM_CAPACITY: nat := 8
  const HT_LOAD_FACTOR: nat := 5
  const HT_GROWTH_FACTOR: nat := 2

  datatype Node<K, V> = Node(key: K, value: V, next: nat)

  /** The remainder of `x` by `n`, by subtraction. */
  function Mod(x: nat, n: nat): (r: nat)
    requires n > 0
    ensures r < n
  {
    if x < n then x else Mod(x - n, n)
  }

  lemma {:induction false} ModIsRemainder(x: nat, n: nat)
    requires n > 0
    ensures Mod(x, n) == x % n
    decreases x
  {
    if x >= n {
      ModIsRemainder(x - n, n);
      ModUnique(x, (x - n) / n + 1, (x - n) % n, n);
    }
  }

  // ----- chains -----

  /** `c` lists the addresses reached from `head` by following `next`. */
  ghost predicate Linked<K, V>(store: map<nat, Node<K, V>>, head: nat, c: seq<nat>)
    decreases |c|
  {
    if c == [] then head == 0
    else head == c[0] && head != 0 && head in store && Linked(store, store[head].next, c[1..])
  }

  ghost predicate Distinct(s: seq<nat>) {
    forall i, j :: 0 <= i < j < |s| ==> s[i] != s[j]
  }

  ghost function Total(chains: seq<seq<nat>>): nat
    decreases |chains|
  {
    if chains == [] then 0 else Total(chains[..|chains| - 1]) + |chains[|chains| - 1]|
  }

  lemma {:induction false} TotalUpdate(chains: seq<seq<nat>>, b: nat, c: seq<nat>)
    requires b < |chains|
    ensures Total(chains[b := c]) == Total(chains) - |chains[b]| + |c|
    decreases |chains|
  {
    var n := |chains| - 1;
    if b == n {
      assert chains[b := c][..n] == chains[..n];
    } else {
      assert chains[b := c][..n] == chains[..n][b := c];
      TotalUpdate(chains[..n], b, c);
    }
  }

  lemma {:induction false} TotalEmpty(chains: seq<seq<nat>>)
    requires forall b :: 0 <= b < |chains| ==> chains[b] == []
    ensures Total(chains) == 0
    decreases |chains|
  {
    if chains != [] { TotalEmpty(chains[..|chains| - 1]); }
  }

  /** A chain does not depend on nodes outside it, nor on values. */
  lemma {:induction false} LinkedFrame<K, V>(s: map<nat, Node<K, V>>, t: map<nat, Node<K, V>>, head: nat, c: seq<nat>)
    requires Linked(s, head, c)
    requires forall p :: p in c && p in s ==> p in t && t[p].next == s[p].next
    ensures Linked(t, head, c)
    decreases |c|
  {
    if c != [] {
      assert forall p :: p in c[1..] ==> p in c;
      LinkedFrame(s, t, s[head].next, c[1..]);
    }
  }

  /** The addresses of a chain are allocated and not null. */
  lemma {:induction false} LinkedAllocated<K, V>(s: map<nat, Node<K, V>>, head: nat, c: seq<nat>, i: nat)
    requires Linked(s, head, c) && i < |c|
    ensures c[i] != 0 && c[i] in s && s[c[i]].next == if i + 1 < |c| then c[i + 1] else 0
    decreases |c|
  {
    if i > 0 {
      LinkedAllocated(s, s[head].next, c[1..], i - 1);
      assert c[1..][i - 1] == c[i];
    } else {
      assert |c| > 1 ==> c[1..][0] == c[1];
    }
  }

  // ----- the table's meaning -----

  /** The nodes that `owner` names are allocated under their keys. */
  ghost predicate Owned<K, V>(store: map<nat, Node<K, V>>, owner: map<K, nat>) {
    forall k :: k in owner ==> owner[k] in store && store[owner[k]].key == k
  }

  /** Every chain holds nodes of `owner` that hash to it, once each. */
  ghost predicate Seated<K, V>(hash: K -> nat, store: map<nat, Node<K, V>>, chains: seq<seq<nat>>, owner: map<K, nat>)
  {
    && |chains| > 0
    && (forall b, i :: 0 <= b < |chains| && 0 <= i < |chains[b]| ==> SeatedAt(hash, store, |chains|, owner, b, chains[b][i]))
    && (forall b :: 0 <= b < |chains| ==> Distinct(chains[b]))
  }

  ghost predicate SeatedAt<K, V>(hash: K -> nat, store: map<nat, Node<K, V>>, cap: nat, owner: map<K, nat>, b: nat, p: nat)
    requires cap > 0
  {
    p in store && Mod(hash(store[p].key), cap) == b && store[p].key in owner && owner[store[p].key] == p
  }

  /** Every node of `owner` sits in the chain its key hashes to. */
  ghost predicate Complete<K>(hash: K -> nat, chains: seq<seq<nat>>, owner: map<K, nat>)
  {
    |chains| > 0 && forall k :: k in owner ==> owner[k] in chains[Mod(hash(k), |chains|)]
  }

  /** The array and the next fields realise `chains`. */
  ghost predicate Threaded<K, V>(store: map<nat, Node<K, V>>, nodes: seq<nat>, chains: seq<seq<nat>>)
  {
    |nodes| == |chains| && forall b :: 0 <= b < |chains| ==> Linked(store, nodes[b], chains[b])
  }

  lemma SeatedPush<K, V>(hash: K -> nat, s: map<nat, Node<K, V>>, chains: seq<seq<nat>>, owner: map<K, nat>, p: nat, n: Node<K, V>)
    requires Seated(hash, s, chains, owner) && p !in s && n.key !in owner
    ensures var b := Mod(hash(n.key), |chains|);
            Seated(hash, s[p := n], chains[b := [p] + chains[b]], owner[n.key := p])
  {
    var b := Mod(hash(n.key), |chains|);
    var chains', owner' := chains[b := [p] + chains[b]], owner[n.key := p];
    forall a, i | 0 <= a < |chains'| && 0 <= i < |chains'[a]|
      ensures SeatedAt(hash, s[p := n], |chains|, owner', a, chains'[a][i])
    {
      if a == b && i > 0 {
        assert SeatedAt(hash, s, |chains|, owner, b, chains[b][i - 1]);
      } else if a != b {
        assert SeatedAt(hash, s, |chains|, owner, a, chains[a][i]);
      }
    }
    forall i, j | 0 <= i < j < |chains'[b]|
      ensures chains'[b][i] != chains'[b][j]
    {
      assert SeatedAt(hash, s, |chains|, owner, b, chains[b][j - 1]);
    }
  }

  lemma CompletePush<K>(hash: K -> nat, chains: seq<seq<nat>>, owner: map<K, nat>, key: K, p: nat)
    requires Complete(hash, chains, owner)
    ensures var b := Mod(hash(key), |chains|);
            Complete(hash, chains[b := [p] + chains[b]], owner[key := p])
  {
  }

  lemma ThreadedPush<K, V>(s: map<nat, Node<K, V>>, nodes: seq<nat>, chains: seq<seq<nat>>, b: nat, p: nat, n: Node<K, V>)
    requires Threaded(s, nodes, chains) && b < |chains| && p !in s && p != 0 && n.next == nodes[b]
    ensures Threaded(s[p := n], nodes[b := p], chains[b := [p] + chains[b]])
  {
    forall a | 0 <= a < |chains|
      ensures Linked(s[p := n], nodes[a], chains[a])
    {
      LinkedFrame(s, s[p := n], nodes[a], chains[a]);
    }
    assert ([p] + chains[b])[1..] == chains[b];
  }

  lemma OwnerGrows<K>(owner: map<K, nat>, key: K, p: nat)
    requires key !in owner
    ensures |owner[key := p]| == |owner| + 1
  {
    assert owner[key := p].Keys == owner.Keys + {key};
  }

  // ----- the table as a value -----

  /** All fields of a table, with the chains and the owner of each key. */
  datatype Table<K, V> = Table(
    store: map<nat, Node<K, V>>,
    brk: nat,
    nodes: seq<nat>,
    capacity: nat,
    threshold: nat,
    size: nat,
    chains: seq<seq<nat>>,
    owner: map<K, nat>)

  datatype Part = Sizes | Owners | Seats | Homes | Threads

  ghost predicate Sized<K, V>(t: Table<K, V>) {
    && t.capacity == |t.chains| >= HT_MINIMUM_CAPACITY
    && t.threshold == t.capacity * HT_LOAD_FACTOR
    && t.size == Total(t.chains) == |t.owner| <= t.capacity
    && t.brk > 0
    && forall p :: p in t.store ==> p < t.brk
  }

  ghost predicate Holds<K, V>(hash: K -> nat, t: Table<K, V>, part: Part) {
    match part
    case Sizes => Sized(t)
    case Owners => Owned(t.store, t.owner)
    case Seats => Seated(hash, t.store, t.chains, t.owner)
    case Homes => Complete(hash, t.chains, t.owner)
    case Threads => Threaded(t.store, t.nodes, t.chains)
  }

  /** Each node sits in chain hash mod capacity, keys are distinct, and the
      size is the total chain length and at most the capacity. */
  ghost predicate Good<K, V>(hash: K -> nat, t: Table<K, V>) {
    forall part :: Holds(hash, t, part)
  }

  lemma SizesOf<K, V>(hash: K -> nat, t: Table<K, V>)
    requires Good(hash, t)
    ensures Sized(t)
  {
    var part := Holds(hash, t, Sizes);
  }

  lemma OwnersOf<K, V>(hash: K -> nat, t: Table<K, V>)
    requires Good(hash, t)
    ensures Owned(t.store, t.owner)
  {
    var part := Holds(hash, t, Owners);
  }

  lemma SeatsOf<K, V>(hash: K -> nat, t: Table<K, V>)
    requires Good(hash, t)
    ensures Seated(hash, t.store, t.chains, t.owner)
  {
    var part := Holds(hash, t, Seats);
  }

  lemma HomesOf<K, V>(hash: K -> nat, t: Table<K, V>)
    requires Good(hash, t)
    ensures Complete(hash, t.chains, t.owner)
  {
    var part := Holds(hash, t, Homes);
  }

  lemma ThreadsOf<K, V>(hash: K -> nat, t: Table<K, V>)
    requires Good(hash, t)
    ensures Threaded(t.store, t.nodes, t.chains)
  {
    var part := Holds(hash, t, Threads);
  }

  /** The finite map a table stands for. */
  ghost function MapOf<K, V>(t: Table<K, V>): map<K, V>
  {
    map k | k in t.owner && t.owner[k] in t.store :: t.store[t.owner[k]].value
  }

  /** What every table keeps: its chains are linked from the array, a node is in
      the chain its key's hash selects, no key has two nodes, and the size counts
      the nodes, the keys of the map, and stays within the capacity. */
  lemma TableInvariant<K, V>(hash: K -> nat, t: Table<K, V>, a: nat, i: nat, b: nat, j: nat)
    requires Good(hash, t)
    requires a < |t.chains| && i < |t.chains[a]| && b < |t.chains| && j < |t.chains[b]|
    ensures |t.nodes| == |t.chains| == t.capacity && Linked(t.store, t.nodes[a], t.chains[a])
    ensures var p, q := t.chains[a][i], t.chains[b][j];
            && p in t.store && q in t.store
            && hash(t.store[p].key) % t.capacity == a
            && (t.store[p].key == t.store[q].key ==> a == b && i == j)
            && t.store[p].key in MapOf(t) && MapOf(t)[t.store[p].key] == t.store[p].value
    ensures t.size == Total(t.chains) == |MapOf(t)| <= t.capacity
  {
    SizesOf(hash, t);
    OwnersOf(hash, t);
    ThreadsOf(hash, t);
    SeatsOf(hash, t);
    assert SeatedAt(hash, t.store, |t.chains|, t.owner, a, t.chains[a][i]);
    assert SeatedAt(hash, t.store, |t.chains|, t.owner, b, t.chains[b][j]);
    assert Distinct(t.chains[a]);
    ModIsRemainder(hash(t.store[t.chains[a][i]].key), t.capacity);
    assert MapOf(t).Keys == t.owner.Keys;
  }

  lemma EmptyGood<K, V>(hash: K -> nat, t: Table<K, V>)
    requires t.store == map[] && t.owner == map[] && t.size == 0 && t.brk > 0
    requires t.capacity == |t.chains| == |t.nodes| >= HT_MINIMUM_CAPACITY && t.threshold == t.capacity * HT_LOAD_FACTOR
    requires forall b :: 0 <= b < t.capacity ==> t.chains[b] == [] && t.nodes[b] == 0
    ensures Good(hash, t) && MapOf(t) == map[]
  {
    TotalEmpty(t.chains);
  }

  // ----- insertion of a new key -----

  ghost function Pushed<K, V>(hash: K -> nat, t: Table<K, V>, key: K, value: V): Table<K, V>
    requires t.capacity == |t.chains| == |t.nodes| > 0
  {
    var b := Mod(hash(key), t.capacity);
    t.(store := t.store[t.brk := Node(key, value, t.nodes[b])],
       brk := t.brk + 1,
       nodes := t.nodes[b := t.brk],
       size := t.size + 1,
       chains := t.chains[b := [t.brk] + t.chains[b]],
       owner := t.owner[key := t.brk])
  }

  lemma Shape<K, V>(hash: K -> nat, t: Table<K, V>)
    requires Good(hash, t)
    ensures t.capacity == |t.chains| == |t.nodes| >= HT_MINIMUM_CAPACITY && t.brk > 0 && t.size <= t.capacity
    ensures t.brk !in t.store && t.threshold == t.capacity * HT_LOAD_FACTOR
  {
    SizesOf(hash, t);
    ThreadsOf(hash, t);
  }

  lemma PushSizes<K, V>(hash: K -> nat, t: Table<K, V>, key: K, value: V)
    requires Good(hash, t) && key !in t.owner && t.size < t.capacity == |t.chains| == |t.nodes|
    ensures Sized(Pushed(hash, t, key, value))
  {
    SizesOf(hash, t);
    var b := Mod(hash(key), t.capacity);
    OwnerGrows(t.owner, key, t.brk);
    TotalUpdate(t.chains, b, [t.brk] + t.chains[b]);
  }

  lemma PushMap<K, V>(hash: K -> nat, t: Table<K, V>, key: K, value: V)
    requires Good(hash, t) && key !in t.owner && t.capacity == |t.chains| == |t.nodes| > 0
    ensures Owned(Pushed(hash, t, key, value).store, Pushed(hash, t, key, value).owner)
    ensures MapOf(Pushed(hash, t, key, value)) == MapOf(t)[key := value]
  {
    SizesOf(hash, t);
    OwnersOf(hash, t);
    var u := Pushed(hash, t, key, value);
    assert forall k :: k in t.owner ==> t.owner[k] != t.brk;
  }

  lemma PushGood<K, V>(hash: K -> nat, t: Table<K, V>, key: K, value: V)
    requires Good(hash, t) && key !in t.owner && t.size < t.capacity == |t.chains| == |t.nodes|
    ensures Good(hash, Pushed(hash, t, key, value))
    ensures MapOf(Pushed(hash, t, key, value)) == MapOf(t)[key := value]
  {
    var b := Mod(hash(key), t.capacity);
    var node := Node(key, value, t.nodes[b]);
    Shape(hash, t);
    PushSizes(hash, t, key, value);
    PushMap(hash, t, key, value);
    assert Seated(hash, t.store, t.chains, t.owner) by { SeatsOf(hash, t); }
    SeatedPush(hash, t.store, t.chains, t.owner, t.brk, node);
    assert Complete(hash, t.chains, t.owner) by { HomesOf(hash, t); }
    CompletePush(hash, t.chains, t.owner, key, t.brk);
    assert Threaded(t.store, t.nodes, t.chains) by { ThreadsOf(hash, t); }
    ThreadedPush(t.store, t.nodes, t.chains, b, t.brk, node);
  }

  // ----- overwriting the value of a present key -----

  ghost function Overwritten<K, V>(t: Table<K, V>, p: nat, value: V): Table<K, V>
    requires p in t.store
  {
    t.(store := t.store[p := t.store[p].(value := value)])
  }

  lemma OverwriteSeats<K, V>(hash: K -> nat, t: Table<K, V>, p: nat, value: V)
    requires Good(hash, t) && p in t.store
    ensures Seated(hash, Overwritten(t, p, value).store, t.chains, t.owner)
  {
    SeatsOf(hash, t);
    var s := Overwritten(t, p, value).store;
    forall b, i | 0 <= b < |t.chains| && 0 <= i < |t.chains[b]|
      ensures SeatedAt(hash, s, |t.chains|, t.owner, b, t.chains[b][i])
    {
      assert SeatedAt(hash, t.store, |t.chains|, t.owner, b, t.chains[b][i]);
    }
  }

  lemma OverwriteThreads<K, V>(hash: K -> nat, t: Table<K, V>, p: nat, value: V)
    requires Good(hash, t) && p in t.store
    ensures Threaded(Overwritten(t, p, value).store, t.nodes, t.chains)
  {
    ThreadsOf(hash, t);
    forall b | 0 <= b < |t.chains|
      ensures Linked(Overwritten(t, p, value).store, t.nodes[b], t.chains[b])
    {
      LinkedFrame(t.store, Overwritten(t, p, value).store, t.nodes[b], t.chains[b]);
    }
  }

  lemma OverwriteMap<K, V>(hash: K -> nat, t: Table<K, V>, key: K, value: V)
    requires Good(hash, t) && key in t.owner && t.owner[key] in t.store
    ensures Owned(Overwritten(t, t.owner[key], value).store, t.owner)
    ensures MapOf(Overwritten(t, t.owner[key], value)) == MapOf(t)[key := value]
  {
    OwnersOf(hash, t);
    assert forall k :: k in t.owner && t.owner[k] == t.owner[key] ==> k == key;
  }

  lemma OverwriteGood<K, V>(hash: K -> nat, t: Table<K, V>, key: K, value: V)
    requires Good(hash, t) && key in t.owner && t.owner[key] in t.store
    ensures Good(hash, Overwritten(t, t.owner[key], value))
    ensures MapOf(Overwritten(t, t.owner[key], value)) == MapOf(t)[key := value]
  {
    var p := t.owner[key];
    OverwriteSeats(hash, t, p, value);
    OverwriteThreads(hash, t, p, value);
    assert Complete(hash, t.chains, t.owner) by { HomesOf(hash, t); }
    assert Sized(Overwritten(t, p, value)) by { SizesOf(hash, t); }
    OverwriteMap(hash, t, key, value);
  }

  // ----- erasing -----

  /** The store once the node at place `i` of chain `c` is unlinked and freed. */
  ghost function CutStore<K, V>(s: map<nat, Node<K, V>>, c: seq<nat>, i: nat): map<nat, Node<K, V>>
    requires i < |c| && c[i] in s && (i > 0 ==> c[i - 1] in s)
  {
    (if i > 0 then s[c[i - 1] := s[c[i - 1]].(next := s[c[i]].next)] else s) - {c[i]}
  }

  function Without(c: seq<nat>, i: nat): seq<nat>
    requires i < |c|
  {
    c[..i] + c[i + 1..]
  }

  lemma LinkedCutFirst<K, V>(s: map<nat, Node<K, V>>, head: nat, c: seq<nat>)
    requires Linked(s, head, c) && Distinct(c) && c != [] && c[0] in s
    ensures Linked(CutStore(s, c, 0), s[head].next, Without(c, 0))
  {
    assert Without(c, 0) == c[1..];
    assert forall p :: p in c[1..] ==> p != c[0];
    LinkedFrame(s, CutStore(s, c, 0), s[head].next, c[1..]);
  }

  lemma LinkedCutSecond<K, V>(s: map<nat, Node<K, V>>, head: nat, c: seq<nat>)
    requires Linked(s, head, c) && Distinct(c) && |c| > 1 && c[0] in s && c[1] in s
    ensures Linked(CutStore(s, c, 1), head, Without(c, 1))
  {
    var s' := CutStore(s, c, 1);
    assert c[1..][0] == c[1] && c[1..][1..] == c[2..];
    assert Linked(s, s[c[1]].next, c[2..]);
    LinkedFrame(s, s', s[c[1]].next, c[2..]);
    assert Without(c, 1) == [c[0]] + c[2..];
    assert Without(c, 1)[1..] == c[2..];
  }

  lemma {:induction false} LinkedCut<K, V>(s: map<nat, Node<K, V>>, head: nat, c: seq<nat>, i: nat)
    requires Linked(s, head, c) && Distinct(c) && i < |c|
    requires c[i] in s && (i > 0 ==> c[i - 1] in s)
    ensures Linked(CutStore(s, c, i), if i > 0 then head else s[c[i]].next, Without(c, i))
    decreases |c|
  {
    if i == 0 {
      LinkedCutFirst(s, head, c);
    } else if i == 1 {
      LinkedCutSecond(s, head, c);
    } else {
      var rest := c[1..];
      assert rest[i - 1] == c[i] && rest[i - 2] == c[i - 1];
      LinkedCut(s, s[head].next, rest, i - 1);
      assert Without(c, i)[0] == head;
      assert Without(c, i)[1..] == Without(rest, i - 1);
    }
  }

  ghost function Cut<K, V>(t: Table<K, V>, b: nat, i: nat): Table<K, V>
    requires b < |t.chains| == |t.nodes| && i < |t.chains[b]| && t.size > 0
    requires t.chains[b][i] in t.store && (i > 0 ==> t.chains[b][i - 1] in t.store)
  {
    var c := t.chains[b];
    t.(store := CutStore(t.store, c, i),
       nodes := if i > 0 then t.nodes else t.nodes[b := t.store[c[i]].next],
       size := t.size - 1,
       chains := t.chains[b := Without(c, i)],
       owner := t.owner - {t.store[c[i]].key})
  }

  lemma CutShape<K, V>(hash: K -> nat, t: Table<K, V>, b: nat, i: nat)
    requires Good(hash, t) && b < |t.chains| && i < |t.chains[b]|
    ensures |t.nodes| == |t.chains| && t.size > 0 && t.chains[b][i] in t.store && (i > 0 ==> t.chains[b][i - 1] in t.store)
    ensures t.store[t.chains[b][i]].key in t.owner && t.owner[t.store[t.chains[b][i]].key] == t.chains[b][i]
  {
    ThreadsOf(hash, t);
    LinkedAllocated(t.store, t.nodes[b], t.chains[b], i);
    if i > 0 { LinkedAllocated(t.store, t.nodes[b], t.chains[b], i - 1); }
    SeatsOf(hash, t);
    assert SeatedAt(hash, t.store, |t.chains|, t.owner, b, t.chains[b][i]);
    SizesOf(hash, t);
    assert t.store[t.chains[b][i]].key in t.owner.Keys;
    assert |t.owner| == |t.owner.Keys|;
  }

  /** Where a seated node can be: nowhere but its own place. */
  lemma OnePlace<K, V>(hash: K -> nat, t: Table<K, V>, b: nat, i: nat, a: nat, j: nat)
    requires Good(hash, t) && b < |t.chains| && i < |t.chains[b]| && a < |t.chains| && j < |t.chains[a]|
    requires t.chains[b][i] == t.chains[a][j]
    ensures a == b && i == j
  {
    SeatsOf(hash, t);
    assert SeatedAt(hash, t.store, |t.chains|, t.owner, b, t.chains[b][i]);
    assert SeatedAt(hash, t.store, |t.chains|, t.owner, a, t.chains[a][j]);
  }

  lemma NotElsewhere<K, V>(hash: K -> nat, t: Table<K, V>, b: nat, i: nat, a: nat)
    requires Good(hash, t) && b < |t.chains| && i < |t.chains[b]| && a < |t.chains| && a != b
    ensures t.chains[b][i] !in t.chains[a]
  {
    forall j | 0 <= j < |t.chains[a]|
      ensures t.chains[a][j] != t.chains[b][i]
    {
      if t.chains[a][j] == t.chains[b][i] {
        OnePlace(hash, t, b, i, a, j);
        assert false;
      }
    }
  }

  lemma CutThreads<K, V>(hash: K -> nat, t: Table<K, V>, b: nat, i: nat)
    requires Good(hash, t) && b < |t.chains| == |t.nodes| && i < |t.chains[b]| && t.size > 0
    requires t.chains[b][i] in t.store && (i > 0 ==> t.chains[b][i - 1] in t.store)
    ensures Threaded(Cut(t, b, i).store, Cut(t, b, i).nodes, Cut(t, b, i).chains)
  {
    var u := Cut(t, b, i);
    forall a | 0 <= a < |u.chains|
      ensures Linked(u.store, u.nodes[a], u.chains[a])
    {
      assert Linked(t.store, t.nodes[a], t.chains[a]) by { ThreadsOf(hash, t); }
      if a == b {
        assert Distinct(t.chains[b]) by { SeatsOf(hash, t); }
        LinkedCut(t.store, t.nodes[b], t.chains[b], i);
        if i > 0 { assert t.nodes[b] == t.chains[b][0]; }
      } else {
        NotElsewhere(hash, t, b, i, a);
        if i > 0 { NotElsewhere(hash, t, b, i - 1, a); }
        LinkedFrame(t.store, u.store, t.nodes[a], t.chains[a]);
      }
    }
  }

  lemma CutSeatedAt<K, V>(hash: K -> nat, t: Table<K, V>, b: nat, i: nat, a: nat, j: nat)
    requires Good(hash, t) && b < |t.chains| == |t.nodes| && i < |t.chains[b]| && t.size > 0
    requires t.chains[b][i] in t.store && (i > 0 ==> t.chains[b][i - 1] in t.store)
    requires a < |t.chains| && j < |t.chains[a]| && !(a == b && i == j)
    ensures SeatedAt(hash, Cut(t, b, i).store, |t.chains|, Cut(t, b, i).owner, a, t.chains[a][j])
  {
    if t.chains[a][j] == t.chains[b][i] {
      OnePlace(hash, t, b, i, a, j);
      assert false;
    }
    SeatsOf(hash, t);
    assert SeatedAt(hash, t.store, |t.chains|, t.owner, a, t.chains[a][j]);
    assert SeatedAt(hash, t.store, |t.chains|, t.owner, b, t.chains[b][i]);
  }

  lemma DistinctWithout(c: seq<nat>, i: nat)
    requires Distinct(c) && i < |c|
    ensures Distinct(Without(c, i)) && c[i] !in Without(c, i)
    ensures forall p :: p in c && p != c[i] ==> p in Without(c, i)
  {
    forall p | p in c && p != c[i]
      ensures p in Without(c, i)
    {
      var k :| 0 <= k < |c| && c[k] == p;
      assert Without(c, i)[if k < i then k else k - 1] == p;
    }
  }

  lemma CutSeats<K, V>(hash: K -> nat, t: Table<K, V>, b: nat, i: nat)
    requires Good(hash, t) && b < |t.chains| == |t.nodes| && i < |t.chains[b]| && t.size > 0
    requires t.chains[b][i] in t.store && (i > 0 ==> t.chains[b][i - 1] in t.store)
    ensures Seated(hash, Cut(t, b, i).store, Cut(t, b, i).chains, Cut(t, b, i).owner)
  {
    var u := Cut(t, b, i);
    forall a, j | 0 <= a < |u.chains| && 0 <= j < |u.chains[a]|
      ensures SeatedAt(hash, u.store, |u.chains|, u.owner, a, u.chains[a][j])
    {
      CutSeatedAt(hash, t, b, i, a, if a == b && j >= i then j + 1 else j);
    }
    forall a | 0 <= a < |u.chains|
      ensures Distinct(u.chains[a])
    {
      assert Distinct(t.chains[a]) by { SeatsOf(hash, t); }
      if a == b { DistinctWithout(t.chains[b], i); }
    }
  }

  lemma CutOwners<K, V>(hash: K -> nat, t: Table<K, V>, b: nat, i: nat)
    requires Good(hash, t) && b < |t.chains| == |t.nodes| && i < |t.chains[b]| && t.size > 0
    requires t.chains[b][i] in t.store && (i > 0 ==> t.chains[b][i - 1] in t.store)
    ensures var u := Cut(t, b, i);
            && Owned(u.store, u.owner)
            && Complete(hash, u.chains, u.owner)
            && MapOf(u) == MapOf(t) - {t.store[t.chains[b][i]].key}
  {
    var u, p := Cut(t, b, i), t.chains[b][i];
    CutShape(hash, t, b, i);
    assert Owned(u.store, u.owner) by { OwnersOf(hash, t); }
    assert MapOf(u) == MapOf(t) - {t.store[p].key} by { OwnersOf(hash, t); }
    assert Distinct(t.chains[b]) by { SeatsOf(hash, t); }
    DistinctWithout(t.chains[b], i);
    forall k | k in u.owner
      ensures u.owner[k] in u.chains[Mod(hash(k), |u.chains|)]
    {
      HomesOf(hash, t);
      OwnersOf(hash, t);
      assert t.owner[k] in t.chains[Mod(hash(k), |t.chains|)];
    }
  }

  lemma CutSizes<K, V>(hash: K -> nat, t: Table<K, V>, b: nat, i: nat)
    requires Good(hash, t) && b < |t.chains| == |t.nodes| && i < |t.chains[b]| && t.size > 0
    requires t.chains[b][i] in t.store && (i > 0 ==> t.chains[b][i - 1] in t.store)
    ensures Sized(Cut(t, b, i))
  {
    CutShape(hash, t, b, i);
    SizesOf(hash, t);
    TotalUpdate(t.chains, b, Without(t.chains[b], i));
    OwnerShrinks(t.owner, t.store[t.chains[b][i]].key);
  }

  lemma OwnerShrinks<K>(owner: map<K, nat>, key: K)
    requires key in owner
    ensures |owner - {key}| == |owner| - 1
  {
    assert (owner - {key}).Keys == owner.Keys - {key};
    assert |owner.Keys - {key}| == |owner.Keys| - 1;
  }

  /** Unlinking a node removes its key and nothing else. */
  lemma CutGood<K, V>(hash: K -> nat, t: Table<K, V>, b: nat, i: nat)
    requires Good(hash, t) && b < |t.chains| == |t.nodes| && i < |t.chains[b]| && t.size > 0
    requires t.chains[b][i] in t.store && (i > 0 ==> t.chains[b][i - 1] in t.store)
    ensures Good(hash, Cut(t, b, i))
    ensures MapOf(Cut(t, b, i)) == MapOf(t) - {t.store[t.chains[b][i]].key}
  {
    CutSizes(hash, t, b, i);
    CutOwners(hash, t, b, i);
    CutSeats(hash, t, b, i);
    CutThreads(hash, t, b, i);
  }

  // ----- rehashing in place -----

  /** Nodes keep their keys and values, and those not yet moved their links. */
  ghost predicate SameNodes<K, V>(s0: map<nat, Node<K, V>>, s: map<nat, Node<K, V>>, done: set<nat>) {
    && s.Keys == s0.Keys
    && (forall p :: p in s ==> s[p].key == s0[p].key && s[p].value == s0[p].value)
    && (forall p :: p in s && p !in done ==> s[p] == s0[p])
  }

  /** The new chains hold exactly the nodes moved so far. */
  ghost predicate Moved<K, V>(hash: K -> nat, store: map<nat, Node<K, V>>, nc: seq<seq<nat>>, owner: map<K, nat>, done: set<nat>) {
    && Seated(hash, store, nc, owner)
    && (forall b, i :: 0 <= b < |nc| && 0 <= i < |nc[b]| ==> nc[b][i] in done)
    && (forall p :: p in done ==> p in store && p in nc[Mod(hash(store[p].key), |nc|)])
  }

  /** The old chains up to chain `b`, entry `j`, are the nodes moved. */
  ghost predicate Visited(chains: seq<seq<nat>>, b: nat, j: nat, done: set<nat>) {
    && (forall a, i :: 0 <= a < |chains| && 0 <= i < |chains[a]| && (a < b || (a == b && i < j)) ==> chains[a][i] in done)
    && (forall a, i :: 0 <= a < |chains| && 0 <= i < |chains[a]| && !(a < b || (a == b && i < j)) ==> chains[a][i] !in done)
  }

  lemma MoveSeats<K, V>(hash: K -> nat, s: map<nat, Node<K, V>>, nc: seq<seq<nat>>, owner: map<K, nat>, p: nat, next: nat)
    requires Seated(hash, s, nc, owner) && p in s && s[p].key in owner && owner[s[p].key] == p
    requires forall a :: 0 <= a < |nc| ==> p !in nc[a]
    ensures var b := Mod(hash(s[p].key), |nc|);
            Seated(hash, s[p := s[p].(next := next)], nc[b := [p] + nc[b]], owner)
  {
    var b := Mod(hash(s[p].key), |nc|);
    var s', nc' := s[p := s[p].(next := next)], nc[b := [p] + nc[b]];
    forall a, i | 0 <= a < |nc'| && 0 <= i < |nc'[a]|
      ensures SeatedAt(hash, s', |nc|, owner, a, nc'[a][i])
    {
      if a == b && i > 0 {
        assert SeatedAt(hash, s, |nc|, owner, b, nc[b][i - 1]);
      } else if a != b {
        assert SeatedAt(hash, s, |nc|, owner, a, nc[a][i]);
      }
    }
    DistinctPush(p, nc[b]);
  }

  lemma DistinctPush(p: nat, c: seq<nat>)
    requires Distinct(c) && p !in c
    ensures Distinct([p] + c)
  {
  }

  lemma MoveMoved<K, V>(hash: K -> nat, s: map<nat, Node<K, V>>, nc: seq<seq<nat>>, owner: map<K, nat>, done: set<nat>, p: nat, next: nat)
    requires Moved(hash, s, nc, owner, done) && p !in done && p in s
    requires s[p].key in owner && owner[s[p].key] == p
    ensures var b := Mod(hash(s[p].key), |nc|);
            Moved(hash, s[p := s[p].(next := next)], nc[b := [p] + nc[b]], owner, done + {p})
  {
    var b := Mod(hash(s[p].key), |nc|);
    var s', nc' := s[p := s[p].(next := next)], nc[b := [p] + nc[b]];
    MoveSeats(hash, s, nc, owner, p, next);
    forall a, i | 0 <= a < |nc'| && 0 <= i < |nc'[a]|
      ensures nc'[a][i] in done + {p}
    {
      if a == b && i > 0 { assert nc'[a][i] == nc[b][i - 1]; }
    }
    forall r | r in done + {p}
      ensures r in s' && r in nc'[Mod(hash(s'[r].key), |nc'|)]
    {
      if r != p { assert r in nc[Mod(hash(s[r].key), |nc|)]; }
    }
  }

  lemma MoveThreads<K, V>(s: map<nat, Node<K, V>>, nodes: seq<nat>, nc: seq<seq<nat>>, b: nat, p: nat)
    requires Threaded(s, nodes, nc) && b < |nc| && p in s && p != 0
    requires forall a :: 0 <= a < |nc| ==> p !in nc[a]
    ensures Threaded(s[p := s[p].(next := nodes[b])], nodes[b := p], nc[b := [p] + nc[b]])
  {
    var s' := s[p := s[p].(next := nodes[b])];
    forall a | 0 <= a < |nc|
      ensures Linked(s', nodes[a], nc[a])
    {
      LinkedFrame(s, s', nodes[a], nc[a]);
    }
    assert ([p] + nc[b])[1..] == nc[b];
  }

  lemma VisitOne<K, V>(hash: K -> nat, s: map<nat, Node<K, V>>, chains: seq<seq<nat>>, owner: map<K, nat>, b: nat, j: nat, done: set<nat>)
    requires Seated(hash, s, chains, owner) && b < |chains| && j < |chains[b]| && Visited(chains, b, j, done)
    ensures Visited(chains, b, j + 1, done + {chains[b][j]})
  {
    forall a, i | 0 <= a < |chains| && 0 <= i < |chains[a]| && chains[a][i] == chains[b][j]
      ensures a == b && i == j
    {
      assert SeatedAt(hash, s, |chains|, owner, a, chains[a][i]);
      assert SeatedAt(hash, s, |chains|, owner, b, chains[b][j]);
    }
  }

  /** The state in the middle of a rehash into `cap` chains, about to move entry
      `j` of old chain `b`: the store and new array, the new chains, and the
      addresses moved. */
  datatype Progress<K, V> = Progress(
    cap: nat,
    b: nat,
    j: nat,
    store: map<nat, Node<K, V>>,
    nodes: seq<nat>,
    chains: seq<seq<nat>>,
    done: set<nat>)

  datatype Aspect = Contents | Placement | Links | Coverage | Count

  ghost predicate Stands<K, V>(hash: K -> nat, t: Table<K, V>, r: Progress<K, V>, aspect: Aspect) {
    match aspect
    case Contents => SameNodes(t.store, r.store, r.done)
    case Placement => Moved(hash, r.store, r.chains, t.owner, r.done)
    case Links => Threaded(r.store, r.nodes, r.chains)
    case Coverage => Visited(t.chains, r.b, r.j, r.done)
    case Count =>
      && |r.chains| == |r.nodes| == r.cap > 0
      && r.b <= |t.chains|
      && (r.b < |t.chains| ==> r.j <= |t.chains[r.b]|)
      && Total(r.chains) == Total(t.chains[..r.b]) + r.j
  }

  ghost predicate Rehashing<K, V>(hash: K -> nat, t: Table<K, V>, r: Progress<K, V>) {
    forall aspect :: Stands(hash, t, r, aspect)
  }

  lemma ContentsOf<K, V>(hash: K -> nat, t: Table<K, V>, r: Progress<K, V>)
    requires Rehashing(hash, t, r)
    ensures SameNodes(t.store, r.store, r.done)
  {
    var aspect := Stands(hash, t, r, Contents);
  }

  lemma PlacementOf<K, V>(hash: K -> nat, t: Table<K, V>, r: Progress<K, V>)
    requires Rehashing(hash, t, r)
    ensures Moved(hash, r.store, r.chains, t.owner, r.done)
  {
    var aspect := Stands(hash, t, r, Placement);
  }

  lemma LinksOf<K, V>(hash: K -> nat, t: Table<K, V>, r: Progress<K, V>)
    requires Rehashing(hash, t, r)
    ensures Threaded(r.store, r.nodes, r.chains)
  {
    var aspect := Stands(hash, t, r, Links);
  }

  lemma CoverageOf<K, V>(hash: K -> nat, t: Table<K, V>, r: Progress<K, V>)
    requires Rehashing(hash, t, r)
    ensures Visited(t.chains, r.b, r.j, r.done)
  {
    var aspect := Stands(hash, t, r, Coverage);
  }

  lemma CountOf<K, V>(hash: K -> nat, t: Table<K, V>, r: Progress<K, V>)
    requires Rehashing(hash, t, r)
    ensures |r.chains| == |r.nodes| == r.cap > 0 && r.b <= |t.chains|
    ensures r.b < |t.chains| ==> r.j <= |t.chains[r.b]|
    ensures Total(r.chains) == Total(t.chains[..r.b]) + r.j
  {
    var aspect := Stands(hash, t, r, Count);
  }

  /** What the loop reads: the node is still linked as before. */
  lemma NextToMove<K, V>(hash: K -> nat, t: Table<K, V>, r: Progress<K, V>)
    requires Good(hash, t) && Rehashing(hash, t, r) && r.b < |t.chains| && r.j < |t.chains[r.b]|
    ensures var c := t.chains[r.b]; var p := c[r.j];
            && p != 0 && p in r.store && p !in r.done
            && r.store[p].key in t.owner && t.owner[r.store[p].key] == p
            && r.store[p].next == if r.j + 1 < |c| then c[r.j + 1] else 0
  {
    ContentsOf(hash, t, r);
    CoverageOf(hash, t, r);
    ThreadsOf(hash, t);
    LinkedAllocated(t.store, t.nodes[r.b], t.chains[r.b], r.j);
    SeatsOf(hash, t);
    assert SeatedAt(hash, t.store, |t.chains|, t.owner, r.b, t.chains[r.b][r.j]);
  }

  /** One turn of the inner loop. */
  ghost function Relinked<K, V>(hash: K -> nat, r: Progress<K, V>, p: nat): Progress<K, V>
    requires |r.chains| == |r.nodes| == r.cap > 0 && p in r.store
  {
    var a := Mod(hash(r.store[p].key), r.cap);
    r.(j := r.j + 1,
       store := r.store[p := r.store[p].(next := r.nodes[a])],
       nodes := r.nodes[a := p],
       chains := r.chains[a := [p] + r.chains[a]],
       done := r.done + {p})
  }

  lemma MoveNode<K, V>(hash: K -> nat, t: Table<K, V>, r: Progress<K, V>)
    requires Good(hash, t) && Rehashing(hash, t, r) && r.b < |t.chains| && r.j < |t.chains[r.b]|
    ensures |r.chains| == |r.nodes| == r.cap > 0 && t.chains[r.b][r.j] in r.store
    ensures Rehashing(hash, t, Relinked(hash, r, t.chains[r.b][r.j]))
  {
    var p := t.chains[r.b][r.j];
    NextToMove(hash, t, r);
    CountOf(hash, t, r);
    var u := Relinked(hash, r, p);
    var a := Mod(hash(r.store[p].key), r.cap);
    assert SameNodes(t.store, u.store, u.done) by { ContentsOf(hash, t, r); }
    assert Moved(hash, r.store, r.chains, t.owner, r.done) by { PlacementOf(hash, t, r); }
    MoveMoved(hash, r.store, r.chains, t.owner, r.done, p, r.nodes[a]);
    assert Threaded(u.store, u.nodes, u.chains) by {
      LinksOf(hash, t, r);
      MoveThreads(r.store, r.nodes, r.chains, a, p);
    }
    MoveCount(r.chains, p, a);
    assert Visited(t.chains, u.b, u.j, u.done) by {
      SeatsOf(hash, t);
      CoverageOf(hash, t, r);
      VisitOne(hash, t.store, t.chains, t.owner, r.b, r.j, r.done);
    }
  }

  lemma MoveCount(chains: seq<seq<nat>>, p: nat, b: nat)
    requires b < |chains|
    ensures Total(chains[b := [p] + chains[b]]) == Total(chains) + 1
  {
    TotalUpdate(chains, b, [p] + chains[b]);
  }

  lemma NextChain<K, V>(hash: K -> nat, t: Table<K, V>, r: Progress<K, V>)
    requires Rehashing(hash, t, r) && r.b < |t.chains| && r.j == |t.chains[r.b]|
    ensures Rehashing(hash, t, r.(b := r.b + 1, j := 0))
  {
    var u := r.(b := r.b + 1, j := 0);
    assert t.chains[..r.b + 1][..r.b] == t.chains[..r.b];
    CountOf(hash, t, r);
    assert SameNodes(t.store, r.store, r.done) by { ContentsOf(hash, t, r); }
    assert Moved(hash, r.store, r.chains, t.owner, r.done) by { PlacementOf(hash, t, r); }
    assert Threaded(r.store, r.nodes, r.chains) by { LinksOf(hash, t, r); }
    assert Visited(t.chains, u.b, u.j, u.done) by { CoverageOf(hash, t, r); }
  }

  ghost function Started<K, V>(t: Table<K, V>, cap: nat): Progress<K, V> {
    Progress(cap, 0, 0, t.store, seq(cap, i => 0), seq(cap, i => []), {})
  }

  lemma RehashStart<K, V>(hash: K -> nat, t: Table<K, V>, cap: nat)
    requires cap > 0
    ensures Rehashing(hash, t, Started(t, cap))
  {
    TotalEmpty(seq(cap, i => []));
    assert t.chains[..0] == [];
  }

  /** The table a finished rehash leaves. */
  ghost function Rehashed<K, V>(t: Table<K, V>, r: Progress<K, V>): Table<K, V> {
    t.(store := r.store, nodes := r.nodes, capacity := r.cap, threshold := r.cap * HT_LOAD_FACTOR, chains := r.chains)
  }

  /** Rehashing in place keeps the map. */
  lemma RehashDone<K, V>(hash: K -> nat, t: Table<K, V>, r: Progress<K, V>)
    requires Good(hash, t) && Rehashing(hash, t, r) && r.b == |t.chains| && r.j == 0
    requires r.cap >= HT_MINIMUM_CAPACITY && t.size <= r.cap
    ensures Good(hash, Rehashed(t, r)) && MapOf(Rehashed(t, r)) == MapOf(t)
  {
    var u := Rehashed(t, r);
    CountOf(hash, t, r);
    assert t.chains[..|t.chains|] == t.chains;
    assert SameNodes(t.store, r.store, r.done) by { ContentsOf(hash, t, r); }
    assert Sized(u) by { SizesOf(hash, t); }
    assert Owned(u.store, u.owner) && MapOf(u) == MapOf(t) by { OwnersOf(hash, t); }
    assert Moved(hash, r.store, r.chains, t.owner, r.done) by { PlacementOf(hash, t, r); }
    assert Threaded(u.store, u.nodes, u.chains) by { LinksOf(hash, t, r); }
    assert Complete(hash, u.chains, u.owner) by {
      OwnersOf(hash, t);
      HomesOf(hash, t);
      CoverageOf(hash, t, r);
      forall k | k in t.owner
        ensures t.owner[k] in u.chains[Mod(hash(k), |u.chains|)]
      {
        assert t.owner[k] in t.chains[Mod(hash(k), |t.chains|)];
        assert t.owner[k] in r.done;
      }
    }
  }

  // ----- the object -----

  class HashTable<K(==), V> {
    const hash: K -> nat
    var store: map<nat, Node<K, V>>
    var brk: nat
    var nodes: seq<nat>
    var capacity: nat
    var threshold: nat
    var size: nat
    ghost var chains: seq<seq<nat>>
    ghost var owner: map<K, nat>

    ghost function T(): (t: Table<K, V>)
      reads this
    {
      Table(store, brk, nodes, capacity, threshold, size, chains, owner)
    }

    ghost predicate Valid()
      reads this
    {
      Good(hash, T())
    }

    ghost function Map(): (m: map<K, V>)
      reads this
    {
      MapOf(T())
    }

    constructor (hash: K -> nat, capacity: nat)
      ensures Valid() && Map() == map[] && this.hash == hash
      ensures this.capacity == if capacity < HT_MINIMUM_CAPACITY then HT_MINIMUM_CAPACITY else capacity
    {
      var cap := if capacity < HT_MINIMUM_CAPACITY then HT_MINIMUM_CAPACITY else capacity;
      this.hash := hash;
      this.store := map[];
      this.brk := 1;
      this.nodes := seq(cap, i => 0);
      this.capacity := cap;
      this.threshold := cap * HT_LOAD_FACTOR;
      this.size := 0;
      this.chains := seq(cap, i => []);
      this.owner := map[];
      new;
      EmptyGood(hash, T());
    }

    /** The chain walk shared by lookup, contains and insert. */
    method FindNode(key: K) returns (node: nat)
      requires Valid()
      ensures if key in owner then node == owner[key] && node != 0 && node in store else node == 0
    {
      Shape(hash, T());
      SeatsOf(hash, T());
      HomesOf(hash, T());
      ThreadsOf(hash, T());
      var index := Mod(hash(key), capacity);
      ghost var c, i := chains[index], 0;
      node := nodes[index];
      while node != 0
        invariant 0 <= i <= |c| && node == if i < |c| then c[i] else 0
        invariant Linked(store, node, c[i..])
        invariant forall j :: 0 <= j < i ==> c[j] in store && store[c[j]].key != key
        decreases |c| - i
      {
        assert SeatedAt(hash, store, capacity, owner, index, chains[index][i]);
        if store[node].key == key {
          return;
        }
        assert c[i..][1..] == c[i + 1..];
        node := store[node].next;
        i := i + 1;
      }
      OwnersOf(hash, T());
      assert forall p :: p in c ==> p in store && store[p].key != key;
    }

    method Lookup(key: K) returns (value: Option<V>)
      requires Valid()
      ensures value == if key in Map() then Some(Map()[key]) else None
    {
      var node := FindNode(key);
      OwnersOf(hash, T());
      return if node == 0 then None else Some(store[node].value);
    }

    method Contains(key: K) returns (found: bool)
      requires Valid()
      ensures found <==> key in Map()
    {
      var node := FindNode(key);
      OwnersOf(hash, T());
      return node != 0;
    }

    /** `_ht_push_front` and the size update of an insertion. */
    method PushFront(key: K, value: V)
      requires Valid() && key !in owner && size < capacity
      modifies this
      ensures Valid() && Map() == old(Map())[key := value] && capacity == old(capacity)
    {
      ghost var t := T();
      Shape(hash, t);
      PushGood(hash, t, key, value);
      var index := Mod(hash(key), capacity);
      var node := Node(key, value, nodes[index]);
      chains := chains[index := [brk] + chains[index]];
      owner := owner[key := brk];
      store, nodes, brk, size := store[brk := node], nodes[index := brk], brk + 1, size + 1;
      assert T() == Pushed(hash, t, key, value);
    }

    /** `_ht_resize` with `_ht_rehash`: every node is relinked into a new
        array; the map does not change. */
    method Resize(requested: nat)
      requires Valid() && (requested < size ==> requested < HT_MINIMUM_CAPACITY && (capacity > HT_MINIMUM_CAPACITY ==> size <= HT_MINIMUM_CAPACITY))
      modifies this
      ensures Valid() && Map() == old(Map()) && size == old(size)
      ensures capacity == if requested >= HT_MINIMUM_CAPACITY then requested
                          else if old(capacity) > HT_MINIMUM_CAPACITY then HT_MINIMUM_CAPACITY else old(capacity)
    {
      Shape(hash, T());
      var cap := requested;
      if cap < HT_MINIMUM_CAPACITY {
        if capacity > HT_MINIMUM_CAPACITY {
          cap := HT_MINIMUM_CAPACITY;
        } else {
          return;
        }
      }
      ghost var t := T();
      var oldNodes, oldCapacity := nodes, capacity;
      nodes := seq(cap, i => 0);
      capacity := cap;
      threshold := cap * HT_LOAD_FACTOR;
      ghost var r := Started(t, cap);
      RehashStart(hash, t, cap);
      for chain := 0 to oldCapacity
        invariant Rehashing(hash, t, r) && r.cap == cap && r.b == chain && r.j == 0
        invariant T() == Rehashed(t, r).(chains := t.chains)
      {
        r := MoveChain(oldNodes[chain], t, r);
        NextChain(hash, t, r);
        r := r.(b := r.b + 1, j := 0);
      }
      RehashDone(hash, t, r);
      chains := r.chains;
    }

    /** The inner loop of `_ht_rehash` over one old chain. */
    method MoveChain(head: nat, ghost t: Table<K, V>, ghost r: Progress<K, V>) returns (ghost u: Progress<K, V>)
      requires Good(hash, t) && r.b < |t.chains| && r.b < |t.nodes| && head == t.nodes[r.b]
      requires Rehashing(hash, t, r) && r.j == 0 && T() == Rehashed(t, r).(chains := t.chains)
      modifies this`store, this`nodes
      ensures Rehashing(hash, t, u) && u.cap == r.cap && u.b == r.b && u.j == |t.chains[r.b]|
      ensures T() == Rehashed(t, u).(chains := t.chains)
    {
      ghost var c := t.chains[r.b];
      u := r;
      var node := head;
      assert node == if |c| > 0 then c[0] else 0 by { ThreadsOf(hash, t); }
      while node != 0
        invariant Rehashing(hash, t, u) && u.cap == r.cap && u.b == r.b && u.j <= |c|
        invariant T() == Rehashed(t, u).(chains := t.chains)
        invariant node == if u.j < |c| then c[u.j] else 0
        decreases |c| - u.j
      {
        NextToMove(hash, t, u);
        MoveNode(hash, t, u);
        var next := store[node].next;
        var index := Mod(hash(store[node].key), capacity);
        u := Relinked(hash, u, node);
        store, nodes := store[node := store[node].(next := nodes[index])], nodes[index := node];
        node := next;
      }
      if u.j < |c| {
        NextToMove(hash, t, u);
        assert false;
      }
    }

    /** `ht_insert`: true if the key was present and its value replaced. */
    method Insert(key: K, value: V) returns (updated: bool)
      requires Valid()
      modifies this
      ensures Valid() && Map() == old(Map())[key := value]
      ensures updated <==> key in old(Map())
      ensures capacity == if old(size) == old(capacity) then old(capacity) * HT_GROWTH_FACTOR else old(capacity)
    {
      Shape(hash, T());
      if size == capacity {
        Resize(size * HT_GROWTH_FACTOR);
      }
      Shape(hash, T());
      updated := Put(key, value);
    }

    /** `ht_insert` once there is room. */
    method Put(key: K, value: V) returns (updated: bool)
      requires Valid() && size < capacity
      modifies this
      ensures Valid() && Map() == old(Map())[key := value]
      ensures updated <==> key in old(Map())
      ensures capacity == old(capacity)
    {
      var node := FindNode(key);
      assert key in Map() <==> node != 0 by { OwnersOf(hash, T()); }
      if node == 0 {
        PushFront(key, value);
        return false;
      }
      OverwriteGood(hash, T(), key, value);
      store := store[node := store[node].(value := value)];
      return true;
    }

    /** Take a node out of its chain and free it. */
    method UnlinkNode(index: nat, previous: nat, node: nat, ghost i: nat)
      requires Valid() && index < |chains| == |nodes| && i < |chains[index]| && chains[index][i] == node && size > 0
      requires node in store && (i > 0 ==> chains[index][i - 1] in store)
      requires previous == (if i > 0 then chains[index][i - 1] else 0) && (i > 0 ==> previous != 0)
      modifies this
      ensures Valid() && Map() == old(Map()) - {old(store)[node].key} && size == old(size) - 1 && capacity == old(capacity)
    {
      ghost var t := T();
      CutGood(hash, t, index, i);
      var next := store[node].next;
      owner := owner - {store[node].key};
      chains := chains[index := Without(chains[index], i)];
      if previous != 0 {
        store := store[previous := store[previous].(next := next)];
      } else {
        nodes := nodes[index := next];
      }
      store := store - {node};
      size := size - 1;
      assert T() == Cut(t, index, i);
    }

    /** `ht_erase`. The shrink threshold is a quarter in integer arithmetic, so the
        table shrinks when it becomes empty and not before. */
    method Erase(key: K)
      requires Valid()
      modifies this
      ensures Valid() && Map() == old(Map()) - {key}
      ensures capacity == if key in old(Map()) && old(size) == 1 && old(capacity) > HT_MINIMUM_CAPACITY then HT_MINIMUM_CAPACITY else old(capacity)
    {
      Shape(hash, T());
      var index := Mod(hash(key), capacity);
      ghost var c, i := chains[index], 0;
      ThreadsOf(hash, T());
      var previous, node := 0, nodes[index];
      while node != 0
        invariant T() == old(T()) && 0 <= i <= |c| && Linked(store, node, c[i..])
        invariant node == if i < |c| then c[i] else 0
        invariant previous == if i > 0 then c[i - 1] else 0
        invariant forall j :: 0 <= j < i ==> c[j] in store && store[c[j]].key != key
        decreases |c| - i
      {
        CutShape(hash, T(), index, i);
        if store[node].key == key {
          if i > 0 { assert previous != 0 by { LinkedAllocated(store, nodes[index], c, i - 1); } }
          UnlinkNode(index, previous, node, i);
          if size == 0 {
            Resize(size * HT_GROWTH_FACTOR);
          }
          return;
        }
        assert c[i..][1..] == c[i + 1..];
        previous := node;
        node := store[node].next;
        i := i + 1;
      }
      HomesOf(hash, T());
      OwnersOf(hash, T());
      assert forall p :: p in c ==> p in store && store[p].key != key;
      assert key !in Map();
    }

    /** `ht_clear`. */
    method Clear()
      requires Valid()
      modifies this
      ensures Valid() && Map() == map[] && capacity == HT_MINIMUM_CAPACITY
    {
      Shape(hash, T());
      store := map[];
      capacity := HT_MINIMUM_CAPACITY;
      threshold := HT_MINIMUM_CAPACITY * HT_LOAD_FACTOR;
      nodes := seq(HT_MINIMUM_CAPACITY, i => 0);
      size := 0;
      chains := seq(HT_MINIMUM_CAPACITY, i => []);
      owner := map[];
      EmptyGood(hash, T());
    }

    /** `ht_reserve`. */
    method Reserve(minimumCapacity: nat)
      requires Valid()
      modifies this
      ensures Valid() && Map() == old(Map())
      ensures minimumCapacity <= old(threshold) ==> T() == old(T())
      ensures minimumCapacity > old(threshold) ==> capacity == minimumCapacity / HT_LOAD_FACTOR >= old(capacity)
    {
      Shape(hash, T());
      if minimumCapacity > threshold {
        Resize(minimumCapacity / HT_LOAD_FACTOR);
      }
    }

    /** `ht_copy`: a table of the same capacity into which every node of
        `second` is pushed, chain by chain. */
    constructor Copy(second: HashTable<K, V>)
      requires second.Valid()
      ensures Valid() && Map() == second.Map() && hash == second.hash && capacity == second.capacity
    {
      hash := second.hash;
      store := map[];
      brk := 1;
      nodes := seq(second.capacity, i => 0);
      capacity := second.capacity;
      threshold := second.capacity * HT_LOAD_FACTOR;
      size := 0;
      chains := seq(second.capacity, i => []);
      owner := map[];
      new;
      ghost var t := second.T();
      Shape(hash, t);
      EmptyGood(hash, T());
      ghost var done: set<nat> := {};
      NothingCopied(t);
      for chain := 0 to second.capacity
        invariant Valid() && capacity == second.capacity && second.T() == t
        invariant Visited(t.chains, chain, 0, done) && Copied(t, done, Map())
      {
        done := CopyChain(second.store, second.nodes[chain], t, chain, done);
      }
      CopiedAll(hash, t, done, Map());
    }

    /** Push the nodes of one chain of another table, given its node memory. */
    method CopyChain(memory: map<nat, Node<K, V>>, head: nat, ghost t: Table<K, V>, ghost chain: nat, ghost done: set<nat>)
      returns (ghost done': set<nat>)
      requires Valid() && Good(hash, t) && t.store == memory && capacity == t.capacity
      requires chain < |t.chains| && chain < |t.nodes| && t.nodes[chain] == head
      requires Visited(t.chains, chain, 0, done) && Copied(t, done, Map())
      modifies this
      ensures Valid() && capacity == old(capacity)
      ensures Visited(t.chains, chain + 1, 0, done') && Copied(t, done', Map())
    {
      ghost var c, i := t.chains[chain], 0;
      done' := done;
      var node := head;
      assert node == if |c| > 0 then c[0] else 0 by { ThreadsOf(hash, t); }
      while node != 0
        invariant Valid() && capacity == t.capacity
        invariant 0 <= i <= |c| && node == if i < |c| then c[i] else 0
        invariant Visited(t.chains, chain, i, done') && Copied(t, done', Map())
        decreases |c| - i
      {
        CopyNode(hash, t, chain, i, done', T());
        PushFront(memory[node].key, memory[node].value);
        done' := done' + {node};
        node := memory[node].next;
        i := i + 1;
      }
      ChainEnd(hash, t, chain, i);
    }
  }

  lemma ChainEnd<K, V>(hash: K -> nat, t: Table<K, V>, b: nat, i: nat)
    requires Good(hash, t) && b < |t.chains| && i <= |t.chains[b]| && (i < |t.chains[b]| ==> t.chains[b][i] == 0)
    ensures i == |t.chains[b]|
  {
    ThreadsOf(hash, t);
    if i < |t.chains[b]| {
      LinkedAllocated(t.store, t.nodes[b], t.chains[b], i);
      assert false;
    }
  }

  /** `m` is the part of `t`'s map whose nodes are in `done`. */
  ghost predicate Copied<K, V>(t: Table<K, V>, done: set<nat>, m: map<K, V>) {
    m == map k | k in MapOf(t) && k in t.owner && t.owner[k] in done :: MapOf(t)[k]
  }

  lemma NothingCopied<K, V>(t: Table<K, V>)
    ensures Copied(t, {}, map[])
  {
  }

  lemma CopiedMore<K, V>(t: Table<K, V>, done: set<nat>, m: map<K, V>, p: nat)
    requires Copied(t, done, m) && p in t.store && Owned(t.store, t.owner)
    requires t.store[p].key in t.owner && t.owner[t.store[p].key] == p
    ensures Copied(t, done + {p}, m[t.store[p].key := t.store[p].value])
  {
  }

  lemma CopiedAll<K, V>(hash: K -> nat, t: Table<K, V>, done: set<nat>, m: map<K, V>)
    requires Good(hash, t) && Visited(t.chains, |t.chains|, 0, done) && Copied(t, done, m)
    ensures m == MapOf(t)
  {
    HomesOf(hash, t);
    forall k | k in t.owner
      ensures t.owner[k] in done
    {
      assert t.owner[k] in t.chains[Mod(hash(k), |t.chains|)];
    }
  }

  /** Copying one node: it is new to the copy, there is room for it, and the
      copied part grows by it. */
  lemma CopyNode<K, V>(hash: K -> nat, t: Table<K, V>, b: nat, i: nat, done: set<nat>, u: Table<K, V>)
    requires Good(hash, t) && b < |t.chains| && i < |t.chains[b]| && Visited(t.chains, b, i, done)
    requires Good(hash, u) && Copied(t, done, MapOf(u)) && u.capacity == t.capacity
    ensures var p := t.chains[b][i];
            && p in t.store && t.store[p].key !in u.owner && u.size < u.capacity
            && t.store[p].next == (if i + 1 < |t.chains[b]| then t.chains[b][i + 1] else 0)
            && Visited(t.chains, b, i + 1, done + {p})
            && Copied(t, done + {p}, MapOf(u)[t.store[p].key := t.store[p].value])
  {
    var p := t.chains[b][i];
    CutShape(hash, t, b, i);
    assert t.store[p].next == (if i + 1 < |t.chains[b]| then t.chains[b][i + 1] else 0) by {
      ThreadsOf(hash, t);
      LinkedAllocated(t.store, t.nodes[b], t.chains[b], i);
    }
    assert Visited(t.chains, b, i + 1, done + {p}) by {
      SeatsOf(hash, t);
      VisitOne(hash, t.store, t.chains, t.owner, b, i, done);
    }
    OwnersOf(hash, t);
    OwnersOf(hash, u);
    var key := t.store[p].key;
    assert p !in done;
    assert key !in MapOf(u);
    CopiedMore(t, done, MapOf(u), p);
    assert u.size < u.capacity by {
      SizesOf(hash, t);
      SizesOf(hash, u);
      assert u.owner.Keys == MapOf(u).Keys;
      SmallerKeys(u.owner.Keys, t.owner.Keys, key);
    }
  }

  lemma SmallerKeys<K>(a: set<K>, b: set<K>, x: K)
    requires a <= b && x in b && x !in a
    ensures |a| < |b|
  {
    SubsetSize(a, b - {x});
  }

  lemma {:induction false} SubsetSize<K>(a: set<K>, b: set<K>)
    requires a <= b
    ensures |a| <= |b|
    decreases a
  {
    if x :| x in a {
      SubsetSize(a - {x}, b - {x});
    }
  }
}
