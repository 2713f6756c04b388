/** The guest memory table of a vhost-user device: regions sorted by guest
    physical address in a fixed array, searched by bisection, opened and closed
    by shifting entries in place. */
module Regions {
  import opened Common
  import opened Vring

  const MAX_RAM_SLOTS: nat := 509

  datatype Region = Region(gpa: nat, size: nat, qva: nat, mmapAddr: nat, mmapOffset: nat)

  function End(r: Region): nat {
    r.gpa + r.size
  }

  /** What the table relies on: a region is nonempty and its end is
      representable. */
  predicate Mappable(r: Region) {
    0 < r.size && End(r) < WRAP64
  }

  predicate Covers(r: Region, addr: nat) {
    r.gpa <= addr < End(r)
  }

  predicate Overlap(a: Region, b: Region) {
    a.gpa < End(b) && b.gpa < End(a)
  }

  /** Sorted by guest address and pairwise disjoint. */
  ghost predicate Ordered(t: seq<Region>) {
    && (forall i :: 0 <= i < |t| ==> Mappable(t[i]))
    && (forall i, j :: 0 <= i < j < |t| ==> End(t[i]) <= t[j].gpa)
  }

  /** The region found by looking at every entry in turn. */
  function LinearScan(t: seq<Region>, addr: nat): Option<nat>
    decreases |t|
  {
    if t == [] then None
    else if Covers(t[0], addr) then Some(0)
    else match LinearScan(t[1..], addr) case None => None case Some(i) => Some(i + 1)
  }

  lemma {:induction false} LinearScanFinds(t: seq<Region>, addr: nat)
    ensures match LinearScan(t, addr)
            case Some(i) => i < |t| && Covers(t[i], addr) && forall j :: 0 <= j < i ==> !Covers(t[j], addr)
            case None => forall j :: 0 <= j < |t| ==> !Covers(t[j], addr)
    decreases |t|
  {
    if t != [] {
      LinearScanFinds(t[1..], addr);
      assert forall j :: 1 <= j < |t| ==> t[j] == t[1..][j - 1];
    }
  }

  /** In an ordered table at most one region covers an address, so any hit is
      the linear scan's. */
  lemma OnlyHit(t: seq<Region>, addr: nat, i: nat)
    requires Ordered(t) && i < |t| && Covers(t[i], addr)
    ensures LinearScan(t, addr) == Some(i)
  {
    LinearScanFinds(t, addr);
  }

  /** A run of bytes in the device's own address space. */
  datatype Iov = Iov(base: nat, len: nat)

  /** Where the bytes from `addr` on are mapped, and how many of `plen` bytes
      the region of `addr` holds.  The end of the range is computed in 64
      bits. */
  function Translate(t: seq<Region>, addr: nat, plen: nat): Option<Iov> {
    if plen == 0 then None
    else
      LinearScanFinds(t, addr);
      match LinearScan(t, addr)
      case None => None
      case Some(i) =>
        var len := if U64(addr + plen) > End(t[i]) then End(t[i]) - addr else plen;
        Some(Iov(addr - t[i].gpa + t[i].mmapAddr + t[i].mmapOffset, len))
  }

  /** The run stays inside its region if and only if the requested range does
      not wrap past 2^64. */
  lemma TranslateInsideIff(t: seq<Region>, addr: uint64, plen: uint32)
    requires Ordered(t) && Translate(t, addr, plen).Some?
    ensures match LinearScan(t, addr)
            case None => false
            case Some(i) =>
              i < |t| && (addr + Translate(t, addr, plen).value.len <= End(t[i]) <==> addr + plen < WRAP64)
  {
    LinearScanFinds(t, addr);
    assert U64(addr + plen) == if addr + plen < WRAP64 then addr + plen else addr + plen - WRAP64;
  }

  /** How many entries start below `gpa`: where a region at `gpa` belongs. */
  function Slot(t: seq<Region>, gpa: nat): (k: nat)
    ensures k <= |t|
    ensures forall i :: 0 <= i < k ==> t[i].gpa < gpa
    ensures k < |t| ==> t[k].gpa >= gpa
    decreases |t|
  {
    if t == [] || t[0].gpa >= gpa then 0 else 1 + Slot(t[1..], gpa)
  }

  function Inserted(t: seq<Region>, r: Region): seq<Region> {
    var k := Slot(t, r.gpa);
    t[..k] + [r] + t[k..]
  }

  function Removed(t: seq<Region>, i: nat): seq<Region>
    requires i < |t|
  {
    t[..i] + t[i + 1..]
  }

  predicate Free(t: seq<Region>, r: Region) {
    forall i :: 0 <= i < |t| ==> !Overlap(t[i], r)
  }

  lemma InsertKeepsOrder(t: seq<Region>, r: Region)
    requires Ordered(t) && Mappable(r) && Free(t, r)
    ensures Ordered(Inserted(t, r))
  {
    var k := Slot(t, r.gpa);
    assert forall i :: 0 <= i < k ==> !Overlap(t[i], r) && End(t[i]) <= r.gpa;
    assert forall i :: k <= i < |t| ==> !Overlap(t[i], r) && End(r) <= t[i].gpa by {
      forall i | k <= i < |t|
        ensures !Overlap(t[i], r) && End(r) <= t[i].gpa
      {
        assert t[k].gpa >= r.gpa && (k < i ==> End(t[k]) <= t[i].gpa);
      }
    }
    InsertOrdered(t, r, k);
  }

  lemma InsertOrdered(t: seq<Region>, r: Region, k: nat)
    requires Ordered(t) && Mappable(r) && k <= |t|
    requires (forall i :: 0 <= i < k ==> End(t[i]) <= r.gpa) && (forall i :: k <= i < |t| ==> End(r) <= t[i].gpa)
    ensures Ordered(t[..k] + [r] + t[k..])
  {
  }

  lemma RemoveKeepsOrder(t: seq<Region>, i: nat)
    requires Ordered(t) && i < |t|
    ensures Ordered(Removed(t, i))
  {
  }

  /** Adding a region and removing it again gives the table back. */
  lemma AddThenRemove(t: seq<Region>, r: Region)
    requires Ordered(t) && Mappable(r) && Free(t, r)
    ensures var u := Inserted(t, r);
            match LinearScan(u, r.gpa)
            case Some(i) => i < |u| && u[i] == r && Removed(u, i) == t
            case None => false
  {
    var u, k := Inserted(t, r), Slot(t, r.gpa);
    InsertKeepsOrder(t, r);
    OnlyHit(u, r.gpa, k);
    assert Removed(u, k) == t;
  }

  /** The table a whole-table message leaves: each region in turn, those that
      overlap an earlier one or cannot be mapped left out. */
  function TableOf(rs: seq<Region>, mapped: seq<bool>): (t: seq<Region>)
    requires |mapped| == |rs|
    ensures |t| <= |rs|
    decreases |rs|
  {
    if rs == [] then []
    else
      var n := |rs| - 1;
      var t := TableOf(rs[..n], mapped[..n]);
      if Free(t, rs[n]) && mapped[n] then Inserted(t, rs[n]) else t
  }

  /** The regions that are kept, in the message's order. */
  ghost function Chosen(rs: seq<Region>, kept: seq<bool>): seq<Region>
    requires |kept| == |rs|
    decreases |rs|
  {
    if rs == [] then []
    else
      var n := |rs| - 1;
      Chosen(rs[..n], kept[..n]) + if kept[n] then [rs[n]] else []
  }

  /** A region is kept if and only if it could be mapped and overlaps no kept region
      before it. */
  ghost predicate KeptBy(rs: seq<Region>, mapped: seq<bool>, kept: seq<bool>) {
    && |kept| == |rs| == |mapped|
    && forall i :: 0 <= i < |rs| ==> (kept[i] <==> mapped[i] && ClearBefore(rs, kept, i))
  }

  ghost predicate ClearBefore(rs: seq<Region>, kept: seq<bool>, i: nat)
    requires i < |rs| == |kept|
  {
    forall j :: 0 <= j < i && kept[j] ==> !Overlap(rs[j], rs[i])
  }

  /** The table is the kept regions, in address order. */
  lemma {:induction false} TableOfExact(rs: seq<Region>, mapped: seq<bool>) returns (kept: seq<bool>)
    requires |mapped| == |rs| && forall i :: 0 <= i < |rs| ==> Mappable(rs[i])
    ensures KeptBy(rs, mapped, kept) && Ordered(TableOf(rs, mapped))
    ensures multiset(TableOf(rs, mapped)) == multiset(Chosen(rs, kept))
    decreases |rs|
  {
    if rs == [] {
      kept := [];
    } else {
      var n := |rs| - 1;
      var before := TableOfExact(rs[..n], mapped[..n]);
      var t := TableOf(rs[..n], mapped[..n]);
      kept := before + [Free(t, rs[n]) && mapped[n]];
      FreeOfKept(t, rs[..n], before, rs[n]);
      KeptStep(rs, mapped, before, kept, n);
      TableStep(t, TableOf(rs, mapped), rs[n], kept[n], Chosen(rs[..n], before), Chosen(rs, kept));
    }
  }

  lemma KeptStep(rs: seq<Region>, mapped: seq<bool>, before: seq<bool>, kept: seq<bool>, n: nat)
    requires |mapped| == |rs| == n + 1 && KeptBy(rs[..n], mapped[..n], before) && |kept| == n + 1 && kept[..n] == before
    requires kept[n] <==> mapped[n] && forall j :: 0 <= j < n && before[j] ==> !Overlap(rs[..n][j], rs[n])
    ensures KeptBy(rs, mapped, kept) && Chosen(rs, kept) == Chosen(rs[..n], before) + if kept[n] then [rs[n]] else []
  {
    forall i | 0 <= i < |rs|
      ensures kept[i] <==> mapped[i] && ClearBefore(rs, kept, i)
    {
      if i < n {
        assert kept[i] == before[i] && (ClearBefore(rs, kept, i) <==> ClearBefore(rs[..n], before, i));
      } else {
        assert forall j :: 0 <= j < n ==> kept[j] == before[j] && rs[..n][j] == rs[j];
      }
    }
  }

  lemma TableStep(t: seq<Region>, u: seq<Region>, r: Region, add: bool, c: seq<Region>, d: seq<Region>)
    requires Ordered(t) && Mappable(r) && (add ==> Free(t, r)) && multiset(t) == multiset(c)
    requires u == (if add then Inserted(t, r) else t) && d == c + if add then [r] else []
    ensures Ordered(u) && multiset(u) == multiset(d)
  {
    if add {
      InsertKeepsOrder(t, r);
      InsertAdds(t, r);
    } else {
      assert d == c;
    }
  }

  lemma InsertAdds(t: seq<Region>, r: Region)
    ensures multiset(Inserted(t, r)) == multiset(t) + multiset{r}
  {
    var k := Slot(t, r.gpa);
    assert t == t[..k] + t[k..];
  }

  /** Overlapping no entry of the table is overlapping no kept region. */
  lemma FreeOfKept(t: seq<Region>, rs: seq<Region>, kept: seq<bool>, r: Region)
    requires |kept| == |rs| && multiset(t) == multiset(Chosen(rs, kept))
    ensures Free(t, r) <==> forall j :: 0 <= j < |rs| && kept[j] ==> !Overlap(rs[j], r)
  {
    var c := Chosen(rs, kept);
    forall x
      ensures x in t <==> x in c
    {
      assert x in t <==> x in multiset(t);
      assert x in c <==> x in multiset(c);
    }
    ChosenAre(rs, kept);
    if Free(t, r) {
      forall j | 0 <= j < |rs| && kept[j]
        ensures !Overlap(rs[j], r)
      {
        assert rs[j] in t;
      }
    } else {
      var i :| 0 <= i < |t| && Overlap(t[i], r);
      assert t[i] in c;
    }
  }

  lemma {:induction false} ChosenAre(rs: seq<Region>, kept: seq<bool>)
    requires |kept| == |rs|
    ensures forall x :: x in Chosen(rs, kept) <==> exists j :: 0 <= j < |rs| && kept[j] && rs[j] == x
    decreases |rs|
  {
    if rs != [] {
      var n := |rs| - 1;
      ChosenAre(rs[..n], kept[..n]);
      forall x
        ensures x in Chosen(rs, kept) <==> exists j :: 0 <= j < |rs| && kept[j] && rs[j] == x
      {
        if j :| 0 <= j < n && kept[j] && rs[j] == x {
          assert rs[..n][j] == x && kept[..n][j];
        }
      }
    }
  }

  lemma TableOfStep(rs: seq<Region>, mapped: seq<bool>, i: nat)
    requires |mapped| == |rs| && i < |rs|
    ensures var t := TableOf(rs[..i], mapped[..i]);
            && TableOf(rs[..i + 1], mapped[..i + 1]) == (if Free(t, rs[i]) && mapped[i] then Inserted(t, rs[i]) else t)
            && |t| <= i && |Inserted(t, rs[i])| == |t| + 1
  {
    assert rs[..i + 1][..i] == rs[..i] && mapped[..i + 1][..i] == mapped[..i];
  }

  class VuDev {
    const regions: array<Region>
    var nregions: nat
    var broken: bool
    ghost var table: seq<Region>  // the entries in use

    /** `table` is what the array holds. */
    ghost predicate Holds()
      reads this, regions
    {
      regions.Length == MAX_RAM_SLOTS && nregions <= regions.Length && table == regions[..nregions]
    }

    ghost predicate Valid()
      reads this, regions
    {
      Holds() && Ordered(table)
    }

    constructor ()
      ensures Valid() && table == [] && !broken
    {
      regions := new Region[MAX_RAM_SLOTS](i => Region(0, 0, 0, 0, 0));
      nregions := 0;
      broken := false;
      table := [];
    }

    /** `vu_gpa_to_mem_region`. */
    method GpaToMemRegion(addr: uint64) returns (found: Option<nat>)
      requires Valid()
      ensures found == LinearScan(table, addr)
    {
      var low, high := 0, nregions - 1;
      while low <= high
        invariant 0 <= low <= nregions && -1 <= high < nregions
        invariant forall i :: 0 <= i < low ==> End(regions[i]) <= addr
        invariant forall i :: high < i < nregions ==> addr < regions[i].gpa
        decreases high - low
      {
        var mid := low + (high - low) / 2;
        var cur := regions[mid];
        ghost var t := table;
        assert cur == t[mid] && Mappable(cur);
        if addr >= cur.gpa && addr < End(cur) {
          OnlyHit(t, addr, mid);
          return Some(mid);
        }
        if addr >= End(cur) {
          assert forall i :: 0 <= i < mid ==> End(t[i]) <= t[mid].gpa;
          low := mid + 1;
        }
        if addr < cur.gpa {
          assert forall i :: mid < i < nregions ==> End(t[mid]) <= t[i].gpa;
          high := mid - 1;
        }
      }
      LinearScanFinds(table, addr);
      return None;
    }

    /** `vu_gpa_to_va`: the address and how many of the `plen` bytes lie there. */
    method GpaToVa(addr: uint64, plen: nat) returns (r: Option<Iov>)
      requires Valid()
      ensures r == Translate(table, addr, plen)
    {
      if plen == 0 {
        return None;
      }
      var found := GpaToMemRegion(addr);
      LinearScanFinds(table, addr);
      if found == None {
        return None;
      }
      var cur := regions[found.value];
      var len := plen;
      if U64(addr + plen) > End(cur) {
        len := End(cur) - addr;
      }
      return Some(Iov(addr - cur.gpa + cur.mmapAddr + cur.mmapOffset, len));
    }

    /** The bisection of `_vu_add_mem_reg`: it probes only some entries, yet
        refuses exactly the regions that overlap some entry. */
    method InsertionPoint(r: Region) returns (idx: Option<nat>)
      requires Valid() && Mappable(r)
      ensures idx == (if Free(table, r) then Some(Slot(table, r.gpa)) else None)
    {
      ghost var t := table;
      var low, high := 0, nregions - 1;
      while low <= high
        invariant 0 <= low <= high + 1 <= nregions
        invariant forall i :: 0 <= i < low ==> End(t[i]) <= r.gpa
        invariant forall i :: high < i < nregions ==> End(r) <= t[i].gpa
        decreases high - low
      {
        var mid := low + (high - low) / 2;
        var cur := regions[mid];
        assert cur == t[mid] && Mappable(cur);
        if r.gpa < End(cur) && cur.gpa < End(r) {
          assert Overlap(t[mid], r);
          return None;
        }
        if r.gpa >= End(cur) {
          low := mid + 1;
        }
        if r.gpa < cur.gpa {
          high := mid - 1;
        }
      }
      SlotAt(t, r, low);
      return Some(low);
    }

    /** `memmove` of the entries from `idx` on, up by one. */
    method OpenHole(idx: nat)
      requires regions.Length == MAX_RAM_SLOTS && idx <= nregions < regions.Length
      modifies regions
      ensures regions[..idx] == old(regions[..idx])
      ensures regions[idx + 1..nregions + 1] == old(regions[idx..nregions])
    {
      var i := nregions;
      while i > idx
        invariant idx <= i <= nregions
        invariant forall j :: 0 <= j < i ==> regions[j] == old(regions[j])
        invariant forall j :: i < j <= nregions ==> regions[j] == old(regions[j - 1])
      {
        regions[i] := regions[i - 1];
        i := i - 1;
      }
    }

    /** `memmove` of the entries above `idx`, down by one. */
    method CloseHole(idx: nat)
      requires regions.Length == MAX_RAM_SLOTS && idx < nregions <= regions.Length
      modifies regions
      ensures regions[..idx] == old(regions[..idx])
      ensures regions[idx..nregions - 1] == old(regions[idx + 1..nregions])
    {
      var i := idx;
      while i + 1 < nregions
        invariant idx <= i < nregions
        invariant forall j :: 0 <= j < idx || i <= j < nregions ==> regions[j] == old(regions[j])
        invariant forall j :: idx <= j < i ==> regions[j] == old(regions[j + 1])
      {
        regions[i] := regions[i + 1];
        i := i + 1;
      }
    }

    method InsertAt(idx: nat, r: Region)
      requires Holds() && idx <= nregions < MAX_RAM_SLOTS
      modifies this`nregions, this`table, regions
      ensures Holds() && table == old(table)[..idx] + [r] + old(table)[idx..]
    {
      OpenHole(idx);
      regions[idx] := r;
      nregions := nregions + 1;
      table := table[..idx] + [r] + table[idx..];
      assert regions[..nregions] == regions[..idx] + [r] + regions[idx + 1..nregions];
    }

    method RemoveAt(idx: nat)
      requires Holds() && idx < nregions
      modifies this`nregions, this`table, regions
      ensures Holds() && table == Removed(old(table), idx)
    {
      CloseHole(idx);
      nregions := nregions - 1;
      table := Removed(table, idx);
      assert regions[..nregions] == regions[..idx] + regions[idx..nregions];
    }

    /** `_vu_add_mem_reg`; `mapped` is whether mmap succeeded. */
    method AddMemReg(r: Region, mapped: bool)
      requires Valid() && Mappable(r) && nregions < MAX_RAM_SLOTS
      modifies this, regions
      ensures Valid()
      ensures table == if Free(old(table), r) && mapped then Inserted(old(table), r) else old(table)
      ensures broken == (old(broken) || !Free(old(table), r) || !mapped)
    {
      ghost var t := table;
      var idx := InsertionPoint(r);
      if idx == None || !mapped {
        broken := true;
        return;
      }
      InsertAt(idx.value, r);
      InsertKeepsOrder(t, r);
    }

    /** `vu_add_mem_reg` past its message checks. */
    method HotAdd(r: Region, mapped: bool)
      requires Valid() && Mappable(r)
      modifies this, regions
      ensures Valid()
      ensures table == if |old(table)| < MAX_RAM_SLOTS && Free(old(table), r) && mapped
                         then Inserted(old(table), r) else old(table)
      ensures broken == (old(broken) || |old(table)| == MAX_RAM_SLOTS || !Free(old(table), r) || !mapped)
    {
      if nregions == MAX_RAM_SLOTS {
        broken := true;
        return;
      }
      AddMemReg(r, mapped);
    }

    /** `vu_rem_mem_reg` past its message checks. */
    method RemMemReg(r: Region)
      requires Valid() && r.gpa < WRAP64
      modifies this, regions
      ensures Valid()
      ensures var t := old(table);
              match LinearScan(t, r.gpa)
              case Some(i) =>
                if i < |t| && t[i].gpa == r.gpa && t[i].qva == r.qva && t[i].size == r.size
                then table == Removed(t, i) && broken == old(broken)
                else table == t && broken
              case None => table == t && broken
    {
      ghost var t := table;
      var found := GpaToMemRegion(r.gpa);
      LinearScanFinds(t, r.gpa);
      if found == None {
        broken := true;
        return;
      }
      var i := found.value;
      var cur := regions[i];
      if !(cur.gpa == r.gpa && cur.qva == r.qva && cur.size == r.size) {
        broken := true;
        return;
      }
      RemoveAt(i);
      RemoveKeepsOrder(t, i);
    }

    /** `vu_set_mem_table_exec`: forget every region, then add the message's
        one by one; the device breaks when some region was left out. */
    method SetMemTable(rs: seq<Region>, mapped: seq<bool>)
      requires Valid() && |rs| <= MAX_RAM_SLOTS && |mapped| == |rs|
      requires forall i :: 0 <= i < |rs| ==> Mappable(rs[i])
      modifies this, regions
      ensures Valid() && table == TableOf(rs, mapped)
      ensures broken == (old(broken) || |table| < |rs|)
    {
      nregions := 0;
      table := [];
      ghost var t: seq<Region> := [];
      for i := 0 to |rs|
        invariant Valid() && table == t && t == TableOf(rs[..i], mapped[..i]) && |t| <= i
        invariant broken == (old(broken) || |t| < i)
      {
        ghost var next := TableOf(rs[..i + 1], mapped[..i + 1]);
        assert next == (if Free(t, rs[i]) && mapped[i] then Inserted(t, rs[i]) else t)
               && |Inserted(t, rs[i])| == |t| + 1 by { TableOfStep(rs, mapped, i); }
        AddMemReg(rs[i], mapped[i]);
        t := next;
      }
      assert rs[..|rs|] == rs && mapped[..|rs|] == mapped;
    }
  }

  lemma SlotAt(t: seq<Region>, r: Region, k: nat)
    requires Ordered(t) && Mappable(r) && k <= |t|
    requires forall i :: 0 <= i < k ==> End(t[i]) <= r.gpa
    requires forall i :: k <= i < |t| ==> End(r) <= t[i].gpa
    ensures Free(t, r) && Slot(t, r.gpa) == k
  {
    assert forall i :: 0 <= i < k ==> Mappable(t[i]) && t[i].gpa < r.gpa;
    assert forall i :: k <= i < |t| ==> t[i].gpa >= r.gpa;
    var s := Slot(t, r.gpa);
    assert s < |t| ==> t[s].gpa >= r.gpa;
    assert k < |t| ==> t[k].gpa >= r.gpa;
  }
}
