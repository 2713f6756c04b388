/** Mapping a descriptor chain: `virtqueue_map_desc` and `vu_queue_map_desc`.
    The driver's table is arbitrary, cyclic tables included. */
module ChainMap {
  import opened Common
  import opened Vring
  import opened Regions

  /** A ring descriptor; `next` is followed only if `more` is set. */
  datatype Desc = Desc(addr: uint64, len: uint32, write: bool, indirect: bool, more: bool, next: uint16)

  const DESC_SIZE: nat := 16

  datatype Element = Element(outSg: seq<Iov>, inSg: seq<Iov>)

  // ----- one buffer -----

  /** A translated run is never empty and never longer than asked. */
  lemma RunBounds(t: seq<Region>, addr: uint64, plen: nat)
    requires Ordered(t) && Translate(t, addr, plen).Some?
    ensures 0 < Translate(t, addr, plen).value.len <= plen
  {
    LinearScanFinds(t, addr);
  }

  /** `virtqueue_map_desc`: `sg` with the runs of `sz` bytes at `pa` appended,
      as long as they fit in `maxNum` slots. */
  function MapRuns(t: seq<Region>, sg: seq<Iov>, maxNum: nat, pa: uint64, sz: nat): (r: Option<seq<Iov>>)
    requires Ordered(t)
    decreases sz
  {
    if sz == 0 then Some(sg)
    else if |sg| >= maxNum then None
    else
      match Translate(t, pa, sz)
      case None => None
      case Some(run) =>
        RunBounds(t, pa, sz);
        MapRuns(t, sg + [run], maxNum, U64(pa + run.len), sz - run.len)
  }

  lemma {:induction false} MapRunsGrows(t: seq<Region>, sg: seq<Iov>, maxNum: nat, pa: uint64, sz: nat)
    requires Ordered(t) && MapRuns(t, sg, maxNum, pa, sz).Some? && |sg| <= maxNum
    ensures var r := MapRuns(t, sg, maxNum, pa, sz).value;
            sg <= r && |r| <= maxNum && (sz > 0 ==> |r| > |sg|)
    decreases sz
  {
    if sz > 0 {
      var run := Translate(t, pa, sz).value;
      RunBounds(t, pa, sz);
      MapRunsGrows(t, sg + [run], maxNum, U64(pa + run.len), sz - run.len);
    }
  }

  // ----- the chain -----

  /** The runs so far with those of one descriptor appended, or nothing if the
      descriptor is refused. */
  function Append(t: seq<Region>, d: Desc, acc: Element): Option<Element>
    requires Ordered(t)
  {
    if d.len == 0 then None
    else if d.write then
      if |acc.outSg| > VIRTQUEUE_MAX_SIZE then None
      else
        match MapRuns(t, acc.inSg, VIRTQUEUE_MAX_SIZE - |acc.outSg|, d.addr, d.len)
        case None => None
        case Some(sg) => Some(acc.(inSg := sg))
    else if acc.inSg != [] then None
    else
      match MapRuns(t, acc.outSg, VIRTQUEUE_MAX_SIZE, d.addr, d.len)
      case None => None
      case Some(sg) => Some(acc.(outSg := sg))
  }

  function Count(acc: Element): nat {
    |acc.outSg| + |acc.inSg|
  }

  lemma AppendGrows(t: seq<Region>, d: Desc, acc: Element)
    requires Ordered(t) && Append(t, d, acc).Some? && Count(acc) <= VIRTQUEUE_MAX_SIZE
    ensures Count(acc) < Count(Append(t, d, acc).value) <= VIRTQUEUE_MAX_SIZE
  {
    if d.write {
      MapRunsGrows(t, acc.inSg, VIRTQUEUE_MAX_SIZE - |acc.outSg|, d.addr, d.len);
    } else {
      MapRunsGrows(t, acc.outSg, VIRTQUEUE_MAX_SIZE, d.addr, d.len);
    }
  }

  /** `vu_queue_map_desc` from descriptor `i` on, with the runs collected so
      far.  `desc` is the table walked: the ring's or an indirect one.  It
      comes to an end on every table: each descriptor adds a run, and there
      may be no more runs than descriptors. */
  function Walk(t: seq<Region>, desc: seq<Desc>, i: nat, acc: Element): Option<Element>
    requires Ordered(t) && i < |desc| && Count(acc) <= VIRTQUEUE_MAX_SIZE
    decreases |desc| + 1 - Count(acc)
  {
    match Append(t, desc[i], acc)
    case None => None
    case Some(more) =>
      AppendGrows(t, desc[i], acc);
      if Count(more) > |desc| then None
      else if !desc[i].more then Some(more)
      else if desc[i].next >= |desc| then None
      else Walk(t, desc, desc[i].next, more)
  }

  // ----- the loops -----

  /** `virtqueue_map_desc`: `sg` is the part of the iov array filled so far,
      `maxNum` the array's size. */
  method MapDesc(dev: VuDev, sg: seq<Iov>, maxNum: nat, pa: uint64, sz: uint32) returns (r: Option<seq<Iov>>)
    requires dev.Valid() && |sg| <= maxNum
    ensures r == if sz == 0 then None else MapRuns(dev.table, sg, maxNum, pa, sz)
  {
    if sz == 0 {
      return None;
    }
    ghost var whole := MapRuns(dev.table, sg, maxNum, pa, sz);
    var out := sg;
    var addr: uint64 := pa;
    var left: nat := sz;
    while left > 0
      invariant |out| <= maxNum
      invariant MapRuns(dev.table, out, maxNum, addr, left) == whole
      decreases left
    {
      if |out| == maxNum {
        return None;
      }
      var run := dev.GpaToVa(addr, left);
      if run == None {
        return None;
      }
      RunBounds(dev.table, addr, left);
      out := out + [run.value];
      left := left - run.value.len;
      addr := U64(addr + run.value.len);
    }
    return Some(out);
  }

  /** `vu_queue_map_desc` on the table it walks. */
  method MapChain(dev: VuDev, desc: seq<Desc>, head: nat) returns (r: Option<Element>)
    requires dev.Valid() && head < |desc|
    ensures r == Walk(dev.table, desc, head, Element([], []))
  {
    ghost var t := dev.table;
    var i: nat := head;
    var outSg: seq<Iov>, inSg: seq<Iov> := [], [];
    while true
      invariant i < |desc| && |outSg| + |inSg| <= |desc| && |outSg| + |inSg| <= VIRTQUEUE_MAX_SIZE
      invariant dev.table == t
      invariant Walk(t, desc, i, Element(outSg, inSg)) == Walk(t, desc, head, Element([], []))
      decreases |desc| + 1 - |outSg| - |inSg|
    {
      var d := desc[i];
      ghost var acc := Element(outSg, inSg);
      if d.write {
        var sg := MapDesc(dev, inSg, VIRTQUEUE_MAX_SIZE - |outSg|, d.addr, d.len);
        if sg == None {
          return None;
        }
        inSg := sg.value;
      } else {
        if inSg != [] {
          return None;
        }
        var sg := MapDesc(dev, outSg, VIRTQUEUE_MAX_SIZE, d.addr, d.len);
        if sg == None {
          return None;
        }
        outSg := sg.value;
      }
      assert Append(t, d, acc) == Some(Element(outSg, inSg));
      AppendGrows(t, d, acc);
      if |inSg| + |outSg| > |desc| {
        return None;
      }
      if !d.more {
        return Some(Element(outSg, inSg));
      }
      if d.next >= |desc| {
        return None;
      }
      i := d.next;
    }
  }

  /** `table` is what guest memory holds where an indirect descriptor points; the
      table lies in one region. */
  ghost predicate OneRegion(t: seq<Region>, d: Desc, table: seq<Desc>) {
    d.indirect ==>
      && |table| == d.len / DESC_SIZE
      && var run := Translate(t, d.addr, d.len); run.Some? ==> run.value.len == d.len
  }

  /** The element of the chain at `head`: an indirect head replaces the ring's
      table by the one it points to. */
  function ChainOf(t: seq<Region>, ring: seq<Desc>, head: nat, table: seq<Desc>): Option<Element>
    requires Ordered(t) && head < |ring| && OneRegion(t, ring[head], table)
  {
    var d := ring[head];
    if !d.indirect then Walk(t, ring, head, Element([], []))
    else if d.len % DESC_SIZE != 0 || Translate(t, d.addr, d.len) == None then None
    else Walk(t, table, 0, Element([], []))
  }

  /** `vu_queue_map_desc`. */
  method QueueMapDesc(dev: VuDev, ring: seq<Desc>, head: nat, table: seq<Desc>) returns (r: Option<Element>)
    requires dev.Valid() && head < |ring| && OneRegion(dev.table, ring[head], table)
    ensures r == ChainOf(dev.table, ring, head, table)
  {
    var d := ring[head];
    if !d.indirect {
      r := MapChain(dev, ring, head);
      return;
    }
    if d.len % DESC_SIZE != 0 {
      return None;
    }
    var run := dev.GpaToVa(d.addr, d.len);
    if run == None {
      return None;
    }
    r := MapChain(dev, table, 0);
  }
}
