/**
 The split virtqueue (VIRTIO 1.2, sections 2.7.5 and 2.7.6): popping a descriptor
 chain off the available ring in guest memory.
 */
module Virtqueue {
  import opened Results
  import opened Bytes
  import opened Ram
  import opened DescriptorChains

  const DESC_SIZE: u64 := 16
  const AVAIL_RING_HDR: u64 := 4

  datatype Chain = Chain(head: u16, descriptors: seq<Descriptor>)

  type Popped = Result<Option<Chain>, WalkError>

  class VirtQueue {
    const sizeMax: u32
    var size: u32
    var ready: bool
    var descAddr: u64
    var availAddr: u64
    var usedAddr: u64
    var lastAvailIdx: u16

    constructor (sizeMax: u32)
      ensures this.sizeMax == sizeMax
      ensures size == 0 && !ready && descAddr == 0 && availAddr == 0 && usedAddr == 0 && lastAvailIdx == 0
    {
      this.sizeMax := sizeMax;
      size, ready, descAddr, availAddr, usedAddr, lastAvailIdx := 0, false, 0, 0, 0, 0;
    }

    function Config(): QueueConfig
      reads this
    {
      QueueConfig(size, ready, descAddr, availAddr, usedAddr)
    }
  }

  /** What the driver has told the device about the queue. */
  datatype QueueConfig = QueueConfig(size: u32, ready: bool, desc: u64, avail: u64, used: u64)

  // ----- Guest memory as a descriptor table and an available ring -----

  function DescriptorAt(m: seq<byte>, desc: u64, idx: nat): Result<Descriptor, RamError> {
    WordWidths();
    var base := Wrap64(desc + idx * DESC_SIZE);
    var addr :- ReadWord(m, base, 8);
    var len :- ReadWord(m, Wrap64(base + 8), 4);
    var flags :- ReadWord(m, Wrap64(base + 12), 2);
    var next :- ReadWord(m, Wrap64(base + 14), 2);
    Ok(Descriptor(addr, len, flags, next))
  }

  /** The table, as far as a 16-bit index reaches. */
  function TableOf(m: seq<byte>, q: QueueConfig): (t: Table)
    ensures |t| == if q.size < TWO16 then q.size else TWO16
  {
    seq(if q.size < TWO16 then q.size else TWO16, i requires 0 <= i => DescriptorAt(m, q.desc, i))
  }

  function AvailIdx(m: seq<byte>, q: QueueConfig): Result<nat, RamError> {
    ReadWord(m, Wrap64(q.avail + 2), 2)
  }

  function RingEntry(m: seq<byte>, q: QueueConfig, last: u16): Result<nat, RamError>
    requires q.size > 0
  {
    ReadWord(m, Wrap64(q.avail + AVAIL_RING_HDR + last % q.size * 2), 2)
  }

  /** The head of the next request, if the driver has published one. */
  function Pending(m: seq<byte>, q: QueueConfig, last: u16): Result<Option<u16>, RamError> {
    WordWidths();
    if !q.ready || q.size == 0 then Ok(None)
    else
      var avail :- AvailIdx(m, q);
      if avail == last then Ok(None)
      else
        var head :- RingEntry(m, q, last);
        Ok(Some(head))
  }

  /** What a pop answers, and the cursor it leaves: only a head that was read is consumed. */
  function Pop(m: seq<byte>, q: QueueConfig, last: u16): (Popped, u16) {
    match Pending(m, q, last)
    case Err(e) => (Err(Memory(e)), last)
    case Ok(None) => (Ok(None), last)
    case Ok(Some(head)) => (WalkFrom(m, q, head), (last + 1) % TWO16)
  }

  function WalkFrom(m: seq<byte>, q: QueueConfig, head: u16): Popped {
    match Walk(TableOf(m, q), head, q.size)
    case Err(e) => Err(e)
    case Ok(ds) => Ok(Some(Chain(head, ds)))
  }

  // ----- The device's methods -----

  lemma TableEntry(m: seq<byte>, q: QueueConfig, idx: u16)
    requires idx < q.size
    ensures TableOf(m, q)[idx] == DescriptorAt(m, q.desc, idx)
  {
  }

  method ReadDescriptorAt(ram: GuestRam, desc: u64, idx: u16) returns (r: Result<Descriptor, RamError>)
    requires ram.Valid()
    ensures r == DescriptorAt(ram.mem[..], desc, idx)
  {
    WordWidths();
    var base := Wrap64(desc + idx * DESC_SIZE);
    var addr :- ram.ReadObj(base, 8);
    var len :- ram.ReadObj(Wrap64(base + 8), 4);
    var flags :- ram.ReadObj(Wrap64(base + 12), 2);
    var next :- ram.ReadObj(Wrap64(base + 14), 2);
    return Ok(Descriptor(addr, len, flags, next));
  }

  method ReadDescriptor(queue: VirtQueue, ram: GuestRam, idx: u16) returns (r: Result<Descriptor, RamError>)
    requires ram.Valid() && idx < queue.size
    ensures r == TableOf(ram.mem[..], queue.Config())[idx]
  {
    TableEntry(ram.mem[..], queue.Config(), idx);
    r := ReadDescriptorAt(ram, queue.descAddr, idx);
  }

  /** The bounded walk of a pop, from the head index on, through the table `t`. */
  method WalkChain(queue: VirtQueue, ram: GuestRam, head: u16, ghost t: Table)
    returns (r: Result<seq<Descriptor>, WalkError>)
    requires ram.Valid() && t == TableOf(ram.mem[..], queue.Config())
    ensures r == Walk(t, head, queue.size)
  {
    ghost var whole := Walk(t, head, queue.size);
    ghost var rest := whole;
    ghost var fuel: nat := queue.size;
    var descriptors: seq<Descriptor> := [];
    var idx: u16 := head;
    PrependNone(whole);
    for step := 0 to queue.size
      invariant fuel == queue.size - step
      invariant t == TableOf(ram.mem[..], queue.Config())
      invariant rest == Walk(t, idx, fuel)
      invariant whole == Prepend(descriptors, rest)
    {
      ghost var less: nat := fuel - 1;
      WalkUnfolds(t, idx, fuel, less);
      if idx >= queue.size {
        return Err(IndexOutOfRange(idx));
      }
      var read := ReadDescriptor(queue, ram, idx);
      if read.Err? {
        return Err(Memory(read.error));
      }
      var d := read.value;
      if !d.HasNext() {
        return Ok(descriptors + [d]);
      }
      ghost var after := Walk(t, d.next, less);
      PrependMore(descriptors, d, after);
      fuel, rest := less, after;
      descriptors := descriptors + [d];
      idx := d.next;
    }
    return Err(ChainTooLong);
  }

  method ReadAvailIdx(queue: VirtQueue, ram: GuestRam) returns (r: Result<nat, RamError>)
    requires ram.Valid()
    ensures r == AvailIdx(ram.mem[..], queue.Config())
  {
    r := ram.ReadObj(Wrap64(queue.availAddr + 2), 2);
  }

  method ReadRingEntry(queue: VirtQueue, ram: GuestRam) returns (r: Result<nat, RamError>)
    requires ram.Valid() && queue.size > 0
    ensures r == RingEntry(ram.mem[..], queue.Config(), queue.lastAvailIdx)
  {
    var slot := queue.lastAvailIdx % queue.size;
    r := ram.ReadObj(Wrap64(queue.availAddr + AVAIL_RING_HDR + slot * 2), 2);
  }

  /** The first half of a pop: compare the indices, read the head, advance the cursor. */
  method NextHead(queue: VirtQueue, ram: GuestRam) returns (r: Result<Option<u16>, RamError>)
    requires ram.Valid()
    modifies queue`lastAvailIdx
    ensures r == Pending(ram.mem[..], queue.Config(), old(queue.lastAvailIdx))
    ensures queue.lastAvailIdx ==
              if r.Ok? && r.value.Some? then (old(queue.lastAvailIdx) + 1) % TWO16 else old(queue.lastAvailIdx)
  {
    WordWidths();
    if !queue.ready || queue.size == 0 {
      return Ok(None);
    }
    var availIdx :- ReadAvailIdx(queue, ram);
    if availIdx == queue.lastAvailIdx {
      return Ok(None);
    }
    var head :- ReadRingEntry(queue, ram);
    queue.lastAvailIdx := (queue.lastAvailIdx + 1) % TWO16;
    return Ok(Some(head));
  }

  method PopChain(queue: VirtQueue, ram: GuestRam) returns (r: Popped)
    requires ram.Valid()
    modifies queue`lastAvailIdx
    ensures (r, queue.lastAvailIdx) == Pop(ram.mem[..], queue.Config(), old(queue.lastAvailIdx))
  {
    var pending := NextHead(queue, ram);
    if pending.Err? {
      return Err(Memory(pending.error));
    }
    if pending.value.None? {
      return Ok(None);
    }
    var head := pending.value.value;
    var descriptors :- WalkChain(queue, ram, head, TableOf(ram.mem[..], queue.Config()));
    return Ok(Some(Chain(head, descriptors)));
  }

  // ----- What a pop means -----

  /**
   On a pending head, a pop answers a chain exactly when the table declares one from that
   head, and then it is that chain: its descriptors in order, no index twice, consumed once.
   */
  lemma PopIffChain(m: seq<byte>, q: QueueConfig, last: u16, head: u16)
    requires Pending(m, q, last) == Ok(Some(head))
    ensures Pop(m, q, last).1 == (last + 1) % TWO16
    ensures Pop(m, q, last).0 != Ok(None)
    ensures Pop(m, q, last).0.Ok? <==> HasChain(TableOf(m, q), head)
    ensures forall path, end {:trigger IsChain(TableOf(m, q), head, path, end)} ::
            IsChain(TableOf(m, q), head, path, end) ==>
              && Distinct(path + [end])
              && |path| < q.size
              && (forall k :: 0 <= k < |path + [end]| ==> Readable(TableOf(m, q), (path + [end])[k]))
              && Pop(m, q, last).0 == Ok(Some(Chain(head, Descriptors(TableOf(m, q), path + [end]))))
  {
    var t := TableOf(m, q);
    WalkIffChain(t, head, q.size);
    forall path, end | IsChain(t, head, path, end)
      ensures Distinct(path + [end]) && |path| < q.size
      ensures forall k :: 0 <= k < |path + [end]| ==> Readable(t, (path + [end])[k])
      ensures Pop(m, q, last).0 == Ok(Some(Chain(head, Descriptors(t, path + [end]))))
    {
      ChainDistinct(t, head, path, end);
      ChainFits(t, head, path, end);
      WalkFindsChain(t, head, path, end, q.size);
    }
  }

  predicate TableInRam(m: seq<byte>, q: QueueConfig) {
    q.size <= TWO16 && q.desc + q.size * DESC_SIZE <= |m| < TWO64
  }

  lemma TableInRamReadable(m: seq<byte>, q: QueueConfig)
    requires TableInRam(m, q)
    ensures forall i: u16 :: i < q.size ==> Readable(TableOf(m, q), i)
  {
    forall i: u16 | i < q.size
      ensures Readable(TableOf(m, q), i)
    {
      assert DescriptorAt(m, q.desc, i).Ok?;
    }
  }

  /**
   With the whole table in RAM, a pending head ends in one of three ways: the links reach a
   descriptor without NEXT, and that chain is answered; they lead out of the table; or the
   first `size` descriptors all have NEXT, which is a cycle, or every descriptor of the
   table once and then a link out of it.
   */
  lemma PopOutcome(m: seq<byte>, q: QueueConfig, last: u16, head: u16) returns (path: seq<u16>, end: u16)
    requires Pending(m, q, last) == Ok(Some(head)) && TableInRam(m, q)
    ensures var t := TableOf(m, q);
            && Linked(t, head, path, end)
            && (forall k :: 0 <= k < |path| ==> Readable(t, path[k]))
            && match Pop(m, q, last).0
               case Ok(None) => false
               case Ok(Some(chain)) =>
                 Ends(t, end) && chain == Chain(head, Descriptors(t, path + [end]))
               case Err(IndexOutOfRange(x)) => x == end && end >= q.size && |path| < q.size
               case Err(ChainTooLong) =>
                 && |path| == q.size
                 && (!Distinct(path + [end]) || (end >= q.size && forall x: u16 :: x < q.size ==> x in path))
               case Err(Memory(_)) => false
  {
    var t := TableOf(m, q);
    TableInRamReadable(m, q);
    path, end := WalkPath(t, head, q.size);
    WalkOutcome(t, head, path, end, q.size);
    if |path| == q.size {
      TooLongMeansCycleOrExit(t, head, path, end, q.size);
    }
  }
}
