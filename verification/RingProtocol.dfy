/**
 Driver and device on one available ring (VIRTIO 1.2, section 2.7.6), over whole runs.
 The device's cursor and the driver's index wrap at 16 bits; the counters of heads
 published and heads taken do not.
 */
module RingProtocol {
  import opened Results
  import opened Arithmetic
  import opened Bytes
  import opened Ram
  import opened DescriptorChains
  import opened Virtqueue

  /** A pop that consumed a head: what it answered, and the memory it saw. */
  datatype Taken = Taken(mem: seq<byte>, answer: Popped)

  datatype Sys = Sys(mem: seq<byte>, last: u16, published: seq<u16>, taken: seq<Taken>)

  /** Queue sizes are powers of two up to 2^15, which is to say proper divisors of 2^16. */
  predicate RingConfig(q: QueueConfig, ramSize: nat) {
    && q.ready
    && 0 < q.size < TWO16
    && TWO16 % q.size == 0
    && q.avail + AVAIL_RING_HDR + q.size * 2 <= ramSize < TWO64
  }

  /** The slot of the `k`-th head, for the driver and the device alike. */
  function Slot(k: nat, size: nat): nat
    requires size > 0
  {
    k % TWO16 % size
  }

  function SlotWord(m: seq<byte>, q: QueueConfig, slot: nat): Result<nat, RamError> {
    ReadWord(m, Wrap64(q.avail + AVAIL_RING_HDR + slot * 2), 2)
  }

  predicate Init(q: QueueConfig, s: Sys) {
    && RingConfig(q, |s.mem|)
    && s.last == 0 && s.published == [] && s.taken == []
    && AvailIdx(s.mem, q) == Ok(0)
  }

  /** A slot the driver may write: that of one of the heads it may publish next. */
  predicate Free(q: QueueConfig, s: Sys, slot: nat)
    requires q.size > 0
  {
    exists k {:trigger Slot(k, q.size)} :: |s.published| <= k < |s.taken| + q.size && Slot(k, q.size) == slot
  }

  /** The driver changes anything in memory except its index and the slots that are not free. */
  predicate Prepare(q: QueueConfig, s: Sys, s': Sys)
    requires q.size > 0
  {
    && s' == s.(mem := s'.mem) && |s'.mem| == |s.mem|
    && AvailIdx(s'.mem, q) == AvailIdx(s.mem, q)
    && forall j :: 0 <= j < q.size && !Free(q, s, j) ==> SlotWord(s'.mem, q, j) == SlotWord(s.mem, q, j)
  }

  /** The heads in the next free slots, within the bound of `size` outstanding ones. */
  predicate NextHeads(q: QueueConfig, s: Sys, heads: seq<u16>)
    requires q.size > 0
  {
    && |s.published| + |heads| <= |s.taken| + q.size
    && forall i :: 0 <= i < |heads| ==> SlotWord(s.mem, q, Slot(|s.published| + i, q.size)) == Ok(heads[i])
  }

  /** The driver bumps its index past the heads in the next free slots, one or a batch, and leaves the slots alone. */
  predicate Publish(q: QueueConfig, s: Sys, s': Sys, heads: seq<u16>)
    requires q.size > 0
  {
    && NextHeads(q, s, heads)
    && s' == s.(mem := s'.mem, published := s.published + heads) && |s'.mem| == |s.mem|
    && AvailIdx(s'.mem, q) == Ok(|s'.published| % TWO16)
    && forall j :: 0 <= j < q.size ==> SlotWord(s'.mem, q, j) == SlotWord(s.mem, q, j)
  }

  /** The device pops. */
  predicate Device(q: QueueConfig, s: Sys, s': Sys) {
    var (answer, last) := Pop(s.mem, q, s.last);
    s' == s.(last := last, taken := if answer == Ok(None) then s.taken else s.taken + [Taken(s.mem, answer)])
  }

  ghost predicate Step(q: QueueConfig, s: Sys, s': Sys)
    requires q.size > 0
  {
    Prepare(q, s, s') || Device(q, s, s') || exists heads :: Publish(q, s, s', heads)
  }

  ghost predicate Run(q: QueueConfig, tr: seq<Sys>) {
    && q.size > 0 && tr != [] && Init(q, tr[0])
    && forall i :: 0 <= i < |tr| - 1 ==> Step(q, tr[i], tr[i + 1])
  }

  /** The wrapped cursors stand for the unbounded counters, and the ring holds what is outstanding. */
  predicate Inv(q: QueueConfig, s: Sys) {
    && RingConfig(q, |s.mem|)
    && |s.taken| <= |s.published| <= |s.taken| + q.size
    && s.last == |s.taken| % TWO16
    && AvailIdx(s.mem, q) == Ok(|s.published| % TWO16)
    && (forall k {:trigger s.published[k]} :: |s.taken| <= k < |s.published| ==>
          SlotWord(s.mem, q, Slot(k, q.size)) == Ok(s.published[k]))
    && (forall k {:trigger s.taken[k]} :: 0 <= k < |s.taken| ==>
          s.taken[k].answer == WalkFrom(s.taken[k].mem, q, s.published[k]))
  }

  // ----- Arithmetic of slots and wrapped counters -----

  /** When the size divides 2^16, wrapping the counter first makes no difference. */
  lemma SlotIsMod(k: nat, size: nat)
    requires size > 0 && TWO16 % size == 0
    ensures Slot(k, size) == k % size
  {
    var c := TWO16 / size;
    var n := k / TWO16;
    assert TWO16 == c * size;
    assert k == k % TWO16 + n * TWO16;
    assert n * TWO16 == (n * c) * size;
    ModPlusMultiple(k % TWO16, n * c, size);
  }

  ghost predicate SlotsDistinct(size: nat)
    requires size > 0
  {
    forall a: nat, b: nat {:trigger Slot(a, size), Slot(b, size)} :: a < b < a + size ==> Slot(a, size) != Slot(b, size)
  }

  /**
   `size` outstanding heads always sit in different slots exactly when the size divides
   2^16: otherwise two of them collide as the counter passes 2^16.
   */
  lemma SlotsDistinctIffDivides(size: nat)
    requires size > 0
    ensures SlotsDistinct(size) <==> TWO16 % size == 0
  {
    if TWO16 % size == 0 {
      forall a: nat, b: nat {:trigger Slot(a, size), Slot(b, size)} | a < b < a + size
        ensures Slot(a, size) != Slot(b, size)
      {
        SlotIsMod(a, size);
        SlotIsMod(b, size);
        ModDistinct(a, b, size);
      }
    } else {
      var a := TWO16 - TWO16 % size;
      assert a == 0 + (TWO16 / size) * size;
      ModPlusMultiple(0, TWO16 / size, size);
      assert Slot(a, size) == 0 && Slot(TWO16, size) == 0;
    }
  }

  /** Two wrapped counters less than 2^16 apart are equal only if the counters are. */
  lemma WrappedEqual(a: nat, b: nat)
    requires a <= b < a + TWO16
    ensures a % TWO16 == b % TWO16 <==> a == b
  {
    if a < b {
      ModDistinct(a, b, TWO16);
    }
  }

  // ----- Every step keeps the invariant -----

  lemma PendingUnderInv(q: QueueConfig, s: Sys)
    requires Inv(q, s)
    ensures Pending(s.mem, q, s.last) ==
              if |s.taken| == |s.published| then Ok(None) else Ok(Some(s.published[|s.taken|]))
  {
    var c := |s.taken|;
    WrappedEqual(c, |s.published|);
    if c < |s.published| {
      assert SlotWord(s.mem, q, Slot(c, q.size)) == Ok(s.published[c]);
      assert RingEntry(s.mem, q, s.last) == SlotWord(s.mem, q, Slot(c, q.size));
    }
  }

  lemma PopUnderInv(q: QueueConfig, s: Sys)
    requires Inv(q, s)
    ensures |s.taken| == |s.published| ==> Pop(s.mem, q, s.last) == (Ok(None), s.last)
    ensures |s.taken| < |s.published| ==>
              Pop(s.mem, q, s.last) == (WalkFrom(s.mem, q, s.published[|s.taken|]), (|s.taken| + 1) % TWO16)
  {
    PendingUnderInv(q, s);
    WrappedStep(|s.taken|);
  }

  lemma WrappedStep(c: nat)
    ensures (c % TWO16 + 1) % TWO16 == (c + 1) % TWO16
  {
  }

  /** Within the driver's bound no free slot holds an outstanding head. */
  lemma OutstandingNotFree(q: QueueConfig, s: Sys, k: nat)
    requires RingConfig(q, |s.mem|) && |s.taken| <= k < |s.published|
    ensures !Free(q, s, Slot(k, q.size))
  {
    SlotsDistinctIffDivides(q.size);
  }

  lemma PrepareKeepsInv(q: QueueConfig, s: Sys, s': Sys)
    requires Inv(q, s) && Prepare(q, s, s')
    ensures Inv(q, s')
  {
    forall k | |s.taken| <= k < |s.published|
      ensures SlotWord(s'.mem, q, Slot(k, q.size)) == Ok(s'.published[k])
    {
      OutstandingNotFree(q, s, k);
      assert SlotWord(s.mem, q, Slot(k, q.size)) == Ok(s.published[k]);
    }
  }

  lemma PublishedSlot(q: QueueConfig, s: Sys, s': Sys, heads: seq<u16>, k: nat)
    requires Inv(q, s) && Publish(q, s, s', heads) && |s.taken| <= k < |s'.published|
    ensures SlotWord(s'.mem, q, Slot(k, q.size)) == Ok(s'.published[k])
  {
    var slot, i := Slot(k, q.size), k - |s.published|;
    assert SlotWord(s'.mem, q, slot) == SlotWord(s.mem, q, slot);
    if i < 0 {
      assert SlotWord(s.mem, q, slot) == Ok(s.published[k]);
    } else {
      assert SlotWord(s.mem, q, Slot(|s.published| + i, q.size)) == Ok(heads[i]);
    }
  }

  lemma PublishKeepsInv(q: QueueConfig, s: Sys, s': Sys, heads: seq<u16>)
    requires Inv(q, s) && Publish(q, s, s', heads)
    ensures Inv(q, s')
  {
    forall k | |s'.taken| <= k < |s'.published|
      ensures SlotWord(s'.mem, q, Slot(k, q.size)) == Ok(s'.published[k])
    {
      PublishedSlot(q, s, s', heads, k);
    }
  }

  lemma TakeKeepsInv(q: QueueConfig, s: Sys, answer: Popped)
    requires Inv(q, s) && |s.taken| < |s.published|
    requires answer == WalkFrom(s.mem, q, s.published[|s.taken|])
    ensures Inv(q, s.(last := (|s.taken| + 1) % TWO16, taken := s.taken + [Taken(s.mem, answer)]))
  {
  }

  /** A device step takes the next outstanding head, if there is one, and otherwise changes nothing. */
  lemma DeviceTakesNext(q: QueueConfig, s: Sys, s': Sys)
    requires Inv(q, s) && Device(q, s, s')
    ensures |s.taken| == |s.published| ==> s' == s
    ensures |s.taken| < |s.published| ==>
              s' == s.(last := (|s.taken| + 1) % TWO16,
                       taken := s.taken + [Taken(s.mem, WalkFrom(s.mem, q, s.published[|s.taken|]))])
  {
    PopUnderInv(q, s);
  }

  lemma DeviceKeepsInv(q: QueueConfig, s: Sys, s': Sys)
    requires Inv(q, s) && Device(q, s, s')
    ensures Inv(q, s')
  {
    DeviceTakesNext(q, s, s');
    if |s.taken| < |s.published| {
      TakeKeepsInv(q, s, WalkFrom(s.mem, q, s.published[|s.taken|]));
    }
  }

  lemma StepKeepsInv(q: QueueConfig, s: Sys, s': Sys)
    requires Inv(q, s) && Step(q, s, s')
    ensures Inv(q, s')
  {
    if heads :| Publish(q, s, s', heads) {
      PublishKeepsInv(q, s, s', heads);
    } else if Device(q, s, s') {
      DeviceKeepsInv(q, s, s');
    } else {
      PrepareKeepsInv(q, s, s');
    }
  }

  /**
   In every run, however long: the `k`-th head consumed is the `k`-th head published, walked
   in the memory of that moment; none is skipped, repeated or invented.
   */
  lemma {:induction false} RunKeepsInv(q: QueueConfig, tr: seq<Sys>, i: nat)
    requires Run(q, tr) && i < |tr|
    ensures Inv(q, tr[i])
  {
    if i > 0 {
      RunKeepsInv(q, tr, i - 1);
      assert Step(q, tr[i - 1], tr[i]);
      StepKeepsInv(q, tr[i - 1], tr[i]);
    }
  }

  /** `pop` says there is nothing exactly when every published head has been taken. */
  lemma NoneIffDrained(q: QueueConfig, tr: seq<Sys>, i: nat)
    requires Run(q, tr) && i < |tr|
    ensures Pop(tr[i].mem, q, tr[i].last).0 == Ok(None) <==> |tr[i].taken| == |tr[i].published|
  {
    RunKeepsInv(q, tr, i);
    PopUnderInv(q, tr[i]);
  }

  // ----- A driver that only publishes well-formed chains -----

  ghost predicate OutstandingWellFormed(q: QueueConfig, s: Sys) {
    forall k :: |s.taken| <= k < |s.published| ==> HasChain(TableOf(s.mem, q), s.published[k])
  }

  predicate AllDelivered(taken: seq<Taken>) {
    forall k :: 0 <= k < |taken| ==> taken[k].answer.Ok? && taken[k].answer.value.Some?
  }

  function DeliveredHeads(taken: seq<Taken>): seq<u16>
    requires AllDelivered(taken)
  {
    seq(|taken|, k requires 0 <= k < |taken| =>
      assert taken[k].answer.Ok?;
      taken[k].answer.value.value.head)
  }

  lemma WellFormedAnswered(m: seq<byte>, q: QueueConfig, head: u16)
    requires HasChain(TableOf(m, q), head)
    ensures WalkFrom(m, q, head).Ok? && WalkFrom(m, q, head).value.Some?
  {
    WalkIffChain(TableOf(m, q), head, q.size);
  }

  lemma StepDelivers(q: QueueConfig, s: Sys, s': Sys)
    requires Inv(q, s) && OutstandingWellFormed(q, s) && Step(q, s, s') && AllDelivered(s.taken)
    ensures AllDelivered(s'.taken)
  {
    if Device(q, s, s') {
      DeviceTakesNext(q, s, s');
      if |s.taken| < |s.published| {
        WellFormedAnswered(s.mem, q, s.published[|s.taken|]);
      }
    }
  }

  lemma {:induction false} AllAnswered(q: QueueConfig, tr: seq<Sys>, i: nat)
    requires Run(q, tr) && i < |tr|
    requires forall j :: 0 <= j < |tr| ==> OutstandingWellFormed(q, tr[j])
    ensures AllDelivered(tr[i].taken)
  {
    if i > 0 {
      var before: nat := i - 1;
      AllAnswered(q, tr, before);
      RunKeepsInv(q, tr, before);
      assert Step(q, tr[before], tr[before + 1]);
      StepDelivers(q, tr[before], tr[i]);
    }
  }

  /** Exactly-once, in-order delivery across any number of 16-bit wraparounds. */
  lemma DeliveredExactly(q: QueueConfig, tr: seq<Sys>, i: nat)
    requires Run(q, tr) && i < |tr|
    requires forall j :: 0 <= j < |tr| ==> OutstandingWellFormed(q, tr[j])
    ensures |tr[i].taken| <= |tr[i].published| && AllDelivered(tr[i].taken)
    ensures DeliveredHeads(tr[i].taken) == tr[i].published[..|tr[i].taken|]
  {
    AllAnswered(q, tr, i);
    RunKeepsInv(q, tr, i);
  }

  // ----- Draining -----

  /** The cursor after `n` pops of an unchanging memory. */
  function CursorAfter(m: seq<byte>, q: QueueConfig, last: u16, n: nat): u16 {
    if n == 0 then last else Pop(m, q, CursorAfter(m, q, last, n - 1)).1
  }

  /** How many heads the driver's index is ahead of the cursor. */
  function Backlog(avail: u16, last: u16): nat {
    (avail - last + TWO16) % TWO16
  }

  predicate RingReadable(m: seq<byte>, q: QueueConfig) {
    && q.ready && q.size > 0
    && AvailIdx(m, q).Ok?
    && forall last: u16 :: RingEntry(m, q, last).Ok?
  }

  /** A ring that lies in RAM can be read at every cursor. */
  lemma RingInRamReadable(m: seq<byte>, q: QueueConfig)
    requires q.ready && 0 < q.size <= TWO16
    requires q.avail + AVAIL_RING_HDR + q.size * 2 <= |m| < TWO64
    ensures RingReadable(m, q)
  {
    forall last: u16
      ensures RingEntry(m, q, last).Ok?
    {
      assert last % q.size * 2 + 2 <= q.size * 2;
    }
  }

  lemma WrappedSteps(avail: u16, last: u16, k: nat)
    requires k <= Backlog(avail, last)
    ensures (last + k) % TWO16 == avail <==> k == Backlog(avail, last)
    ensures ((last + k) % TWO16 + 1) % TWO16 == (last + k + 1) % TWO16
  {
  }

  lemma PopConsumesUnlessDrained(m: seq<byte>, q: QueueConfig, cursor: u16)
    requires RingReadable(m, q)
    ensures Pop(m, q, cursor).0 == Ok(None) <==> cursor == AvailIdx(m, q).value
    ensures Pop(m, q, cursor).1 == if cursor == AvailIdx(m, q).value then cursor else (cursor + 1) % TWO16
  {
    assert RingEntry(m, q, cursor).Ok?;
  }

  /** The cursor of `CursorAfter`, without the memory. */
  function Chase(avail: u16, last: u16, n: nat): u16 {
    if n == 0 then last
    else
      var cursor := Chase(avail, last, n - 1);
      if cursor == avail then cursor else (cursor + 1) % TWO16
  }

  lemma CursorMoves(m: seq<byte>, q: QueueConfig, last: u16, avail: u16, before: nat, n: nat)
    requires RingReadable(m, q) && avail == AvailIdx(m, q).value && n == before + 1
    ensures var cursor := CursorAfter(m, q, last, before);
            CursorAfter(m, q, last, n) == if cursor == avail then cursor else (cursor + 1) % TWO16
  {
    PopConsumesUnlessDrained(m, q, CursorAfter(m, q, last, before));
  }

  lemma {:induction false} CursorChases(m: seq<byte>, q: QueueConfig, last: u16, avail: u16, n: nat)
    requires RingReadable(m, q) && avail == AvailIdx(m, q).value
    ensures CursorAfter(m, q, last, n) == Chase(avail, last, n)
    decreases n
  {
    if n > 0 {
      var before: nat := n - 1;
      CursorChases(m, q, last, avail, before);
      CursorMoves(m, q, last, avail, before, n);
    }
  }

  lemma {:induction false} ChaseAdvances(avail: u16, last: u16, n: nat)
    requires n <= Backlog(avail, last)
    ensures Chase(avail, last, n) == (last + n) % TWO16
    decreases n
  {
    if n > 0 {
      ChaseAdvances(avail, last, n - 1);
      WrappedSteps(avail, last, n - 1);
    }
  }

  /**
   Draining ends: whatever mix of good and malformed chains the table holds, exactly the
   backlog of pops consume something, and the next one says there is nothing.
   */
  lemma DrainTerminates(m: seq<byte>, q: QueueConfig, last: u16)
    requires RingReadable(m, q)
    ensures var n := Backlog(AvailIdx(m, q).value, last);
            && (forall k :: 0 <= k < n ==> Pop(m, q, CursorAfter(m, q, last, k)).0 != Ok(None))
            && Pop(m, q, CursorAfter(m, q, last, n)) == (Ok(None), AvailIdx(m, q).value)
  {
    var avail: u16 := AvailIdx(m, q).value;
    var n := Backlog(avail, last);
    forall k: nat | k <= n
      ensures Pop(m, q, CursorAfter(m, q, last, k)).0 == Ok(None) <==> k == n
      ensures CursorAfter(m, q, last, n) == avail
    {
      ChaseAdvances(avail, last, k);
      WrappedSteps(avail, last, k);
      CursorChases(m, q, last, avail, k);
      PopConsumesUnlessDrained(m, q, Chase(avail, last, k));
      ChaseAdvances(avail, last, n);
      WrappedSteps(avail, last, n);
      CursorChases(m, q, last, avail, n);
    }
    PopConsumesUnlessDrained(m, q, avail);
  }
}
