/**
 Records as drivers and image tools lay them out, and what the readers in the
 other modules make of them: every reader inverts the layout it reads.
 */
module Layouts {
  import opened Results
  import opened Arithmetic
  import opened Bytes
  import opened DescriptorChains
  import opened Virtqueue
  import opened Storage
  import MmioRegisters
  import Vhd

  // ----- Records of little-endian fields -----

  datatype Field = Field(value: nat, width: nat) {
    predicate Fits() { value < Pow256(width) }
  }

  type Record = seq<Field>

  function Encode(r: Record): seq<byte> {
    if r == [] then [] else Encode(r[..|r| - 1]) + ToLE(r[|r| - 1].value, r[|r| - 1].width)
  }

  /** Where field `k` starts: after the fields before it. */
  function OffsetOf(r: Record, k: nat): nat
    requires k <= |r|
  {
    if k == 0 then 0 else OffsetOf(r, k - 1) + r[k - 1].width
  }

  /** `m` holds the record at `a`. */
  predicate Stored(m: seq<byte>, a: nat, r: Record) {
    a + |Encode(r)| <= |m| && m[a..a + |Encode(r)|] == Encode(r)
  }

  lemma {:induction false} EncodedLength(r: Record)
    ensures |Encode(r)| == OffsetOf(r, |r|)
  {
    if r != [] {
      EncodedLength(r[..|r| - 1]);
      OffsetsOfPrefix(r, |r| - 1, |r| - 1);
    }
  }

  lemma {:induction false} OffsetsOfPrefix(r: Record, n: nat, k: nat)
    requires k <= n <= |r|
    ensures OffsetOf(r[..n], k) == OffsetOf(r, k)
    decreases k
  {
    if k > 0 {
      OffsetsOfPrefix(r, n, k - 1);
    }
  }

  /** A slice that is two sequences is one and then the other. */
  lemma SplitSlice(m: seq<byte>, a: nat, x: seq<byte>, y: seq<byte>)
    requires a + |x + y| <= |m| && m[a..a + |x + y|] == x + y
    ensures m[a..a + |x|] == x && m[a + |x|..a + |x| + |y|] == y
  {
    var held := m[a..a + |x + y|];
    var head, tail := m[a..a + |x|], m[a + |x|..a + |x| + |y|];
    forall i | 0 <= i < |x|
      ensures head[i] == x[i]
    {
      assert held[i] == (x + y)[i];
    }
    forall i | 0 <= i < |y|
      ensures tail[i] == y[i]
    {
      assert held[|x| + i] == (x + y)[|x| + i];
    }
  }

  lemma StoredPrefix(m: seq<byte>, a: nat, r: Record)
    requires r != [] && Stored(m, a, r)
    ensures Stored(m, a, r[..|r| - 1])
    ensures var front, last := Encode(r[..|r| - 1]), r[|r| - 1];
            a + |front| + last.width <= |m| && m[a + |front|..a + |front| + last.width] == ToLE(last.value, last.width)
  {
    var last := r[|r| - 1];
    SplitSlice(m, a, Encode(r[..|r| - 1]), ToLE(last.value, last.width));
  }

  /** Every field of a stored record reads back at its offset. */
  lemma {:induction false} FieldReads(m: seq<byte>, a: nat, r: Record, k: nat)
    requires Stored(m, a, r) && k < |r| && r[k].Fits()
    ensures a + OffsetOf(r, k) + r[k].width <= |m|
    ensures WordAt(m, a + OffsetOf(r, k), r[k].width) == r[k].value
    decreases |r|
  {
    var n := |r| - 1;
    StoredPrefix(m, a, r);
    OffsetsOfPrefix(r, n, k);
    if k < n {
      FieldReads(m, a, r[..n], k);
    } else {
      EncodedLength(r[..n]);
      DecodeEncode(r[k].value, r[k].width);
    }
  }

  // ----- VIRTIO 1.2, sections 2.7.5 and 2.7.6 -----

  /** `struct virtq_desc` */
  function DescriptorRecord(d: Descriptor): Record {
    [Field(d.addr, 8), Field(d.len, 4), Field(d.flags, 2), Field(d.next, 2)]
  }

  /** Entry `idx` of a table of 16-byte descriptors holds `d`. */
  predicate InEntry(m: seq<byte>, desc: u64, idx: nat, d: Descriptor) {
    Stored(m, desc + idx * 16, DescriptorRecord(d))
  }

  /** A descriptor the driver stores in entry `idx` is the one the device reads. */
  lemma DescriptorReads(m: seq<byte>, desc: u64, idx: u16, d: Descriptor)
    requires |m| < TWO64 && InEntry(m, desc, idx, d)
    ensures DescriptorAt(m, desc, idx) == Ok(d)
  {
    WordWidths();
    var base, r := desc + idx * DESC_SIZE, DescriptorRecord(d);
    assert OffsetOf(r, 1) == 8;
    assert OffsetOf(r, 2) == 12;
    assert OffsetOf(r, 3) == 14;
    FieldReads(m, base, r, 0);
    FieldReads(m, base, r, 1);
    FieldReads(m, base, r, 2);
    FieldReads(m, base, r, 3);
  }

  /** The flags of a descriptor, VIRTQ_DESC_F_NEXT, F_WRITE and F_INDIRECT, below bits the standard reserves. */
  function Flags(next: bool, write: bool, indirect: bool, reserved: nat): nat {
    (if next then 1 else 0) + (if write then 2 else 0) + (if indirect then 4 else 0) + 8 * reserved
  }

  /** The device follows NEXT, and no other flag makes a difference. */
  lemma NextIsFlagOne(d: Descriptor, next: bool, write: bool, indirect: bool, reserved: nat)
    requires d.flags == Flags(next, write, indirect, reserved)
    ensures d.HasNext() <==> next
  {
    var bit := if next then 1 else 0;
    var others := (if write then 1 else 0) + (if indirect then 2 else 0) + 4 * reserved;
    assert d.flags == others * 2 + bit;
    DivModUnique(d.flags, others, bit, 2);
  }

  /** `struct virtq_avail`, without the optional event word. */
  function AvailRecord(flags: u16, idx: u16, ring: seq<u16>): Record {
    [Field(flags, 2), Field(idx, 2)] + seq(|ring|, i requires 0 <= i < |ring| => Field(ring[i], 2))
  }

  lemma {:induction false} AvailOffset(flags: u16, idx: u16, ring: seq<u16>, k: nat)
    requires k <= |ring| + 2
    ensures OffsetOf(AvailRecord(flags, idx, ring), k) == 2 * k
    decreases k
  {
    if k > 0 {
      AvailOffset(flags, idx, ring, k - 1);
    }
  }

  /** The device reads the index the driver stored, and at cursor `last` the head in slot `last mod size`. */
  lemma AvailReads(m: seq<byte>, q: QueueConfig, flags: u16, idx: u16, ring: seq<u16>, last: u16)
    requires |m| < TWO64 && q.size > 0 && |ring| == q.size
    requires Stored(m, q.avail, AvailRecord(flags, idx, ring))
    ensures AvailIdx(m, q) == Ok(idx)
    ensures RingEntry(m, q, last) == Ok(ring[last % q.size])
  {
    WordWidths();
    var r := AvailRecord(flags, idx, ring);
    var slot: nat := last % q.size;
    var k: nat := slot + 2;
    AvailOffset(flags, idx, ring, 1);
    FieldReads(m, q.avail, r, 1);
    AvailOffset(flags, idx, ring, k);
    FieldReads(m, q.avail, r, k);
  }

  // ----- A driver's request, from its register writes to the device's answer -----

  /**
   A request as the driver builds it: descriptor `ds[k]` for table entry `at[k]`, each but the
   last linked to the next.
   */
  predicate IsRequest(size: nat, at: seq<u16>, ds: seq<Descriptor>) {
    && 0 < |at| == |ds|
    && (forall k :: 0 <= k < |at| ==> at[k] < size)
    && (forall k :: 0 <= k < |ds| - 1 ==> ds[k].HasNext() && ds[k].next == at[k + 1])
    && !ds[|ds| - 1].HasNext()
  }

  /** The descriptors of the request are stored in the table. */
  predicate InTable(m: seq<byte>, desc: u64, at: seq<u16>, ds: seq<Descriptor>)
    requires |at| == |ds|
  {
    forall k :: 0 <= k < |at| ==> InEntry(m, desc, at[k], ds[k])
  }

  /** The table that holds a request, entry by entry. */
  predicate Holds(t: Table, at: seq<u16>, ds: seq<Descriptor>)
    requires |at| == |ds|
  {
    forall k :: 0 <= k < |at| ==> at[k] < |t| && t[at[k]] == Ok(ds[k])
  }

  lemma StoredIsHeld(m: seq<byte>, q: QueueConfig, at: seq<u16>, ds: seq<Descriptor>)
    requires |m| < TWO64 && IsRequest(q.size, at, ds) && InTable(m, q.desc, at, ds)
    ensures Holds(TableOf(m, q), at, ds)
  {
    forall k | 0 <= k < |at|
      ensures at[k] < |TableOf(m, q)| && TableOf(m, q)[at[k]] == Ok(ds[k])
    {
      assert InEntry(m, q.desc, at[k], ds[k]);
      DescriptorReads(m, q.desc, at[k], ds[k]);
      TableEntry(m, q, at[k]);
    }
  }

  /** A held request is a chain, and its descriptors are the request's. */
  lemma {:induction false} RequestIsChain(t: Table, size: nat, at: seq<u16>, ds: seq<Descriptor>)
    requires IsRequest(size, at, ds) && Holds(t, at, ds)
    ensures IsChain(t, at[0], at[..|at| - 1], at[|at| - 1])
    decreases |at|
  {
    assert Holds(t, at, ds) && t[at[0]] == Ok(ds[0]);
    if |at| > 1 {
      var at', ds' := at[1..], ds[1..];
      assert IsRequest(size, at', ds');
      assert Holds(t, at', ds');
      RequestIsChain(t, size, at', ds');
      assert at[..|at| - 1][1..] == at'[..|at'| - 1];
    }
  }

  lemma RequestDescriptors(t: Table, at: seq<u16>, ds: seq<Descriptor>)
    requires |at| == |ds| && Holds(t, at, ds)
    ensures forall k :: 0 <= k < |at| ==> Readable(t, at[k])
    ensures Descriptors(t, at) == ds
  {
  }

  lemma HeldRequestPops(m: seq<byte>, q: QueueConfig, last: u16, at: seq<u16>, ds: seq<Descriptor>)
    requires IsRequest(q.size, at, ds) && Holds(TableOf(m, q), at, ds) && Pending(m, q, last) == Ok(Some(at[0]))
    ensures Pop(m, q, last) == (Ok(Some(Chain(at[0], ds))), (last + 1) % TWO16)
  {
    var t, path, end := TableOf(m, q), at[..|at| - 1], at[|at| - 1];
    RequestIsChain(t, q.size, at, ds);
    assert path + [end] == at;
    WalkFindsChain(t, at[0], path, end, q.size);
    RequestDescriptors(t, at, ds);
  }

  lemma PublishedIsPending(m: seq<byte>, q: QueueConfig, flags: u16, idx: u16, ring: seq<u16>, last: u16)
    requires |m| < TWO64 && q.ready && q.size > 0 && |ring| == q.size && idx != last
    requires Stored(m, q.avail, AvailRecord(flags, idx, ring))
    ensures Pending(m, q, last) == Ok(Some(ring[last % q.size]))
  {
    AvailReads(m, q, flags, idx, ring, last);
  }

  /** A pop of a stored and published request answers exactly the driver's descriptors. */
  lemma StoredRequestPops(m: seq<byte>, q: QueueConfig, flags: u16, idx: u16, ring: seq<u16>, last: u16,
                          at: seq<u16>, ds: seq<Descriptor>)
    requires |m| < TWO64 && q.ready && q.size > 0 && |ring| == q.size && idx != last
    requires Stored(m, q.avail, AvailRecord(flags, idx, ring))
    requires IsRequest(q.size, at, ds) && InTable(m, q.desc, at, ds) && ring[last % q.size] == at[0]
    ensures Pop(m, q, last) == (Ok(Some(Chain(at[0], ds))), (last + 1) % TWO16)
  {
    StoredIsHeld(m, q, at, ds);
    PublishedIsPending(m, q, flags, idx, ring, last);
    HeldRequestPops(m, q, last, at, ds);
  }

  /**
   End to end: whatever the driver wrote before, once it has selected and programmed a queue,
   stored a request where it said its table is and published it where it said its ring is,
   the device pops that request and nothing else.
   */
  lemma ProgrammedQueueDelivers(log: seq<MmioRegisters.Write>, queue: u32, c: QueueConfig, m: seq<byte>,
                                flags: u16, idx: u16, ring: seq<u16>, last: u16, at: seq<u16>, ds: seq<Descriptor>)
    requires |m| < TWO64 && c.ready && c.size > 0 && |ring| == c.size && idx != last
    requires Stored(m, c.avail, AvailRecord(flags, idx, ring))
    requires IsRequest(c.size, at, ds) && InTable(m, c.desc, at, ds) && ring[last % c.size] == at[0]
    ensures var programmed := log + [MmioRegisters.Write(0x030, queue)] + MmioRegisters.Program(c);
            Pop(m, MmioRegisters.Configured(programmed, queue), last) ==
            (Ok(Some(Chain(at[0], ds))), (last + 1) % TWO16)
  {
    MmioRegisters.ProgrammingSticks(log, queue, c, queue);
    StoredRequestPops(m, c, flags, idx, ring, last, at, ds);
  }

  // ----- VHD footers -----

  /** The bytes of ASCII text. */
  function Ascii(text: string): seq<byte>
    requires forall i :: 0 <= i < |text| ==> text[i] as int < 128
  {
    seq(|text|, i requires 0 <= i < |text| => text[i] as int)
  }

  /** An image with any footer; `gaps` fills the fields that neither detection nor the backend looks at. */
  function Image(payload: seq<byte>, cookie: seq<byte>, size: nat, diskType: nat, gaps: Gaps): seq<byte> {
    payload + (cookie + gaps.first + ToBE(size, 8) + gaps.second + ToBE(diskType, 4) + gaps.third)
  }

  datatype Gaps = Gaps(first: seq<byte>, second: seq<byte>, third: seq<byte>) {
    predicate Full() { |first| == 32 && |second| == 12 && |third| == 448 }
  }

  lemma FooterReads(payload: seq<byte>, cookie: seq<byte>, size: u64, diskType: u32, gaps: Gaps)
    requires |cookie| == 8 && gaps.Full()
    ensures var f := Image(payload, cookie, size, diskType, gaps);
            && |f| == |payload| + 512 && Footer(f)[..8] == cookie
            && DiskType(f) == diskType && Vhd.OriginalSize(f) == size
  {
    WordWidths();
    var f := Image(payload, cookie, size, diskType, gaps);
    var footer := cookie + gaps.first + ToBE(size, 8) + gaps.second + ToBE(diskType, 4) + gaps.third;
    assert Footer(f) == footer;
    assert footer[..8] == cookie;
    assert footer[40..48] == ToBE(size, 8) && footer[60..64] == ToBE(diskType, 4);
    DecodeEncodeBE(size, 8);
    DecodeEncodeBE(diskType, 4);
  }

  lemma CookieIsAscii()
    ensures VHD_FOOTER_COOKIE == Ascii("conectix") && VHDX_HEAD_MAGIC == Ascii("vhdxfile")
  {
  }

  /**
   What opening answers for any footer: only type 2 opens, with a size in sectors that the
   payload holds or that wraps.
   */
  lemma FooterDecidesOpen(payload: seq<byte>, cookie: seq<byte>, size: u64, diskType: u32, gaps: Gaps)
    requires |cookie| == 8 && gaps.Full()
    ensures Vhd.Open(Image(payload, cookie, size, diskType, gaps)) ==
            if cookie != Ascii("conectix") then Err(Vhd.MissingCookie)
            else if diskType == 3 then Err(Vhd.Dynamic)
            else if diskType == 4 then Err(Vhd.Differencing)
            else if diskType != 2 then Err(Vhd.UnsupportedType(diskType))
            else if size == 0 then Err(Vhd.ZeroSize)
            else if |payload| < size < 0xffff_ffff_ffff_fe00 then Err(Vhd.SizeBeyondFile)
            else if size % 512 != 0 then Err(Vhd.UnalignedSize)
            else Ok(size / 512)
  {
    FooterReads(payload, cookie, size, diskType, gaps);
    CookieIsAscii();
  }

  /** What detection answers for any footer, by the extension or by the bytes. */
  lemma FooterDecidesFormat(payload: seq<byte>, cookie: seq<byte>, size: u64, diskType: u32, gaps: Gaps)
    requires |cookie| == 8 && gaps.Full()
    ensures var f := Image(payload, cookie, size, diskType, gaps);
            var byType := if diskType == 2 then Ok(VhdFixed)
                          else if diskType == 3 || diskType == 4 then Ok(VhdDynamic)
                          else Err(UnsupportedDiskType(diskType));
            && DetectFormat(Some("vhd"), f) == (if cookie == Ascii("conectix") then byType else Err(NoCookie))
            && DetectByBytes(f) == if f[..8] == Ascii("vhdxfile") then Ok(Vhdx)
                                   else if cookie == Ascii("conectix") then byType
                                   else Ok(Raw)
  {
    FooterReads(payload, cookie, size, diskType, gaps);
    CookieIsAscii();
    ExtensionDecides("vhd", Image(payload, cookie, size, diskType, gaps));
  }

  /** A file too short for a footer. */
  lemma NoFooterNoDisk(f: seq<byte>)
    requires |f| < 512
    ensures Vhd.Open(f) == Err(Vhd.NoFooter) && DetectFormat(Some("vhd"), f) == Err(TooSmall)
    ensures DetectByBytes(f) == if |f| >= 8 && f[..8] == Ascii("vhdxfile") then Ok(Vhdx) else Ok(Raw)
  {
    CookieIsAscii();
    ExtensionDecides("vhd", f);
  }

  /** Every whole-sector payload with a fixed footer of its size opens, as exactly its sectors. */
  lemma FixedVhdOpens(payload: seq<byte>, gaps: Gaps)
    requires gaps.Full() && |payload| > 0 && |payload| % 512 == 0 && |payload| + 512 <= MAX_FILE
    ensures var f, n := Image(payload, Ascii("conectix"), |payload|, 2, gaps), |payload| / 512;
            && Vhd.Open(f) == Ok(n)
            && Vhd.Fits(f, n)
            && forall i :: 0 <= i < n ==> Vhd.Sectors(f, n)[i] == payload[i * 512..i * 512 + 512]
  {
    var f := Image(payload, Ascii("conectix"), |payload|, 2, gaps);
    FooterReads(payload, Ascii("conectix"), |payload|, 2, gaps);
    FooterDecidesOpen(payload, Ascii("conectix"), |payload|, 2, gaps);
    assert f[..|payload|] == payload;
  }
}
