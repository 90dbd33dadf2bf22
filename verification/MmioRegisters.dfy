/**
 The VirtIO-MMIO register file (VIRTIO 1.2, section 4.2.2), proved against the log of
 everything the driver ever wrote: each register holds what the last relevant write says.
 */
module MmioRegisters {
  import opened Results
  import opened Bytes
  import opened Virtqueue

  const MAGIC_VALUE: u64 := 0x000
  const VERSION: u64 := 0x004
  const DEVICE_ID: u64 := 0x008
  const VENDOR_ID: u64 := 0x00c
  const DEVICE_FEATURES: u64 := 0x010
  const DEVICE_FEATURES_SEL: u64 := 0x014
  const DRIVER_FEATURES: u64 := 0x020
  const DRIVER_FEATURES_SEL: u64 := 0x024
  const QUEUE_SEL: u64 := 0x030
  const QUEUE_NUM_MAX: u64 := 0x034
  const QUEUE_NUM: u64 := 0x038
  const QUEUE_READY: u64 := 0x044
  const QUEUE_NOTIFY: u64 := 0x050
  const INTERRUPT_STATUS: u64 := 0x060
  const INTERRUPT_ACK: u64 := 0x064
  const STATUS: u64 := 0x070
  const QUEUE_DESC_LOW: u64 := 0x080
  const QUEUE_DESC_HIGH: u64 := 0x084
  const QUEUE_AVAIL_LOW: u64 := 0x090
  const QUEUE_AVAIL_HIGH: u64 := 0x094
  const QUEUE_USED_LOW: u64 := 0x0a0
  const QUEUE_USED_HIGH: u64 := 0x0a4
  const CONFIG_GENERATION: u64 := 0x0fc
  const CONFIG_SPACE: u64 := 0x100

  const QUEUE_REGISTERS: set<u64> := {
    QUEUE_NUM, QUEUE_READY, QUEUE_DESC_LOW, QUEUE_DESC_HIGH,
    QUEUE_AVAIL_LOW, QUEUE_AVAIL_HIGH, QUEUE_USED_LOW, QUEUE_USED_HIGH
  }

  const MAGIC: u32 := 0x7472_6976
  const VERSION_2: u32 := 2

  // ----- The driver's log -----

  datatype Write = Write(offset: u64, val: u32)

  function OrZero(v: Option<u32>): u32 {
    match v
    case None => 0
    case Some(x) => x
  }

  /** The last value written to `offset`. */
  function Last(log: seq<Write>, offset: u64): Option<u32> {
    if log == [] then None
    else
      var w := log[|log| - 1];
      if w.offset == offset then Some(w.val) else Last(log[..|log| - 1], offset)
  }

  function Selected(log: seq<Write>): u32 {
    OrZero(Last(log, QUEUE_SEL))
  }

  /** The last value written to `offset` while queue `q` was selected. */
  function LastFor(log: seq<Write>, q: nat, offset: u64): Option<u32> {
    if log == [] then None
    else
      var w, before := log[|log| - 1], log[..|log| - 1];
      if w.offset == offset && Selected(before) == q then Some(w.val) else LastFor(before, q, offset)
  }

  /** The last value written to the driver features while the selector was zero (`low`), or was not. */
  function LastFeatures(log: seq<Write>, low: bool): Option<u32> {
    if log == [] then None
    else
      var w, before := log[|log| - 1], log[..|log| - 1];
      if w.offset == DRIVER_FEATURES && (OrZero(Last(before, DRIVER_FEATURES_SEL)) == 0) == low
      then Some(w.val)
      else LastFeatures(before, low)
  }

  function Combine(high: Option<u32>, low: Option<u32>): u64 {
    OrZero(high) * TWO32 + OrZero(low)
  }

  /** A 64-bit queue register: 2^32 times the last high half, plus the last low half. */
  function QueueAddress(log: seq<Write>, q: nat, low: u64, high: u64): u64 {
    Combine(LastFor(log, q, high), LastFor(log, q, low))
  }

  /** Everything the driver has configured for queue `q`. */
  function Configured(log: seq<Write>, q: nat): QueueConfig {
    QueueConfig(
      OrZero(LastFor(log, q, QUEUE_NUM)),
      OrZero(LastFor(log, q, QUEUE_READY)) != 0,
      QueueAddress(log, q, QUEUE_DESC_LOW, QUEUE_DESC_HIGH),
      QueueAddress(log, q, QUEUE_AVAIL_LOW, QUEUE_AVAIL_HIGH),
      QueueAddress(log, q, QUEUE_USED_LOW, QUEUE_USED_HIGH))
  }

  /** Write `k` went to `offset` while queue `q` was selected. */
  predicate Hits(log: seq<Write>, k: nat, q: nat, offset: u64)
    requires k < |log|
  {
    log[k].offset == offset && Selected(log[..k]) == q
  }

  /** `LastFor` without recursion: the hit no later hit follows. */
  lemma {:induction false} LastHitDecides(log: seq<Write>, q: nat, offset: u64, k: nat)
    requires k < |log| && Hits(log, k, q, offset)
    requires forall j :: k < j < |log| ==> !Hits(log, j, q, offset)
    ensures LastFor(log, q, offset) == Some(log[k].val)
    decreases |log|
  {
    var n := |log| - 1;
    var before := log[..n];
    if k < n {
      assert !Hits(log, n, q, offset);
      assert before[..k] == log[..k];
      forall j | k < j < n
        ensures !Hits(before, j, q, offset)
      {
        assert before[..j] == log[..j];
        assert !Hits(log, j, q, offset);
      }
      LastHitDecides(before, q, offset, k);
    }
  }

  lemma {:induction false} NoHitMeansNone(log: seq<Write>, q: nat, offset: u64)
    requires forall j :: 0 <= j < |log| ==> !Hits(log, j, q, offset)
    ensures LastFor(log, q, offset) == None
    decreases |log|
  {
    if log != [] {
      var n := |log| - 1;
      var before := log[..n];
      assert !Hits(log, n, q, offset);
      forall j | 0 <= j < n
        ensures !Hits(before, j, q, offset)
      {
        assert before[..j] == log[..j];
        assert !Hits(log, j, q, offset);
      }
      NoHitMeansNone(before, q, offset);
    }
  }

  lemma Extend(log: seq<Write>, w: Write)
    ensures forall o :: Last(log + [w], o) == if w.offset == o then Some(w.val) else Last(log, o)
    ensures forall q, o :: LastFor(log + [w], q, o) ==
              if w.offset == o && Selected(log) == q then Some(w.val) else LastFor(log, q, o)
    ensures forall low :: LastFeatures(log + [w], low) ==
              if w.offset == DRIVER_FEATURES && (OrZero(Last(log, DRIVER_FEATURES_SEL)) == 0) == low then Some(w.val)
              else LastFeatures(log, low)
  {
    assert (log + [w])[..|log|] == log;
  }

  // ----- Halves of 64-bit registers -----

  /** `(x & !0xffff_ffff) | val` */
  function SetLow(x: u64, val: u32): u64 {
    x - x % TWO32 + val
  }

  /** `(x & 0xffff_ffff) | (val << 32)` */
  function SetHigh(x: u64, val: u32): u64 {
    x % TWO32 + val * TWO32
  }

  /** A 64-bit register after `val` is written at `offset`, its halves being at `low` and `high`. */
  function Halved(offset: u64, low: u64, high: u64, old64: u64, val: u32): u64 {
    if offset == low then SetLow(old64, val) else if offset == high then SetHigh(old64, val) else old64
  }

  lemma HalvesOfCombine(high: Option<u32>, low: Option<u32>, val: u32)
    ensures SetLow(Combine(high, low), val) == Combine(high, Some(val))
    ensures SetHigh(Combine(high, low), val) == Combine(Some(val), low)
  {
  }

  /** The registers of the selected queue after a write. */
  function Written(c: QueueConfig, offset: u64, val: u32): QueueConfig {
    QueueConfig(
      if offset == QUEUE_NUM then val else c.size,
      if offset == QUEUE_READY then val != 0 else c.ready,
      Halved(offset, QUEUE_DESC_LOW, QUEUE_DESC_HIGH, c.desc, val),
      Halved(offset, QUEUE_AVAIL_LOW, QUEUE_AVAIL_HIGH, c.avail, val),
      Halved(offset, QUEUE_USED_LOW, QUEUE_USED_HIGH, c.used, val))
  }

  lemma AddressAfter(log: seq<Write>, w: Write, q: nat, low: u64, high: u64)
    requires low != high
    ensures QueueAddress(log + [w], q, low, high) ==
            if Selected(log) == q then Halved(w.offset, low, high, QueueAddress(log, q, low, high), w.val)
            else QueueAddress(log, q, low, high)
  {
    Extend(log, w);
    HalvesOfCombine(LastFor(log, q, high), LastFor(log, q, low), w.val);
  }

  /** One write changes exactly the selected queue, and it exactly as the register map says. */
  lemma ConfiguredAfter(log: seq<Write>, w: Write, q: nat)
    ensures Configured(log + [w], q) ==
            if Selected(log) == q then Written(Configured(log, q), w.offset, w.val) else Configured(log, q)
  {
    Extend(log, w);
    AddressAfter(log, w, q, QUEUE_DESC_LOW, QUEUE_DESC_HIGH);
    AddressAfter(log, w, q, QUEUE_AVAIL_LOW, QUEUE_AVAIL_HIGH);
    AddressAfter(log, w, q, QUEUE_USED_LOW, QUEUE_USED_HIGH);
  }

  // ----- Programming a queue -----

  /** Writes that select nothing, applied one after the other to the selected queue. */
  function WrittenAll(c: QueueConfig, ws: seq<Write>): QueueConfig
    decreases |ws|
  {
    if ws == [] then c else WrittenAll(Written(c, ws[0].offset, ws[0].val), ws[1..])
  }

  lemma {:induction false} ConfiguredAfterAll(log: seq<Write>, ws: seq<Write>, q: nat)
    requires forall i :: 0 <= i < |ws| ==> ws[i].offset != QUEUE_SEL
    ensures Selected(log + ws) == Selected(log)
    ensures Configured(log + ws, q) ==
            if Selected(log) == q then WrittenAll(Configured(log, q), ws) else Configured(log, q)
    decreases |ws|
  {
    if ws == [] {
      assert log + ws == log;
    } else {
      var w, rest := ws[0], ws[1..];
      assert ws[0].offset != QUEUE_SEL;
      assert log + ws == (log + [w]) + rest;
      Extend(log, w);
      ConfiguredAfter(log, w, q);
      ConfiguredAfterAll(log + [w], rest, q);
    }
  }

  /**
   The writes with which a driver programs the selected queue, at the offsets of the standard
   (table 4.1): each address as a low and a high half, readiness last.
   */
  function Program(c: QueueConfig): seq<Write> {
    [Write(0x038, c.size),
     Write(0x080, c.desc % 0x1_0000_0000), Write(0x084, c.desc / 0x1_0000_0000),
     Write(0x090, c.avail % 0x1_0000_0000), Write(0x094, c.avail / 0x1_0000_0000),
     Write(0x0a0, c.used % 0x1_0000_0000), Write(0x0a4, c.used / 0x1_0000_0000),
     Write(0x044, if c.ready then 1 else 0)]
  }

  lemma BothHalves(x: u64, old64: u64)
    ensures SetHigh(SetLow(old64, x % TWO32), x / TWO32) == x
  {
  }

  lemma ProgramOverwrites(c: QueueConfig, was: QueueConfig)
    ensures WrittenAll(was, Program(c)) == c
  {
    var ws := Program(c);
    BothHalves(c.desc, was.desc);
    BothHalves(c.avail, was.avail);
    BothHalves(c.used, was.used);
    var c1 := was.(size := c.size);
    var c3 := c1.(desc := c.desc);
    var c5 := c3.(avail := c.avail);
    var c7 := c5.(used := c.used);
    assert WrittenAll(was, ws) == WrittenAll(c1, ws[1..]);
    assert ws[1..][1..] == ws[2..] && ws[2..][1..] == ws[3..];
    assert WrittenAll(c1, ws[1..]) == WrittenAll(c3, ws[3..]);
    assert ws[3..][1..] == ws[4..] && ws[4..][1..] == ws[5..];
    assert WrittenAll(c3, ws[3..]) == WrittenAll(c5, ws[5..]);
    assert ws[5..][1..] == ws[6..] && ws[6..][1..] == ws[7..];
    assert WrittenAll(c5, ws[5..]) == WrittenAll(c7, ws[7..]);
    assert ws[7..][1..] == [];
    assert WrittenAll(c7, ws[7..]) == Written(c7, QUEUE_READY, ws[7].val) == c;
  }

  /**
   Selecting a queue and programming it gives it exactly that configuration, whatever came
   before, and no other queue notices.
   */
  lemma ProgrammingSticks(log: seq<Write>, q: u32, c: QueueConfig, other: nat)
    ensures Configured(log + [Write(0x030, q)] + Program(c), q) == c
    ensures other != q ==> Configured(log + [Write(0x030, q)] + Program(c), other) == Configured(log, other)
  {
    var sel := Write(QUEUE_SEL, q);
    Extend(log, sel);
    ConfiguredAfter(log, sel, q);
    ConfiguredAfter(log, sel, other);
    ConfiguredAfterAll(log + [sel], Program(c), q);
    ConfiguredAfterAll(log + [sel], Program(c), other);
    ProgramOverwrites(c, Configured(log + [sel], q));
  }

  // ----- The device's own registers -----

  /** `x & !y`, bit by bit. */
  function AndNot(x: nat, y: nat): (r: nat)
    ensures r <= x
  {
    if x == 0 then 0 else 2 * AndNot(x / 2, y / 2) + if x % 2 == 1 && y % 2 == 0 then 1 else 0
  }

  function Bit(x: nat, k: nat): nat
    decreases k
  {
    if k == 0 then x % 2 else Bit(x / 2, k - 1)
  }

  /** A bit survives exactly when it is not acknowledged. */
  lemma {:induction false} AndNotBits(x: nat, y: nat, k: nat)
    ensures Bit(AndNot(x, y), k) == 1 <==> Bit(x, k) == 1 && Bit(y, k) == 0
    decreases k
  {
    if k > 0 {
      AndNotBits(x / 2, y / 2, k - 1);
      assert AndNot(x, y) / 2 == AndNot(x / 2, y / 2);
    }
  }

  /** The registers of the device itself. */
  datatype DeviceRegs = DeviceRegs(
    deviceFeaturesSel: u32,
    driverFeaturesSel: u32,
    driverFeatures: u64,
    queueSel: u32,
    status: u32,
    interruptStatus: u32,
    configGeneration: u32)

  /** What the log says they hold; nothing raises an interrupt or changes the configuration. */
  function DeviceConfigured(log: seq<Write>): DeviceRegs {
    DeviceRegs(
      OrZero(Last(log, DEVICE_FEATURES_SEL)),
      OrZero(Last(log, DRIVER_FEATURES_SEL)),
      Combine(LastFeatures(log, false), LastFeatures(log, true)),
      Selected(log),
      OrZero(Last(log, STATUS)),
      0,
      0)
  }

  function DeviceWritten(d: DeviceRegs, offset: u64, val: u32): DeviceRegs {
    if offset == DEVICE_FEATURES_SEL then d.(deviceFeaturesSel := val)
    else if offset == DRIVER_FEATURES_SEL then d.(driverFeaturesSel := val)
    else if offset == DRIVER_FEATURES then
      d.(driverFeatures :=
         if d.driverFeaturesSel == 0 then SetLow(d.driverFeatures, val) else SetHigh(d.driverFeatures, val))
    else if offset == QUEUE_SEL then d.(queueSel := val)
    else if offset == INTERRUPT_ACK then d.(interruptStatus := AndNot(d.interruptStatus, val))
    else if offset == STATUS then d.(status := val)
    else d
  }

  lemma FeaturesAfter(log: seq<Write>, w: Write)
    ensures var features := Combine(LastFeatures(log, false), LastFeatures(log, true));
            Combine(LastFeatures(log + [w], false), LastFeatures(log + [w], true)) ==
            if w.offset != DRIVER_FEATURES then features
            else if OrZero(Last(log, DRIVER_FEATURES_SEL)) == 0 then SetLow(features, w.val)
            else SetHigh(features, w.val)
  {
    Extend(log, w);
    HalvesOfCombine(LastFeatures(log, false), LastFeatures(log, true), w.val);
  }

  /** One write changes the device's own registers exactly as the register map says. */
  lemma DeviceConfiguredAfter(log: seq<Write>, w: Write)
    ensures DeviceConfigured(log + [w]) == DeviceWritten(DeviceConfigured(log), w.offset, w.val)
  {
    Extend(log, w);
    FeaturesAfter(log, w);
  }

  /** The writes with which a driver accepts features, half by half; any selector but zero is the high half. */
  function Accept(sel: u32, features: u64): seq<Write> {
    [Write(0x024, 0), Write(0x020, features % 0x1_0000_0000),
     Write(0x024, sel), Write(0x020, features / 0x1_0000_0000)]
  }

  lemma FeaturesAccepted(log: seq<Write>, sel: u32, features: u64)
    requires sel > 0
    ensures DeviceConfigured(log + Accept(sel, features)).driverFeatures == features
  {
    var ws := Accept(sel, features);
    var log1 := log + [ws[0]];
    var log2 := log1 + [ws[1]];
    var log3 := log2 + [ws[2]];
    assert log + ws == log3 + [ws[3]];
    DeviceConfiguredAfter(log, ws[0]);
    DeviceConfiguredAfter(log1, ws[1]);
    DeviceConfiguredAfter(log2, ws[2]);
    DeviceConfiguredAfter(log3, ws[3]);
    BothHalves(features, DeviceConfigured(log).driverFeatures);
  }

  class VirtioMmio {
    const deviceId: u32
    const vendorId: u32
    const deviceFeatures: u64
    const queues: seq<VirtQueue>
    var config: seq<byte>

    var deviceFeaturesSel: u32
    var driverFeaturesSel: u32
    var driverFeatures: u64
    var queueSel: u32
    var status: u32
    var interruptStatus: u32
    var configGeneration: u32

    ghost var log: seq<Write>

    function Registers(): DeviceRegs
      reads this
    {
      DeviceRegs(deviceFeaturesSel, driverFeaturesSel, driverFeatures, queueSel,
                 status, interruptStatus, configGeneration)
    }

    /** The registers are a function of the log. */
    ghost predicate Valid()
      reads this, queues
    {
      && (forall i, j :: 0 <= i < j < |queues| ==> queues[i] != queues[j])
      && Registers() == DeviceConfigured(log)
      && forall i :: 0 <= i < |queues| ==> queues[i].Config() == Configured(log, i)
    }

    constructor (deviceId: u32, vendorId: u32, deviceFeatures: u64, queueSizes: seq<u32>)
      ensures Valid() && log == [] && config == []
      ensures this.deviceId == deviceId && this.vendorId == vendorId && this.deviceFeatures == deviceFeatures
      ensures |queues| == |queueSizes| && fresh(queues)
      ensures forall i :: 0 <= i < |queues| ==> queues[i].sizeMax == queueSizes[i] && queues[i].lastAvailIdx == 0
    {
      var qs: seq<VirtQueue> := [];
      for i := 0 to |queueSizes|
        invariant |qs| == i && fresh(qs)
        invariant forall j :: 0 <= j < i ==>
                    qs[j].sizeMax == queueSizes[j] && qs[j].Config() == QueueConfig(0, false, 0, 0, 0)
        invariant forall j :: 0 <= j < i ==> qs[j].lastAvailIdx == 0
        invariant forall j, k :: 0 <= j < k < i ==> qs[j] != qs[k]
      {
        var q := new VirtQueue(queueSizes[i]);
        qs := qs + [q];
      }
      this.deviceId, this.vendorId, this.deviceFeatures := deviceId, vendorId, deviceFeatures;
      queues, config, log := qs, [], [];
      deviceFeaturesSel, driverFeaturesSel, driverFeatures, queueSel, status := 0, 0, 0, 0, 0;
      interruptStatus, configGeneration := 0, 0;
    }

    /** A 32-bit read, in terms of the registers; `ReadsBack` says what it means for the driver. */
    function Read32(offset: u64): u32
      reads this, queues
    {
      if offset == MAGIC_VALUE then MAGIC
      else if offset == VERSION then VERSION_2
      else if offset == DEVICE_ID then deviceId
      else if offset == VENDOR_ID then vendorId
      else if offset == DEVICE_FEATURES then
        if deviceFeaturesSel == 0 then deviceFeatures % TWO32
        else if deviceFeaturesSel == 1 then deviceFeatures / TWO32
        else 0
      else if offset == QUEUE_NUM_MAX then if queueSel < |queues| then queues[queueSel].sizeMax else 0
      else if offset == QUEUE_READY then if queueSel < |queues| && queues[queueSel].ready then 1 else 0
      else if offset == INTERRUPT_STATUS then interruptStatus
      else if offset == STATUS then status
      else if offset == CONFIG_GENERATION then configGeneration
      else if offset >= CONFIG_SPACE then ReadConfig(offset - CONFIG_SPACE)
      else 0
    }

    function ReadConfig(off: u64): u32
      reads this
    {
      WordWidths();
      if off + 4 > |config| then 0 else WordAt(config, off, 4)
    }

    /** What the driver reads, at the offsets of the standard, is what its own log says it should. */
    lemma ReadsBack()
      requires Valid()
      // "virt", and the version of the standard's register layout.
      ensures Read32(0x000) == 0x74 * 0x100_0000 + 0x72 * 0x1_0000 + 0x69 * 0x100 + 0x76 && Read32(0x004) == 2
      ensures Read32(0x008) == deviceId && Read32(0x00c) == vendorId
      // Device features, half by half.
      ensures Last(log, 0x014) == Some(1) ==> Read32(0x010) == deviceFeatures / 0x1_0000_0000
      ensures OrZero(Last(log, 0x014)) == 0 ==> Read32(0x010) == deviceFeatures % 0x1_0000_0000
      ensures OrZero(Last(log, 0x014)) > 1 ==> Read32(0x010) == 0
      // The selected queue.
      ensures var sel := OrZero(Last(log, 0x030));
              && Read32(0x034) == (if sel < |queues| then queues[sel].sizeMax else 0)
              && Read32(0x044) in {0, 1}
              && (Read32(0x044) == 1 <==> sel < |queues| && OrZero(LastFor(log, sel, 0x044)) != 0)
      // Interrupt status, device status, configuration generation.
      ensures Read32(0x060) == 0 && Read32(0x070) == OrZero(Last(log, 0x070)) && Read32(0x0fc) == 0
      ensures forall o: u64 :: o >= 0x100 ==>
                Read32(o) == if o - 0x100 + 4 <= |config| then WordAt(config, o - 0x100, 4) else 0
      ensures forall o: u64 ::
                o < 0x100 && o !in {0x000, 0x004, 0x008, 0x00c, 0x010, 0x034, 0x044, 0x060, 0x070, 0x0fc} ==>
                  Read32(o) == 0
    {
      if Selected(log) < |queues| {
        assert queues[queueSel].Config() == Configured(log, queueSel);
      }
    }

    ghost function SelectedQueue(): set<VirtQueue>
      reads this
    {
      if queueSel < |queues| then {queues[queueSel]} else {}
    }

    /** A write to a register of the selected queue; an out-of-range selection has none. */
    method MutateSelectedQueue(offset: u64, val: u32)
      modifies SelectedQueue()
      ensures queueSel < |queues| ==> queues[queueSel].Config() == Written(old(queues[queueSel].Config()), offset, val)
      ensures queueSel < |queues| ==> queues[queueSel].lastAvailIdx == old(queues[queueSel].lastAvailIdx)
    {
      if queueSel >= |queues| {
        return;
      }
      var q := queues[queueSel];
      if offset == QUEUE_NUM {
        q.size := val;
      } else if offset == QUEUE_READY {
        q.ready := val != 0;
      } else if offset == QUEUE_DESC_LOW {
        q.descAddr := SetLow(q.descAddr, val);
      } else if offset == QUEUE_DESC_HIGH {
        q.descAddr := SetHigh(q.descAddr, val);
      } else if offset == QUEUE_AVAIL_LOW {
        q.availAddr := SetLow(q.availAddr, val);
      } else if offset == QUEUE_AVAIL_HIGH {
        q.availAddr := SetHigh(q.availAddr, val);
      } else if offset == QUEUE_USED_LOW {
        q.usedAddr := SetLow(q.usedAddr, val);
      } else if offset == QUEUE_USED_HIGH {
        q.usedAddr := SetHigh(q.usedAddr, val);
      }
    }

    /** A write to a register of the device itself. */
    method WriteDevice(offset: u64, val: u32)
      modifies this
      ensures Registers() == DeviceWritten(old(Registers()), offset, val)
      ensures log == old(log) && config == old(config)
    {
      if offset == DEVICE_FEATURES_SEL {
        deviceFeaturesSel := val;
      } else if offset == DRIVER_FEATURES_SEL {
        driverFeaturesSel := val;
      } else if offset == DRIVER_FEATURES {
        driverFeatures := if driverFeaturesSel == 0 then SetLow(driverFeatures, val) else SetHigh(driverFeatures, val);
      } else if offset == QUEUE_SEL {
        queueSel := val;
      } else if offset == INTERRUPT_ACK {
        interruptStatus := AndNot(interruptStatus, val);
      } else if offset == STATUS {
        status := val;
      }
    }

    /** A 32-bit write; answers the queue index when it is a notification. */
    method Write32(offset: u64, val: u32) returns (notify: Option<u32>)
      requires Valid()
      modifies this, queues
      ensures Valid() && log == old(log) + [Write(offset, val)]
      ensures notify == if offset == 0x050 then Some(val) else None
      ensures config == old(config)
      ensures forall q :: q in queues ==> q.lastAvailIdx == old(q.lastAvailIdx)
    {
      ghost var w, before := Write(offset, val), log;
      if offset in QUEUE_REGISTERS {
        MutateSelectedQueue(offset, val);
      } else {
        WriteDevice(offset, val);
      }
      log := log + [w];
      DeviceConfiguredAfter(before, w);
      forall i | 0 <= i < |queues|
        ensures queues[i].Config() == Configured(log, i)
      {
        ConfiguredAfter(before, w, i);
        assert old(queues[i].Config()) == Configured(before, i);
      }
      notify := if offset == QUEUE_NOTIFY then Some(val) else None;
    }
  }
}
