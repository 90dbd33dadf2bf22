/**
 What a booting kernel finds, in the addresses and numbers of the Linux x86 boot protocol and
 of the processor, with nothing taken from the code that wrote it.
 */
module BootProtocol {
  import opened Results
  import opened Bytes
  import opened Boot
  import opened PageWalk
  import opened BootSequence
  import Elf

  // ----- The e820 map -----

  /** The kernel takes address `a` to lie in memory of the given type: an entry of the map says so. */
  ghost predicate Mapped(m: seq<byte>, a: nat, kind: nat)
    requires |m| >= 0x1_0000
  {
    exists i :: 0 <= i < m[0x71e8] && InEntry(m, i, a) && EntryKind(m, i) == kind
  }

  /** Entry `i` is 20 bytes: base, length and type. */
  predicate InEntry(m: seq<byte>, i: nat, a: nat)
    requires |m| >= 0x1_0000 && i < 256
  {
    var base, length := WordAt(m, 0x72d0 + 20 * i, 8), WordAt(m, 0x72d8 + 20 * i, 8);
    base <= a < base + length
  }

  function EntryKind(m: seq<byte>, i: nat): nat
    requires |m| >= 0x1_0000 && i < 256
  {
    WordAt(m, 0x72e0 + 20 * i, 4)
  }

  lemma OneByteWord(m: seq<byte>, a: nat)
    requires a < |m|
    ensures WordAt(m, a, 1) == m[a]
  {
    assert m[a..a + 1] == [m[a]];
    assert FromLE([m[a]]) == m[a] + 256 * FromLE([m[a]][1..]);
  }

  /**
   An address is usable memory to the kernel exactly when it lies at or above 1 MiB and in RAM,
   and the map names nothing else.
   */
  lemma MapIsRam(m: seq<byte>, cmdlineLen: nat)
    requires ZeroPageInstalled(m, cmdlineLen, |m|) && |m| >= 0x10_0000
    ensures forall a: nat :: Mapped(m, a, 1) <==> 0x10_0000 <= a < |m|
    ensures forall i :: 0 <= i < m[0x71e8] ==> EntryKind(m, i) == 1
    ensures forall a: nat, kind: nat :: Mapped(m, a, kind) ==> kind == 1
  {
    OneByteWord(m, 0x71e8);
    var entries := E820(m);
    assert |entries| == m[0x71e8];
    if |m| > 0x10_0000 {
      assert entries[0] == (WordAt(m, 0x72d0, 8), WordAt(m, 0x72d8, 8), WordAt(m, 0x72e0, 4));
      assert WordAt(m, 0x72d0, 8) == 0x10_0000 && WordAt(m, 0x72d8, 8) == |m| - 0x10_0000 && EntryKind(m, 0) == 1;
      forall a: nat
        ensures Mapped(m, a, 1) <==> 0x10_0000 <= a < |m|
      {
        assert InEntry(m, 0, a) <==> 0x10_0000 <= a < |m|;
      }
    }
  }

  // ----- Everything else -----

  /** The fields of `boot_params` at 0x7000 that the kernel checks and uses. */
  predicate ParamsFound(m: seq<byte>, cmdline: seq<byte>)
    requires |m| >= 0x1_0000
  {
    // "HdrS" behind the boot flag, protocol 2.12, an unregistered loader, 16 MiB alignment.
    && m[0x71fe..0x7200] == [0x55, 0xaa]
    && m[0x7202..0x7206] == [0x48, 0x64, 0x72, 0x53]
    && m[0x7206..0x7208] == [0x0c, 0x02]
    && m[0x7210] == 0xff
    && WordAt(m, 0x7230, 4) == 0x100_0000
    // The command line, where its pointer says, as long as its size says, and then NUL.
    && var at, size := WordAt(m, 0x7228, 4), WordAt(m, 0x7238, 4);
       at + size < |m| && m[at..at + size] == cmdline && m[at + size] == 0
  }

  /** Null, flat 64-bit code, flat data and TSS at 0x500, and an empty interrupt table at 0x520. */
  predicate SegmentsFound(m: seq<byte>)
    requires |m| >= 0x1_0000
  {
    && WordAt(m, 0x500, 8) == 0
    && WordAt(m, 0x508, 8) == EncodeSegment(0, 0xf_ffff, 0x9b, 0xa) == 0x00af_9b00_0000_ffff
    && WordAt(m, 0x510, 8) == EncodeSegment(0, 0xf_ffff, 0x93, 0xc) == 0x00cf_9300_0000_ffff
    && WordAt(m, 0x518, 8) == EncodeSegment(0, 0x67, 0x89, 0x8) == 0x0080_8900_0000_0067
    && WordAt(m, 0x520, 8) == 0
  }

  /** With CR3 at 0x9000 the first GiB is the identity, writable, and nothing else is mapped. */
  predicate PagingFound(m: seq<byte>) {
    forall va: nat {:trigger Translate(m, 0x9000, va)} :: va < 0x1_0000_0000_0000 ==>
      Translate(m, 0x9000, va) == if va < 0x4000_0000 then Maps(va, true) else Fault
  }

  /** Bytes are determined by the word they make. */
  lemma BytesOfWord(m: seq<byte>, a: nat, n: nat)
    requires a + n <= |m|
    ensures m[a..a + n] == ToLE(WordAt(m, a, n), n)
  {
    EncodeDecode(m[a..a + n]);
  }

  lemma HeaderBytes()
    ensures ToLE(0xaa55, 2) == [0x55, 0xaa] && ToLE(0x20c, 2) == [0x0c, 0x02]
    ensures ToLE(0x5372_6448, 4) == [0x48, 0x64, 0x72, 0x53]
  {
    assert ToLE(0xaa, 1) == [0xaa];
    assert ToLE(0x02, 1) == [0x02];
    assert ToLE(0x53, 1) == [0x53];
    assert ToLE(0x5372, 2) == [0x72] + ToLE(0x53, 1);
    assert ToLE(0x53_7264, 3) == [0x64] + ToLE(0x5372, 2);
  }

  lemma ParamsAreFound(m: seq<byte>, cmdline: seq<byte>)
    requires |m| >= 0x10_0000 && |cmdline| < TWO32
    requires HeaderInstalled(m, |cmdline|) && CmdlineInstalled(m, cmdline)
    ensures ParamsFound(m, cmdline)
  {
    BytesOfWord(m, 0x71fe, 2);
    BytesOfWord(m, 0x7202, 4);
    BytesOfWord(m, 0x7206, 2);
    OneByteWord(m, 0x7210);
    HeaderBytes();
  }

  lemma SegmentsAreFound(m: seq<byte>)
    requires |m| >= 0x10_0000 && GdtInstalled(m)
    ensures SegmentsFound(m)
  {
    assert WordAt(m, BOOT_GDT_OFFSET + 0 * 8, 8) == GDT[0];
    assert WordAt(m, BOOT_GDT_OFFSET + 1 * 8, 8) == GDT[1];
    assert WordAt(m, BOOT_GDT_OFFSET + 2 * 8, 8) == GDT[2];
    assert WordAt(m, BOOT_GDT_OFFSET + 3 * 8, 8) == GDT[3];
  }

  /**
   After the boot sequence, with a kernel at or above 1 MiB and a command line that ends by
   1 MiB: the parameters, the segments, the page tables and the map of memory that the boot
   protocol asks for.
   */
  lemma KernelFindsAll(kernel: seq<byte>, m: seq<byte>, cmdline: seq<byte>)
    requires GuestReady(kernel, m, cmdline) && |m| >= 0x10_0000
    requires forall i :: 0 <= i < Elf.Phnum(kernel) && Elf.Header(kernel, i).ptype == 1 ==>
               Elf.Header(kernel, i).paddr >= 0x10_0000
    requires 0x2_0000 + |cmdline| + 1 <= 0x10_0000
    ensures ParamsFound(m, cmdline) && SegmentsFound(m) && PagingFound(m)
    ensures forall a: nat :: Mapped(m, a, 1) <==> 0x10_0000 <= a < |m|
    ensures forall a: nat, kind: nat :: Mapped(m, a, kind) ==> kind == 1
  {
    assert KernelIsHigh(kernel);
    HighKernelBoots(kernel, m, cmdline);
    ParamsAreFound(m, cmdline);
    SegmentsAreFound(m);
    MapIsRam(m, |cmdline|);
  }
}
