/**
 Kernel files as a linker lays them out, by the offsets and numbers of the System V gABI, and
 what the loader makes of them: which it accepts, what it says of the others, and the image
 that it leaves in memory.
 */
module KernelFiles {
  import opened Results
  import opened Arithmetic
  import opened Bytes
  import opened Ram
  import opened Layouts
  import Elf

  // ----- System V gABI, ELF-64 headers -----

  /** `Elf64_Phdr` */
  function PhdrRecord(h: Elf.Phdr, flags: u32, vaddr: u64, align: u64): Record {
    [Field(h.ptype, 4), Field(flags, 4), Field(h.offset, 8), Field(vaddr, 8),
     Field(h.paddr, 8), Field(h.filesz, 8), Field(h.memsz, 8), Field(align, 8)]
  }

  lemma PhdrOffsets(h: Elf.Phdr, flags: u32, vaddr: u64, align: u64)
    ensures var r := PhdrRecord(h, flags, vaddr, align);
            OffsetOf(r, 2) == 8 && OffsetOf(r, 4) == 24 && OffsetOf(r, 5) == 32 && OffsetOf(r, 6) == 40
  {
    var r := PhdrRecord(h, flags, vaddr, align);
    assert OffsetOf(r, 1) == 4;
    assert OffsetOf(r, 2) == 8;
    assert OffsetOf(r, 3) == 16;
    assert OffsetOf(r, 4) == 24;
    assert OffsetOf(r, 5) == 32;
  }

  /** The loader reads the fields of a program header where the ABI puts them. */
  lemma PhdrReads(f: seq<byte>, off: nat, h: Elf.Phdr, flags: u32, vaddr: u64, align: u64)
    requires Stored(f, off, PhdrRecord(h, flags, vaddr, align))
    ensures Elf.PhdrAt(f, off) == h
  {
    WordWidths();
    PhdrOffsets(h, flags, vaddr, align);
    var r := PhdrRecord(h, flags, vaddr, align);
    FieldReads(f, off, r, 0);
    FieldReads(f, off, r, 2);
    FieldReads(f, off, r, 4);
    FieldReads(f, off, r, 5);
    FieldReads(f, off, r, 6);
  }

  /** The fields of `Elf64_Ehdr` after `e_ident`. */
  datatype Ehdr = Ehdr(etype: u16, machine: u16, version: u32, entry: u64, phoff: u64, shoff: u64, flags: u32,
                       ehsize: u16, phentsize: u16, phnum: u16, shentsize: u16, shnum: u16, shstrndx: u16)

  function EhdrRecord(h: Ehdr): Record {
    [Field(h.etype, 2), Field(h.machine, 2), Field(h.version, 4), Field(h.entry, 8), Field(h.phoff, 8),
     Field(h.shoff, 8), Field(h.flags, 4), Field(h.ehsize, 2), Field(h.phentsize, 2), Field(h.phnum, 2),
     Field(h.shentsize, 2), Field(h.shnum, 2), Field(h.shstrndx, 2)]
  }

  lemma EhdrOffsets(h: Ehdr)
    ensures var r := EhdrRecord(h);
            OffsetOf(r, 1) == 2 && OffsetOf(r, 3) == 8 && OffsetOf(r, 4) == 16
            && OffsetOf(r, 8) == 38 && OffsetOf(r, 9) == 40
  {
    var r := EhdrRecord(h);
    assert OffsetOf(r, 1) == 2;
    assert OffsetOf(r, 2) == 4;
    assert OffsetOf(r, 3) == 8;
    assert OffsetOf(r, 4) == 16;
    assert OffsetOf(r, 5) == 24;
    assert OffsetOf(r, 6) == 32;
    assert OffsetOf(r, 7) == 36;
    assert OffsetOf(r, 8) == 38;
  }

  /** The loader reads the fields of the file header where the ABI puts them, after the 16 bytes of `e_ident`. */
  lemma EhdrReads(f: seq<byte>, h: Ehdr)
    requires Stored(f, 16, EhdrRecord(h))
    ensures Elf.Entry(f) == h.entry && Elf.Phoff(f) == h.phoff
            && Elf.Phentsize(f) == h.phentsize && Elf.Phnum(f) == h.phnum
    ensures Elf.Word(f, 18, 2) == h.machine
  {
    WordWidths();
    EhdrOffsets(h);
    var r := EhdrRecord(h);
    FieldReads(f, 16, r, 1);
    FieldReads(f, 16, r, 3);
    FieldReads(f, 16, r, 4);
    FieldReads(f, 16, r, 8);
    FieldReads(f, 16, r, 9);
  }

  // ----- The file header -----

  /**
   For every file with a stored header: the header checks pass exactly on 64-bit little-endian
   x86-64 ELF files with program headers of full size, and otherwise name the first difference.
   */
  lemma StoredIdentIff(f: seq<byte>, h: Ehdr)
    requires |f| >= 64 && Stored(f, 16, EhdrRecord(h))
    ensures Elf.IsKernel(f) <==>
            && f[..4] == [0x7f, 0x45, 0x4c, 0x46] && f[4] == 2 && f[5] == 1
            && h.machine == 62 && h.phentsize >= 56
    ensures !Elf.IsKernel(f) ==>
              Elf.IdentFailure(f) ==
              if f[..4] != [0x7f, 0x45, 0x4c, 0x46] then Elf.NotElf
              else if f[4] != 2 then Elf.NotElf64
              else if f[5] != 1 then Elf.NotLittleEndian
              else if h.machine != 62 then Elf.WrongMachine
              else Elf.BadPhentsize
  {
    EhdrReads(f, h);
  }

  /** So an aarch64 kernel is rejected, whatever its segments are. */
  lemma OtherMachineRejected(f: seq<byte>, h: Ehdr, ramSize: nat)
    requires |f| >= 64 && Stored(f, 16, EhdrRecord(h)) && h.machine == 183
    ensures !Elf.Acceptable(f, ramSize)
  {
    StoredIdentIff(f, h);
  }

  /** A program header that does not lie in the file: one offset too large for 64 bits, or an end past the file's. */
  lemma HeaderOutside(f: seq<byte>, h: Ehdr, i: nat, ramSize: nat)
    requires |f| >= 64 && Stored(f, 16, EhdrRecord(h)) && h.phoff + i * h.phentsize + h.phentsize > |f|
    ensures !Elf.HeaderInFile(f, i)
    ensures var at := h.phoff + i * h.phentsize;
            Elf.HeaderFailure(f, i, ramSize) ==
            if at >= 0x1_0000_0000_0000_0000 then Elf.OffsetOverflow(i)
            else if 0x1_0000_0000_0000_0000 <= at + h.phentsize <= 0x1_0000_0000_0000_0000 + |f| then Elf.SlicePanic(i)
            else Elf.HeaderPastEnd(i)
  {
    EhdrReads(f, h);
  }

  // ----- A kernel file, from its headers to guest memory -----

  /** A program header, with the fields the loader does not look at. */
  datatype ProgramHeader = ProgramHeader(segment: Elf.Phdr, flags: u32, vaddr: u64, align: u64) {
    function Layout(): Record { PhdrRecord(segment, flags, vaddr, align) }

    /** PT_LOAD is 1. */
    predicate IsLoad() { segment.ptype == 1 }

    /** The image in memory is as long as the longer of the two sizes. */
    function End(): nat { segment.paddr + Max(segment.filesz, segment.memsz) }

    predicate Over(a: nat) { IsLoad() && segment.paddr <= a < End() }

    predicate Fits(f: seq<byte>, ramSize: nat) { segment.offset + segment.filesz <= |f| && End() <= ramSize }
  }

  /** An x86-64 kernel as a linker lays it out: `e_ident`, the file header, and the program headers where that says. */
  predicate IsKernelFile(f: seq<byte>, h: Ehdr, phs: seq<ProgramHeader>) {
    && |f| >= 64 && f[..4] == [0x7f, 0x45, 0x4c, 0x46] && f[4] == 2 && f[5] == 1
    && Stored(f, 16, EhdrRecord(h))
    && h.machine == 62 && h.phentsize >= 56 && h.phnum == |phs|
    && forall i :: 0 <= i < |phs| ==> HeaderStored(f, h, phs[i], i)
  }

  predicate HeaderStored(f: seq<byte>, h: Ehdr, ph: ProgramHeader, i: nat) {
    h.phoff + i * h.phentsize + h.phentsize <= |f| && Stored(f, h.phoff + i * h.phentsize, ph.Layout())
  }

  /** Every segment to be loaded lies in the file and in RAM ... */
  predicate AllFit(f: seq<byte>, phs: seq<ProgramHeader>, ramSize: nat) {
    forall i :: 0 <= i < |phs| && phs[i].IsLoad() ==> phs[i].Fits(f, ramSize)
  }

  /** ... and there is one. */
  predicate Loads(f: seq<byte>, phs: seq<ProgramHeader>, ramSize: nat) {
    AllFit(f, phs, ramSize) && exists i :: 0 <= i < |phs| && phs[i].IsLoad()
  }

  lemma HeaderIsStored(f: seq<byte>, h: Ehdr, ph: ProgramHeader, i: nat, at: nat)
    requires HeaderStored(f, h, ph, i) && at == h.phoff + i * h.phentsize
    requires Elf.Phoff(f) == h.phoff && Elf.Phentsize(f) == h.phentsize
    ensures Elf.HeaderInFile(f, i) && Elf.Header(f, i) == ph.segment
  {
    PhdrReads(f, at, ph.segment, ph.flags, ph.vaddr, ph.align);
  }

  lemma HeadersAreStored(f: seq<byte>, h: Ehdr, phs: seq<ProgramHeader>)
    requires IsKernelFile(f, h, phs)
    ensures Elf.IsKernel(f) && Elf.Entry(f) == h.entry && Elf.Phnum(f) == |phs|
    ensures forall i :: 0 <= i < |phs| ==> Elf.HeaderInFile(f, i) && Elf.Header(f, i) == phs[i].segment
  {
    EhdrReads(f, h);
    forall i | 0 <= i < |phs|
      ensures Elf.HeaderInFile(f, i) && Elf.Header(f, i) == phs[i].segment
    {
      assert HeaderStored(f, h, phs[i], i);
      HeaderIsStored(f, h, phs[i], i, h.phoff + i * h.phentsize);
    }
  }

  /** A header is good to the loader exactly when it is not to be loaded or fits. */
  lemma GoodIff(f: seq<byte>, ph: ProgramHeader, ramSize: nat)
    ensures ph.segment.Loadable() <==> ph.IsLoad()
    ensures ph.segment.Good(f, ramSize) <==> (ph.IsLoad() ==> ph.Fits(f, ramSize))
    ensures forall a: nat :: ph.segment.Covers(a) <==> ph.Over(a)
  {
  }

  lemma GoodPrefix(f: seq<byte>, h: Ehdr, phs: seq<ProgramHeader>, n: nat, ramSize: nat)
    requires IsKernelFile(f, h, phs) && n <= |phs|
    ensures Elf.HeadersGood(f, n, ramSize) <==> AllFit(f, phs[..n], ramSize)
  {
    HeadersAreStored(f, h, phs);
    forall i | 0 <= i < n
      ensures Elf.Header(f, i) == phs[i].segment && Elf.HeaderInFile(f, i)
      ensures Elf.Header(f, i).Good(f, ramSize) <==> (phs[..n][i].IsLoad() ==> phs[..n][i].Fits(f, ramSize))
    {
      GoodIff(f, phs[i], ramSize);
    }
  }

  /** The loader accepts such a file exactly when its segments lie in the file and in RAM and one is to be loaded. */
  lemma StoredKernelAcceptedIff(f: seq<byte>, h: Ehdr, phs: seq<ProgramHeader>, ramSize: nat)
    requires IsKernelFile(f, h, phs)
    ensures Elf.Acceptable(f, ramSize) <==> Loads(f, phs, ramSize)
    ensures Elf.Entry(f) == h.entry
  {
    HeadersAreStored(f, h, phs);
    GoodPrefix(f, h, phs, |phs|, ramSize);
    assert phs[..|phs|] == phs;
    forall i | 0 <= i < |phs|
      ensures Elf.Header(f, i).Loadable() <==> phs[i].IsLoad()
    {
      GoodIff(f, phs[i], ramSize);
    }
  }

  /** The first write of a segment that does not fit RAM: of its file bytes, or of the zeros after them. */
  function FailingEnd(s: Elf.Phdr, ramSize: nat): nat {
    s.paddr + if s.paddr + s.filesz > ramSize then s.filesz else s.memsz
  }

  /**
   Otherwise it stops at the first segment that does not fit, `i`, and nowhere else: with an error
   that names it and says whether the file or RAM ends too early, or 64 bits do.
   */
  lemma StoredKernelFails(f: seq<byte>, h: Ehdr, phs: seq<ProgramHeader>, ramSize: nat, i: nat)
    requires IsKernelFile(f, h, phs) && i < |phs|
    requires AllFit(f, phs[..i], ramSize) && phs[i].IsLoad() && !phs[i].Fits(f, ramSize)
    ensures forall stop: nat {:trigger Elf.HeadersGood(f, stop, ramSize)} ::
              Elf.HeadersGood(f, stop, ramSize) && !Elf.HeadersGood(f, stop + 1, ramSize) <==> stop == i
    ensures Elf.HeaderFailure(f, i, ramSize) ==
            var s := phs[i].segment;
            if s.offset + s.filesz > |f| then Elf.SegmentPastEnd(i)
            else if FailingEnd(s, ramSize) >= 0x1_0000_0000_0000_0000 then Elf.RamWrite(i, AddressOverflow)
            else Elf.RamWrite(i, OutOfBounds)
  {
    HeadersAreStored(f, h, phs);
    GoodPrefix(f, h, phs, i, ramSize);
    GoodIff(f, phs[i], ramSize);
    forall stop: nat {:trigger Elf.HeadersGood(f, stop, ramSize)}
      ensures Elf.HeadersGood(f, stop, ramSize) && !Elf.HeadersGood(f, stop + 1, ramSize) <==> stop == i
    {
      assert !(Elf.HeaderInFile(f, i) && Elf.Header(f, i).Good(f, ramSize));
    }
  }

  // ----- The image -----

  /** Segment `i` is the last to be loaded over address `a`. */
  predicate LastOver(phs: seq<ProgramHeader>, a: nat, i: nat) {
    i < |phs| && phs[i].Over(a) && forall j :: i < j < |phs| ==> !phs[j].Over(a)
  }

  predicate NoneOver(phs: seq<ProgramHeader>, a: nat) {
    forall i :: 0 <= i < |phs| ==> !phs[i].Over(a)
  }

  /** What a segment holds at `a`: the byte of the file that far into it, or zero past its bytes in the file. */
  function SegmentByte(f: seq<byte>, ph: ProgramHeader, ramSize: nat, a: nat): byte
    requires ph.Over(a) && ph.Fits(f, ramSize)
  {
    var k := a - ph.segment.paddr;
    if k < ph.segment.filesz then f[ph.segment.offset + k] else 0
  }

  /** Each address holds what the last segment over it does, or what it held before. */
  ghost predicate StoredImage(f: seq<byte>, phs: seq<ProgramHeader>, m: seq<byte>, m': seq<byte>)
    requires AllFit(f, phs, |m|)
  {
    && |m'| == |m|
    && (forall a: nat, i: nat {:trigger LastOver(phs, a, i)} :: a < |m| && LastOver(phs, a, i) ==>
          m'[a] == SegmentByte(f, phs[i], |m|, a))
    && (forall a :: 0 <= a < |m| && NoneOver(phs, a) ==> m'[a] == m[a])
  }

  lemma {:induction false} SomeLastOver(phs: seq<ProgramHeader>, n: nat, a: nat) returns (i: nat)
    requires n <= |phs| && forall j :: n <= j < |phs| ==> !phs[j].Over(a)
    ensures NoneOver(phs, a) || LastOver(phs, a, i)
  {
    if n == 0 {
      return 0;
    }
    if phs[n - 1].Over(a) {
      return n - 1;
    }
    i := SomeLastOver(phs, n - 1, a);
  }

  /** The byte the loader leaves at `a`, by the stored headers. */
  lemma StoredByte(f: seq<byte>, phs: seq<ProgramHeader>, n: nat, m: seq<byte>, a: nat)
    requires AllFit(f, phs, |m|) && a < |m| && n == |phs| && Elf.HeadersGood(f, n, |m|)
    requires forall i :: 0 <= i < n ==> Elf.Header(f, i) == phs[i].segment
    ensures forall i: nat :: LastOver(phs, a, i) ==> Elf.LoadedByte(f, n, m, a) == SegmentByte(f, phs[i], |m|, a)
    ensures NoneOver(phs, a) ==> Elf.LoadedByte(f, n, m, a) == m[a]
  {
    forall i | 0 <= i < n
      ensures Elf.Header(f, i).Covers(a) <==> phs[i].Over(a)
    {
      GoodIff(f, phs[i], |m|);
    }
    forall i: nat | LastOver(phs, a, i)
      ensures Elf.LoadedByte(f, n, m, a) == SegmentByte(f, phs[i], |m|, a)
    {
      Elf.LastWriterWins(f, n, m, a, i);
    }
    if NoneOver(phs, a) {
      Elf.UncoveredUnchanged(f, n, m, a);
    }
  }

  lemma ImageIsLoaded(f: seq<byte>, phs: seq<ProgramHeader>, n: nat, m: seq<byte>, m': seq<byte>)
    requires AllFit(f, phs, |m|) && n == |phs| && Elf.HeadersGood(f, n, |m|)
    requires forall i :: 0 <= i < n ==> Elf.Header(f, i) == phs[i].segment
    ensures Elf.Loaded(f, n, m, m') <==> StoredImage(f, phs, m, m')
  {
    forall a | 0 <= a < |m|
      ensures forall i: nat :: LastOver(phs, a, i) ==> Elf.LoadedByte(f, n, m, a) == SegmentByte(f, phs[i], |m|, a)
      ensures NoneOver(phs, a) ==> Elf.LoadedByte(f, n, m, a) == m[a]
      ensures NoneOver(phs, a) || exists i: nat :: LastOver(phs, a, i)
    {
      StoredByte(f, phs, n, m, a);
      var i := SomeLastOver(phs, n, a);
    }
  }

  /** And loading it leaves exactly the image that its stored segments describe. */
  lemma StoredKernelLoads(f: seq<byte>, h: Ehdr, phs: seq<ProgramHeader>, m: seq<byte>, m': seq<byte>)
    requires IsKernelFile(f, h, phs) && Loads(f, phs, |m|)
    ensures Elf.HeadersGood(f, Elf.Phnum(f), |m|)
    ensures Elf.Loaded(f, Elf.Phnum(f), m, m') <==> StoredImage(f, phs, m, m')
  {
    StoredKernelAcceptedIff(f, h, phs, |m|);
    HeadersAreStored(f, h, phs);
    ImageIsLoaded(f, phs, |phs|, m, m');
  }
}
