/**
 The whole boot image: fresh RAM, then the boot artefacts, then the kernel, in the
 order the VM runner writes them.
 */
module BootSequence {
  import opened Results
  import opened Bytes
  import opened Ram
  import opened Boot
  import opened PageWalk
  import Elf

  datatype BootError = Memory(ram: RamError) | Kernel(elf: Elf.ElfError)

  datatype Guest = Guest(ram: GuestRam, entry: nat)

  predicate AgreeOn(m: seq<byte>, m': seq<byte>, lo: nat, hi: nat) {
    && |m| == |m'|
    && forall a {:trigger m'[a]} :: lo <= a < hi && a < |m| ==> m'[a] == m[a]
  }

  // ----- Each artefact depends only on its own bytes -----

  lemma GdtFrame(m: seq<byte>, m': seq<byte>)
    requires GdtInstalled(m) && AgreeOn(m, m', BOOT_GDT_OFFSET, BOOT_IDT_OFFSET + 8)
    ensures GdtInstalled(m')
  {
    forall i | 0 <= i < |GDT|
      ensures WordAt(m', BOOT_GDT_OFFSET + i * 8, 8) == GDT[i]
    {
      SameWord(m, m', BOOT_GDT_OFFSET + i * 8, 8);
    }
    SameWord(m, m', BOOT_IDT_OFFSET, 8);
  }

  lemma CmdlineFrame(m: seq<byte>, m': seq<byte>, cmdline: seq<byte>)
    requires CmdlineInstalled(m, cmdline) && AgreeOn(m, m', CMDLINE_START, CMDLINE_START + |cmdline| + 1)
    ensures CmdlineInstalled(m', cmdline)
  {
    var end := CMDLINE_START + |cmdline|;
    assert m'[CMDLINE_START..end] == m[CMDLINE_START..end];
  }

  const ZERO_PAGE_LOW: nat := ZERO_PAGE_START + OFFSET_E820_ENTRIES
  const ZERO_PAGE_HIGH: nat := ZERO_PAGE_START + OFFSET_E820_TABLE + 20

  lemma ZeroPageFrame(m: seq<byte>, m': seq<byte>, cmdlineLen: nat, ramBytes: nat)
    requires ZeroPageInstalled(m, cmdlineLen, ramBytes) && ZERO_PAGE_HIGH <= |m|
    requires AgreeOn(m, m', ZERO_PAGE_LOW, ZERO_PAGE_HIGH)
    ensures ZeroPageInstalled(m', cmdlineLen, ramBytes)
  {
    HeaderFrame(m, m', cmdlineLen);
    E820Frame(m, m');
  }

  lemma E820Frame(m: seq<byte>, m': seq<byte>)
    requires ZERO_PAGE_HIGH <= |m| && AgreeOn(m, m', ZERO_PAGE_LOW, ZERO_PAGE_HIGH)
    requires |E820(m)| <= 1
    ensures E820(m') == E820(m)
  {
    var entry := ZERO_PAGE_START + OFFSET_E820_TABLE;
    SameWord(m, m', ZERO_PAGE_START + OFFSET_E820_ENTRIES, 1);
    SameWord(m, m', entry, 8);
    SameWord(m, m', entry + 8, 8);
    SameWord(m, m', entry + 16, 4);
  }

  // ----- The composition -----

  /** No loadable segment of the kernel covers an address in `[lo, hi)`. */
  ghost predicate KernelAvoids(f: seq<byte>, lo: nat, hi: nat) {
    forall i, a :: 0 <= i < Elf.Phnum(f) && lo <= a < hi ==> !Elf.Header(f, i).Covers(a)
  }

  /** The layout an ordinary kernel has: everything it loads lies at or above 1 MiB. */
  predicate KernelIsHigh(f: seq<byte>) {
    forall i :: 0 <= i < Elf.Phnum(f) && Elf.Header(f, i).Loadable() ==> Elf.Header(f, i).paddr >= HIMEM_START
  }

  lemma HighKernelAvoids(f: seq<byte>, lo: nat, hi: nat)
    requires KernelIsHigh(f) && hi <= HIMEM_START
    ensures KernelAvoids(f, lo, hi)
  {
  }

  lemma KernelFrame(f: seq<byte>, m: seq<byte>, m': seq<byte>, lo: nat, hi: nat)
    requires Elf.HeadersGood(f, Elf.Phnum(f), |m|) && Elf.Loaded(f, Elf.Phnum(f), m, m') && KernelAvoids(f, lo, hi)
    ensures AgreeOn(m, m', lo, hi)
  {
    forall a {:trigger m'[a]} | lo <= a < hi && a < |m|
      ensures m'[a] == m[a]
    {
      Elf.UncoveredUnchanged(f, Elf.Phnum(f), m, a);
    }
  }

  /** Segment `i` is the last, in header order, to cover `a`. */
  predicate LastToCover(f: seq<byte>, i: nat, a: nat) {
    && i < Elf.Phnum(f)
    && Elf.Header(f, i).Covers(a)
    && forall j :: i < j < Elf.Phnum(f) ==> !Elf.Header(f, j).Covers(a)
  }

  /** Every byte holds the content of the last segment that covers it. */
  ghost predicate KernelInPlace(f: seq<byte>, m: seq<byte>) {
    forall i: nat, a: nat :: LastToCover(f, i, a) ==>
      a < |m| && Elf.Header(f, i).InFile(f) && m[a] == Elf.Header(f, i).ByteAt(f, a)
  }

  lemma LoadedIsInPlace(f: seq<byte>, m: seq<byte>, m': seq<byte>)
    requires Elf.HeadersGood(f, Elf.Phnum(f), |m|) && Elf.Loaded(f, Elf.Phnum(f), m, m')
    ensures KernelInPlace(f, m')
  {
    forall i: nat, a: nat | LastToCover(f, i, a)
      ensures a < |m'| && Elf.Header(f, i).InFile(f) && m'[a] == Elf.Header(f, i).ByteAt(f, a)
    {
      assert Elf.Header(f, i).Good(f, |m|);
      Elf.LastWriterWins(f, Elf.Phnum(f), m, a, i);
    }
  }

  predicate ArtefactAddress(a: nat, cmdlineLen: nat) {
    || BOOT_GDT_OFFSET <= a < BOOT_IDT_OFFSET + 8
    || ZERO_PAGE_LOW <= a < ZERO_PAGE_HIGH
    || PML4_START <= a < PAGE_TABLES_END
    || CMDLINE_START <= a <= CMDLINE_START + cmdlineLen
  }

  /** The artefacts lie in the low memory the boot code wrote, before the kernel is loaded. */
  predicate LowMemoryReady(m: seq<byte>, cmdline: seq<byte>) {
    && GdtInstalled(m)
    && PageTablesInstalled(m)
    && UpperTablesOtherwiseZero(m)
    && CmdlineInstalled(m, cmdline)
    && ZeroPageInstalled(m, |cmdline|, |m|)
    && (forall a: nat :: a < |m| && !ArtefactAddress(a, |cmdline|) ==> m[a] == 0)
  }

  /** Writing one artefact leaves the earlier ones alone: `m1` .. `m4` follow the four writers from zeroed `m0`. */
  lemma WritersDoNotInterfere(m0: seq<byte>, m1: seq<byte>, m2: seq<byte>, m3: seq<byte>, m4: seq<byte>,
                              cmdline: seq<byte>)
    requires |m0| >= HIMEM_START && forall a :: 0 <= a < |m0| ==> m0[a] == 0
    requires SameOutside(m0, m1, BOOT_GDT_OFFSET, BOOT_IDT_OFFSET + 8) && GdtInstalled(m1)
    requires SameOutside(m1, m2, PML4_START, PAGE_TABLES_END) && PageTablesInstalled(m2)
    requires AgreeOn(m1, m2, PML4_START + 8, PDPTE_START) && AgreeOn(m1, m2, PDPTE_START + 8, PDE_START)
    requires SameOutside(m2, m3, CMDLINE_START, CMDLINE_START + |cmdline| + 1) && CmdlineInstalled(m3, cmdline)
    requires SameOutside(m3, m4, ZERO_PAGE_LOW, ZERO_PAGE_HIGH) && ZeroPageInstalled(m4, |cmdline|, |m0|)
    ensures LowMemoryReady(m4, cmdline)
  {
    assert AgreeOn(m1, m4, BOOT_GDT_OFFSET, BOOT_IDT_OFFSET + 8);
    GdtFrame(m1, m4);
    assert AgreeOn(m2, m4, PML4_START, PAGE_TABLES_END);
    IdentityMapFrame(m2, m4);
    assert AgreeOn(m3, m4, CMDLINE_START, CMDLINE_START + |cmdline| + 1);
    CmdlineFrame(m3, m4, cmdline);
  }

  /**
   What the guest finds: the kernel in place, every artefact the kernel image avoids as
   it was written, the identity map if the image avoids the tables, zeros elsewhere.
   */
  ghost predicate GuestReady(f: seq<byte>, m: seq<byte>, cmdline: seq<byte>) {
    && KernelInPlace(f, m)
    && (KernelAvoids(f, PML4_START, PAGE_TABLES_END) ==> IdentityMapped(m))
    && (KernelAvoids(f, BOOT_GDT_OFFSET, BOOT_IDT_OFFSET + 8) ==> GdtInstalled(m))
    && (KernelAvoids(f, CMDLINE_START, CMDLINE_START + |cmdline| + 1) ==> CmdlineInstalled(m, cmdline))
    && (KernelAvoids(f, ZERO_PAGE_LOW, ZERO_PAGE_HIGH) ==> ZeroPageInstalled(m, |cmdline|, |m|))
    && (forall a: nat :: a < |m| && !ArtefactAddress(a, |cmdline|) && KernelAvoids(f, a, a + 1) ==> m[a] == 0)
  }

  lemma LoadingLeavesGuestReady(f: seq<byte>, m: seq<byte>, m': seq<byte>, cmdline: seq<byte>)
    requires LowMemoryReady(m, cmdline) && |m| >= HIMEM_START
    requires Elf.HeadersGood(f, Elf.Phnum(f), |m|) && Elf.Loaded(f, Elf.Phnum(f), m, m')
    ensures GuestReady(f, m', cmdline)
  {
    LoadedIsInPlace(f, m, m');
    if KernelAvoids(f, BOOT_GDT_OFFSET, BOOT_IDT_OFFSET + 8) {
      KernelFrame(f, m, m', BOOT_GDT_OFFSET, BOOT_IDT_OFFSET + 8);
      GdtFrame(m, m');
    }
    if KernelAvoids(f, PML4_START, PAGE_TABLES_END) {
      KernelFrame(f, m, m', PML4_START, PAGE_TABLES_END);
      IdentityMapFrame(m, m');
      TablesGiveIdentityMap(m');
    }
    if KernelAvoids(f, CMDLINE_START, CMDLINE_START + |cmdline| + 1) {
      KernelFrame(f, m, m', CMDLINE_START, CMDLINE_START + |cmdline| + 1);
      CmdlineFrame(m, m', cmdline);
    }
    if KernelAvoids(f, ZERO_PAGE_LOW, ZERO_PAGE_HIGH) {
      KernelFrame(f, m, m', ZERO_PAGE_LOW, ZERO_PAGE_HIGH);
      ZeroPageFrame(m, m', |cmdline|, |m|);
    }
    forall a: nat | a < |m| && !ArtefactAddress(a, |cmdline|) && KernelAvoids(f, a, a + 1)
      ensures m'[a] == 0
    {
      KernelFrame(f, m, m', a, a + 1);
    }
  }

  /** For a kernel at or above 1 MiB and a command line that ends by 1 MiB, nothing is lost. */
  lemma HighKernelBoots(f: seq<byte>, m: seq<byte>, cmdline: seq<byte>)
    requires GuestReady(f, m, cmdline)
    requires KernelIsHigh(f) && CMDLINE_START + |cmdline| + 1 <= HIMEM_START
    ensures IdentityMapped(m) && GdtInstalled(m) && CmdlineInstalled(m, cmdline) && ZeroPageInstalled(m, |cmdline|, |m|)
  {
    HighKernelAvoids(f, BOOT_GDT_OFFSET, BOOT_IDT_OFFSET + 8);
    HighKernelAvoids(f, PML4_START, PAGE_TABLES_END);
    HighKernelAvoids(f, CMDLINE_START, CMDLINE_START + |cmdline| + 1);
    HighKernelAvoids(f, ZERO_PAGE_LOW, ZERO_PAGE_HIGH);
  }

  method WriteLowMemory(ram: GuestRam, cmdline: seq<byte>) returns (r: Result<(), RamError>)
    requires ram.Valid() && forall a :: 0 <= a < ram.mem.Length ==> ram.mem[a] == 0
    requires ram.mem.Length % 0x10_0000 == 0 && |cmdline| <= MAX_FILE
    modifies ram.mem
    ensures r.Ok? <==> CMDLINE_START + |cmdline| + 1 <= ram.mem.Length
    ensures r.Err? ==> r.error == OutOfBounds
    ensures r.Ok? ==> LowMemoryReady(ram.mem[..], cmdline)
  {
    ghost var m0 := ram.mem[..];
    assert ram.mem.Length < HIMEM_START ==> ram.mem.Length == 0;
    var _ :- WriteGdt(ram);
    ghost var m1 := ram.mem[..];
    var tables := SetupPageTables(ram);
    assert tables.Ok?; // RAM comes in whole MiB
    ghost var m2 := ram.mem[..];
    var _ :- WriteCmdline(ram, cmdline);
    ghost var m3 := ram.mem[..];
    var zeroPage := WriteZeroPage(ram, |cmdline|, ram.mem.Length);
    assert zeroPage.Ok?;
    WritersDoNotInterfere(m0, m1, m2, m3, ram.mem[..], cmdline);
    return Ok(());
  }

  method LoadKernel(ram: GuestRam, kernel: seq<byte>, cmdline: seq<byte>) returns (r: Result<nat, BootError>)
    requires ram.Valid() && |kernel| <= MAX_FILE && ram.mem.Length >= HIMEM_START
    requires LowMemoryReady(ram.mem[..], cmdline)
    modifies ram.mem
    ensures r.Ok? <==> Elf.Acceptable(kernel, ram.mem.Length)
    ensures r.Ok? ==> r.value == Elf.Entry(kernel) && GuestReady(kernel, ram.mem[..], cmdline)
  {
    ghost var m := ram.mem[..];
    var entry, _ := Elf.Load(kernel, ram);
    if entry.Err? {
      return Err(Kernel(entry.error));
    }
    LoadingLeavesGuestReady(kernel, m, ram.mem[..], cmdline);
    return Ok(entry.value);
  }

  /** The memory part of starting a VM: `minRam` MiB of fresh RAM, the artefacts, the kernel. */
  method PrepareGuest(minRam: u64, cmdline: seq<byte>, kernel: seq<byte>) returns (r: Result<Guest, BootError>)
    requires |kernel| <= MAX_FILE && |cmdline| <= MAX_FILE
    ensures r.Ok? <==> && minRam * 0x10_0000 < TWO64
                       && 0x2_0000 + |cmdline| + 1 <= minRam * 0x10_0000
                       && Elf.Acceptable(kernel, minRam * 0x10_0000)
    ensures r.Ok? ==> r.value.ram.mem.Length == minRam * 0x10_0000 && r.value.entry == Elf.Entry(kernel)
    ensures r.Ok? ==> GuestReady(kernel, r.value.ram.mem[..], cmdline)
    ensures minRam * 0x10_0000 >= TWO64 ==> r == Err(Memory(AddressOverflow))
    ensures minRam * 0x10_0000 < TWO64 && 0x2_0000 + |cmdline| + 1 > minRam * 0x10_0000 ==>
              r == Err(Memory(OutOfBounds))
  {
    var newRam := GuestRam.New(minRam);
    if newRam.Err? {
      return Err(Memory(newRam.error));
    }
    var ram := newRam.value;
    var low := WriteLowMemory(ram, cmdline);
    if low.Err? {
      return Err(Memory(low.error));
    }
    var entry :- LoadKernel(ram, kernel, cmdline);
    return Ok(Guest(ram, entry));
  }
}
