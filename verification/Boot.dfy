/** Boot artefacts in low guest memory: GDT, page tables, command line, zero page. */
module Boot {
  import opened Results
  import opened Bytes
  import opened Ram

  const BOOT_GDT_OFFSET: u64 := 0x500
  const BOOT_IDT_OFFSET: u64 := 0x520
  const ZERO_PAGE_START: u64 := 0x7000
  const PML4_START: u64 := 0x9000
  const PDPTE_START: u64 := 0xa000
  const PDE_START: u64 := 0xb000
  const PAGE_TABLES_END: u64 := 0xc000
  const CMDLINE_START: u64 := 0x20000
  const HIMEM_START: u64 := 0x100000

  const KERNEL_HDR_MAGIC: u32 := 0x5372_6448
  const KERNEL_BOOT_FLAG_MAGIC: u16 := 0xaa55
  const KERNEL_LOADER_OTHER: byte := 0xff
  const KERNEL_MIN_ALIGN: u32 := 0x0100_0000
  const BOOT_PROTOCOL_VERSION: u16 := 0x020c
  const E820_RAM: u32 := 1

  const OFFSET_E820_ENTRIES: u64 := 0x1e8
  const OFFSET_HDR_BOOT_FLAG: u64 := 0x1fe
  const OFFSET_HDR_HEADER: u64 := 0x202
  const OFFSET_HDR_VERSION: u64 := 0x206
  const OFFSET_HDR_TYPE_OF_LOADER: u64 := 0x210
  const OFFSET_HDR_CMD_LINE_PTR: u64 := 0x228
  const OFFSET_HDR_KERNEL_ALIGNMENT: u64 := 0x230
  const OFFSET_HDR_CMDLINE_SIZE: u64 := 0x238
  const OFFSET_E820_TABLE: u64 := 0x2d0

  const PRESENT_WRITABLE: nat := 0x3
  const PRESENT_WRITABLE_HUGE: nat := 0x83
  const HUGE_PAGE: nat := 0x20_0000

  /** null, 64-bit kernel code, kernel data, TSS. */
  const GDT: seq<u64> := [0, 0x00af_9b00_0000_ffff, 0x00cf_9300_0000_ffff, 0x0080_8900_0000_0067]

  // ----- What the GDT entries say (Intel SDM Vol. 3A, section 3.4.5) -----

  /** A segment descriptor; the flags are G, D/B, L and AVL, highest first. */
  function EncodeSegment(base: u32, limit: nat, access: byte, flags: nat): nat
    requires limit < 0x10_0000 && flags < 0x10
  {
    limit % 0x1_0000
    + base % 0x100_0000 * 0x1_0000
    + access as int * 0x100_0000_0000
    + limit / 0x1_0000 * 0x1_0000_0000_0000
    + flags * 0x10_0000_0000_0000
    + base / 0x100_0000 * 0x100_0000_0000_0000
  }

  /**
   A null entry, flat 64-bit code (G, L), flat data (G, D), and an available TSS at 0; G scales
   its limit to 0x67fff.
   */
  lemma GdtDescribesLongMode()
    ensures GDT == [0, EncodeSegment(0, 0xf_ffff, 0x9b, 0xa), EncodeSegment(0, 0xf_ffff, 0x93, 0xc),
                    EncodeSegment(0, 0x67, 0x89, 0x8)]
  {
  }

  // ----- What each artefact looks like in memory -----

  predicate GdtInstalled(m: seq<byte>) {
    && BOOT_IDT_OFFSET + 8 <= |m|
    && (forall i :: 0 <= i < |GDT| ==> WordAt(m, BOOT_GDT_OFFSET + i * 8, 8) == GDT[i])
    && WordAt(m, BOOT_IDT_OFFSET, 8) == 0
  }

  predicate PageTablesInstalled(m: seq<byte>) {
    && PAGE_TABLES_END <= |m|
    && WordAt(m, PML4_START, 8) == PDPTE_START + PRESENT_WRITABLE
    && WordAt(m, PDPTE_START, 8) == PDE_START + PRESENT_WRITABLE
    && HugePages(m, 512)
  }

  predicate CmdlineInstalled(m: seq<byte>, cmdline: seq<byte>) {
    && CMDLINE_START + |cmdline| + 1 <= |m|
    && m[CMDLINE_START..CMDLINE_START + |cmdline|] == cmdline
    && m[CMDLINE_START + |cmdline|] == 0
  }

  function Field(m: seq<byte>, offset: nat, n: nat): nat
    requires ZERO_PAGE_START + offset + n <= |m|
  {
    WordAt(m, ZERO_PAGE_START + offset, n)
  }

  /** The setup header fields of `boot_params` that say what it is ... */
  predicate KernelFields(m: seq<byte>) {
    && ZERO_PAGE_START + OFFSET_HDR_TYPE_OF_LOADER + 1 <= |m|
    && Field(m, OFFSET_HDR_BOOT_FLAG, 2) == KERNEL_BOOT_FLAG_MAGIC
    && Field(m, OFFSET_HDR_HEADER, 4) == KERNEL_HDR_MAGIC
    && Field(m, OFFSET_HDR_VERSION, 2) == BOOT_PROTOCOL_VERSION
    && Field(m, OFFSET_HDR_TYPE_OF_LOADER, 1) == KERNEL_LOADER_OTHER
  }

  /** ... and all of them. */
  predicate HeaderInstalled(m: seq<byte>, cmdlineLen: nat) {
    && ZERO_PAGE_START + OFFSET_HDR_CMDLINE_SIZE + 4 <= |m|
    && KernelFields(m)
    && Field(m, OFFSET_HDR_KERNEL_ALIGNMENT, 4) == KERNEL_MIN_ALIGN
    && Field(m, OFFSET_HDR_CMD_LINE_PTR, 4) == CMDLINE_START
    && Field(m, OFFSET_HDR_CMDLINE_SIZE, 4) == cmdlineLen % TWO32
  }

  predicate ZeroPageInstalled(m: seq<byte>, cmdlineLen: nat, ramBytes: nat) {
    && HeaderInstalled(m, cmdlineLen)
    && E820(m) == HighMemory(ramBytes)
  }

  /** Everything from 1 MiB to the end of RAM, if there is anything there. */
  function HighMemory(ramBytes: nat): seq<(nat, nat, nat)> {
    if ramBytes > HIMEM_START then [(HIMEM_START, ramBytes - HIMEM_START, E820_RAM)] else []
  }

  /** The header fields depend on nothing outside `[0x1fe, 0x23c)` of the zero page. */
  lemma HeaderFrame(m: seq<byte>, m': seq<byte>, cmdlineLen: nat)
    requires HeaderInstalled(m, cmdlineLen) && |m| == |m'|
    requires forall a {:trigger m'[a]} ::
               ZERO_PAGE_START + OFFSET_HDR_BOOT_FLAG <= a < ZERO_PAGE_START + OFFSET_HDR_CMDLINE_SIZE + 4
               ==> m'[a] == m[a]
    ensures HeaderInstalled(m', cmdlineLen)
  {
    var base := ZERO_PAGE_START;
    SameWord(m, m', base + OFFSET_HDR_BOOT_FLAG, 2);
    SameWord(m, m', base + OFFSET_HDR_HEADER, 4);
    SameWord(m, m', base + OFFSET_HDR_VERSION, 2);
    SameWord(m, m', base + OFFSET_HDR_TYPE_OF_LOADER, 1);
    SameWord(m, m', base + OFFSET_HDR_KERNEL_ALIGNMENT, 4);
    SameWord(m, m', base + OFFSET_HDR_CMD_LINE_PTR, 4);
    SameWord(m, m', base + OFFSET_HDR_CMDLINE_SIZE, 4);
  }

  /** The e820 map a kernel would read: as many 20-byte entries as the count byte says. */
  function E820(m: seq<byte>): (entries: seq<(nat, nat, nat)>)
    requires ZERO_PAGE_START + OFFSET_E820_ENTRIES + 1 <= |m|
  {
    var table := OFFSET_E820_TABLE;
    var count := Field(m, OFFSET_E820_ENTRIES, 1);
    seq(count, i requires 0 <= i < count =>
      if ZERO_PAGE_START + table + i * 20 + 20 <= |m|
      then (Field(m, table + i * 20, 8), Field(m, table + i * 20 + 8, 8), Field(m, table + i * 20 + 16, 4))
      else (0, 0, 0))
  }

  // ----- The writers -----

  method WriteGdt(ram: GuestRam) returns (r: Result<(), RamError>)
    requires ram.Valid()
    modifies ram.mem
    ensures r.Ok? <==> BOOT_IDT_OFFSET + 8 <= ram.mem.Length
    ensures r.Err? ==> r.error == OutOfBounds
    ensures r.Ok? ==> GdtInstalled(ram.mem[..])
    ensures SameOutside(old(ram.mem[..]), ram.mem[..], BOOT_GDT_OFFSET, BOOT_IDT_OFFSET + 8)
  {
    WordWidths();
    for i := 0 to |GDT|
      invariant i > 0 ==> BOOT_GDT_OFFSET + i * 8 <= ram.mem.Length
      invariant forall j {:trigger GDT[j]} :: 0 <= j < i ==> WordAt(ram.mem[..], BOOT_GDT_OFFSET + j * 8, 8) == GDT[j]
      invariant SameOutside(old(ram.mem[..]), ram.mem[..], BOOT_GDT_OFFSET, BOOT_IDT_OFFSET + 8)
    {
      ghost var before := ram.mem[..];
      var _ :- ram.WriteObj(BOOT_GDT_OFFSET + i * 8, GDT[i], 8);
      forall j | 0 <= j < i
        ensures WordAt(ram.mem[..], BOOT_GDT_OFFSET + j * 8, 8) == GDT[j]
      {
        SameWord(before, ram.mem[..], BOOT_GDT_OFFSET + j * 8, 8);
      }
    }
    ghost var before := ram.mem[..];
    var _ :- ram.WriteObj(BOOT_IDT_OFFSET, 0, 8);
    forall j | 0 <= j < |GDT|
      ensures WordAt(ram.mem[..], BOOT_GDT_OFFSET + j * 8, 8) == GDT[j]
    {
      SameWord(before, ram.mem[..], BOOT_GDT_OFFSET + j * 8, 8);
    }
    return Ok(());
  }

  /** The first `n` entries of the lowest table. */
  predicate HugePages(m: seq<byte>, n: nat) {
    && (n == 0 || PDE_START + n * 8 <= |m|)
    && forall j :: 0 <= j < n ==> WordAt(m, PDE_START + j * 8, 8) == j * HUGE_PAGE + PRESENT_WRITABLE_HUGE
  }

  lemma OneMoreHugePage(before: seq<byte>, after: seq<byte>, i: nat, next: nat)
    requires HugePages(before, i) && next == i + 1 && PDE_START + next * 8 <= |after|
    requires SameOutside(before, after, PDE_START + i * 8, PDE_START + i * 8 + 8)
    requires WordAt(after, PDE_START + i * 8, 8) == i * HUGE_PAGE + PRESENT_WRITABLE_HUGE
    ensures HugePages(after, next)
  {
    forall j | 0 <= j < i
      ensures WordAt(after, PDE_START + j * 8, 8) == j * HUGE_PAGE + PRESENT_WRITABLE_HUGE
    {
      SameWord(before, after, PDE_START + j * 8, 8);
    }
  }

  method SetupPageTables(ram: GuestRam) returns (r: Result<(), RamError>)
    requires ram.Valid()
    modifies ram.mem
    ensures r.Ok? <==> PAGE_TABLES_END <= ram.mem.Length
    ensures r.Ok? ==> PageTablesInstalled(ram.mem[..])
    ensures SameOutside(old(ram.mem[..]), ram.mem[..], PML4_START, PAGE_TABLES_END)
    // Within the tables, only the first entry of the upper two levels is written.
    ensures forall a ::
              0 <= a < ram.mem.Length && (PML4_START + 8 <= a < PDPTE_START || PDPTE_START + 8 <= a < PDE_START)
              ==> ram.mem[a] == old(ram.mem[a])
  {
    WordWidths();
    var _ :- ram.WriteObj(PML4_START, PDPTE_START + PRESENT_WRITABLE, 8);
    ghost var upper := ram.mem[..];
    var _ :- ram.WriteObj(PDPTE_START, PDE_START + PRESENT_WRITABLE, 8);
    SameWord(upper, ram.mem[..], PML4_START, 8);
    upper := ram.mem[..];
    for i := 0 to 512
      invariant PDE_START + i * 8 <= ram.mem.Length || i == 0
      invariant SameOutside(upper, ram.mem[..], PDE_START, PAGE_TABLES_END)
      invariant HugePages(ram.mem[..], i)
    {
      ghost var before, next: nat := ram.mem[..], i + 1;
      var _ :- ram.WriteObj(PDE_START + i * 8, i * HUGE_PAGE + PRESENT_WRITABLE_HUGE, 8);
      OneMoreHugePage(before, ram.mem[..], i, next);
    }
    SameWord(upper, ram.mem[..], PML4_START, 8);
    SameWord(upper, ram.mem[..], PDPTE_START, 8);
    return Ok(());
  }

  method WriteCmdline(ram: GuestRam, cmdline: seq<byte>) returns (r: Result<(), RamError>)
    requires ram.Valid() && CMDLINE_START + |cmdline| < TWO64
    modifies ram.mem
    ensures r.Ok? <==> CMDLINE_START + |cmdline| + 1 <= ram.mem.Length
    ensures r.Err? && CMDLINE_START + |cmdline| + 1 < TWO64 ==> r.error == OutOfBounds
    ensures r.Ok? ==> CmdlineInstalled(ram.mem[..], cmdline)
    ensures SameOutside(old(ram.mem[..]), ram.mem[..], CMDLINE_START, CMDLINE_START + |cmdline| + 1)
  {
    WordWidths();
    var _ :- ram.WriteSlice(CMDLINE_START, cmdline);
    ghost var written := ram.mem[..];
    assert written[CMDLINE_START..CMDLINE_START + |cmdline|] == cmdline;
    var _ :- ram.WriteObj(CMDLINE_START + |cmdline|, 0, 1);
    assert ram.mem[..][CMDLINE_START..CMDLINE_START + |cmdline|] == cmdline;
    assert ram.mem[..][CMDLINE_START + |cmdline|..CMDLINE_START + |cmdline| + 1] ==
           [ram.mem[CMDLINE_START + |cmdline|]];
    return Ok(());
  }

  /** One field written over memory in which the fields before it are in place. */
  predicate FieldWritten(before: seq<byte>, after: seq<byte>, offset: nat, n: nat, value: nat) {
    && ZERO_PAGE_START + offset + n <= |after|
    && SameOutside(before, after, ZERO_PAGE_START + offset, ZERO_PAGE_START + offset + n)
    && Field(after, offset, n) == value
  }

  lemma KernelFieldsInstalled(m0: seq<byte>, m1: seq<byte>, m2: seq<byte>, m3: seq<byte>, m4: seq<byte>)
    requires FieldWritten(m0, m1, OFFSET_HDR_BOOT_FLAG, 2, KERNEL_BOOT_FLAG_MAGIC)
    requires FieldWritten(m1, m2, OFFSET_HDR_HEADER, 4, KERNEL_HDR_MAGIC)
    requires FieldWritten(m2, m3, OFFSET_HDR_VERSION, 2, BOOT_PROTOCOL_VERSION)
    requires FieldWritten(m3, m4, OFFSET_HDR_TYPE_OF_LOADER, 1, KERNEL_LOADER_OTHER)
    ensures KernelFields(m4)
    ensures SameOutside(m0, m4, ZERO_PAGE_START + OFFSET_HDR_BOOT_FLAG, ZERO_PAGE_START + OFFSET_HDR_CMDLINE_SIZE + 4)
  {
    SameWord(m1, m4, ZERO_PAGE_START + OFFSET_HDR_BOOT_FLAG, 2);
    SameWord(m2, m4, ZERO_PAGE_START + OFFSET_HDR_HEADER, 4);
    SameWord(m3, m4, ZERO_PAGE_START + OFFSET_HDR_VERSION, 2);
  }

  lemma HeaderCompleted(m4: seq<byte>, m5: seq<byte>, m6: seq<byte>, m: seq<byte>, cmdlineLen: nat)
    requires KernelFields(m4)
    requires FieldWritten(m4, m5, OFFSET_HDR_KERNEL_ALIGNMENT, 4, KERNEL_MIN_ALIGN)
    requires FieldWritten(m5, m6, OFFSET_HDR_CMD_LINE_PTR, 4, CMDLINE_START)
    requires FieldWritten(m6, m, OFFSET_HDR_CMDLINE_SIZE, 4, cmdlineLen % TWO32)
    ensures HeaderInstalled(m, cmdlineLen)
    ensures SameOutside(m4, m, ZERO_PAGE_START + OFFSET_HDR_BOOT_FLAG, ZERO_PAGE_START + OFFSET_HDR_CMDLINE_SIZE + 4)
  {
    SameWord(m4, m, ZERO_PAGE_START + OFFSET_HDR_BOOT_FLAG, 2);
    SameWord(m4, m, ZERO_PAGE_START + OFFSET_HDR_HEADER, 4);
    SameWord(m4, m, ZERO_PAGE_START + OFFSET_HDR_VERSION, 2);
    SameWord(m4, m, ZERO_PAGE_START + OFFSET_HDR_TYPE_OF_LOADER, 1);
    SameWord(m5, m, ZERO_PAGE_START + OFFSET_HDR_KERNEL_ALIGNMENT, 4);
    SameWord(m6, m, ZERO_PAGE_START + OFFSET_HDR_CMD_LINE_PTR, 4);
  }

  /** The first half of `write_zero_page`: the setup header. */
  method WriteSetupHeader(ram: GuestRam, cmdlineLen: u64) returns (r: Result<(), RamError>)
    requires ram.Valid()
    modifies ram.mem
    ensures r.Ok? <==> ZERO_PAGE_START + OFFSET_HDR_CMDLINE_SIZE + 4 <= ram.mem.Length
    ensures r.Ok? ==> HeaderInstalled(ram.mem[..], cmdlineLen)
    ensures SameOutside(old(ram.mem[..]), ram.mem[..],
                        ZERO_PAGE_START + OFFSET_HDR_BOOT_FLAG, ZERO_PAGE_START + OFFSET_HDR_CMDLINE_SIZE + 4)
  {
    WordWidths();
    var base := ZERO_PAGE_START;
    ghost var m0 := ram.mem[..];
    var _ :- ram.WriteObj(base + OFFSET_HDR_BOOT_FLAG, KERNEL_BOOT_FLAG_MAGIC, 2);
    ghost var m1 := ram.mem[..];
    var _ :- ram.WriteObj(base + OFFSET_HDR_HEADER, KERNEL_HDR_MAGIC, 4);
    ghost var m2 := ram.mem[..];
    var _ :- ram.WriteObj(base + OFFSET_HDR_VERSION, BOOT_PROTOCOL_VERSION, 2);
    ghost var m3 := ram.mem[..];
    var _ :- ram.WriteObj(base + OFFSET_HDR_TYPE_OF_LOADER, KERNEL_LOADER_OTHER, 1);
    ghost var m4 := ram.mem[..];
    KernelFieldsInstalled(m0, m1, m2, m3, m4);
    var _ :- ram.WriteObj(base + OFFSET_HDR_KERNEL_ALIGNMENT, KERNEL_MIN_ALIGN, 4);
    ghost var m5 := ram.mem[..];
    var ptr := ram.WriteObj(base + OFFSET_HDR_CMD_LINE_PTR, CMDLINE_START, 4);
    assert ptr.Ok?; // a higher field has just been written
    ghost var m6 := ram.mem[..];
    var _ :- ram.WriteObj(base + OFFSET_HDR_CMDLINE_SIZE, cmdlineLen % TWO32, 4);
    HeaderCompleted(m4, m5, m6, ram.mem[..], cmdlineLen);
    return Ok(());
  }

  /** The second half of `write_zero_page`: the e820 table, then its entry count. */
  method WriteE820(ram: GuestRam, ramBytes: u64) returns (r: Result<(), RamError>)
    requires ram.Valid() && ZERO_PAGE_START + OFFSET_HDR_CMDLINE_SIZE + 4 <= ram.mem.Length
    modifies ram.mem
    ensures r.Ok? <==> ramBytes > HIMEM_START ==> ZERO_PAGE_START + OFFSET_E820_TABLE + 20 <= ram.mem.Length
    ensures r.Ok? ==> E820(ram.mem[..]) == HighMemory(ramBytes)
    ensures SameOutside(old(ram.mem[..]), ram.mem[..],
                        ZERO_PAGE_START + OFFSET_E820_ENTRIES, ZERO_PAGE_START + OFFSET_E820_TABLE + 20)
    ensures forall a ::
              ZERO_PAGE_START + OFFSET_E820_ENTRIES < a < ZERO_PAGE_START + OFFSET_E820_TABLE && a < ram.mem.Length
              ==> ram.mem[a] == old(ram.mem[a])
  {
    WordWidths();
    var base := ZERO_PAGE_START;
    var count := 0;
    ghost var m1, m2 := ram.mem[..], ram.mem[..];
    var entryOff := base + OFFSET_E820_TABLE;
    if ramBytes > HIMEM_START {
      var _ :- ram.WriteObj(entryOff, HIMEM_START, 8);
      m1 := ram.mem[..];
      var _ :- ram.WriteObj(entryOff + 8, ramBytes - HIMEM_START, 8);
      m2 := ram.mem[..];
      var _ :- ram.WriteObj(entryOff + 16, E820_RAM, 4);
      count := 1;
    }
    ghost var m3 := ram.mem[..];
    var entries := ram.WriteObj(base + OFFSET_E820_ENTRIES, count, 1);
    assert entries.Ok?; // the header above it has been written
    ghost var m := ram.mem[..];
    if ramBytes > HIMEM_START {
      SameWord(m1, m, entryOff, 8);
      SameWord(m2, m, entryOff + 8, 8);
      SameWord(m3, m, entryOff + 16, 4);
    }
    return Ok(());
  }

  method WriteZeroPage(ram: GuestRam, cmdlineLen: u64, ramBytes: u64) returns (r: Result<(), RamError>)
    requires ram.Valid()
    modifies ram.mem
    ensures r.Ok? <==>
              ZERO_PAGE_START + (if ramBytes > HIMEM_START then OFFSET_E820_TABLE + 20 else OFFSET_HDR_CMDLINE_SIZE + 4)
              <= ram.mem.Length
    ensures r.Ok? ==> ZeroPageInstalled(ram.mem[..], cmdlineLen, ramBytes)
    ensures SameOutside(old(ram.mem[..]), ram.mem[..],
                        ZERO_PAGE_START + OFFSET_E820_ENTRIES, ZERO_PAGE_START + OFFSET_E820_TABLE + 20)
  {
    var _ :- WriteSetupHeader(ram, cmdlineLen);
    ghost var m := ram.mem[..];
    r := WriteE820(ram, ramBytes);
    if r.Ok? {
      HeaderFrame(m, ram.mem[..], cmdlineLen);
    }
  }
}
