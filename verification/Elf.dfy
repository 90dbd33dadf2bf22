/** The ELF64 loader: from the bytes of a kernel file to guest memory. */
module Elf {
  import opened Results
  import opened Bytes
  import opened Ram

  const ELFMAG: seq<byte> := [0x7f, 0x45, 0x4c, 0x46]
  const ELFCLASS64: byte := 2
  const ELFDATA2LSB: byte := 1
  const EM_X86_64: u16 := 62
  const PT_LOAD: u32 := 1
  const HEADER_SIZE: nat := 64
  const MIN_PHENTSIZE: nat := 56

  /** `SlicePanic`: indexing past the file, reached only once an unchecked addition has wrapped. */
  datatype ElfError =
    | NotElf
    | NotElf64
    | NotLittleEndian
    | WrongMachine
    | BadPhentsize
    | OffsetOverflow(header: nat)
    | HeaderPastEnd(header: nat)
    | SlicePanic(header: nat)
    | SegmentPastEnd(header: nat)
    | RamWrite(header: nat, cause: RamError)
    | NothingLoaded

  // ----- The file as the ELF specification reads it -----

  /** The word at `o`, or 0 past the end of the file. */
  function Word(f: seq<byte>, o: nat, n: nat): (v: nat)
    ensures v < Pow256(n)
  {
    if o + n <= |f| then WordAt(f, o, n) else 0
  }

  predicate IsKernel(f: seq<byte>) {
    && |f| >= HEADER_SIZE
    && f[..4] == ELFMAG
    && f[4] == ELFCLASS64
    && f[5] == ELFDATA2LSB
    && Word(f, 18, 2) == EM_X86_64
    && Phentsize(f) >= MIN_PHENTSIZE
  }

  function Entry(f: seq<byte>): nat { Word(f, 24, 8) }
  function Phoff(f: seq<byte>): nat { Word(f, 32, 8) }
  function Phentsize(f: seq<byte>): nat { Word(f, 54, 2) }
  function Phnum(f: seq<byte>): nat { Word(f, 56, 2) }

  function HeaderAt(f: seq<byte>, i: nat): nat { Phoff(f) + i * Phentsize(f) }

  predicate HeaderInFile(f: seq<byte>, i: nat) { HeaderAt(f, i) + Phentsize(f) <= |f| }

  /** The fields of a program header that the loader looks at. */
  datatype Phdr = Phdr(ptype: u32, offset: u64, paddr: u64, filesz: u64, memsz: u64) {

    predicate Loadable() { ptype == PT_LOAD }

    /** The image in memory ends `max(filesz, memsz)` past the physical address. */
    function ImageEnd(): nat { paddr + if memsz > filesz then memsz else filesz }

    predicate InFile(f: seq<byte>) { offset + filesz <= |f| }

    predicate Good(f: seq<byte>, ramSize: nat) {
      Loadable() ==> InFile(f) && ImageEnd() <= ramSize
    }

    predicate Covers(a: nat) { Loadable() && paddr <= a < ImageEnd() }

    /** What the segment wants at address `a`: its file byte, or the zero fill after it. */
    function ByteAt(f: seq<byte>, a: nat): byte
      requires Covers(a) && InFile(f)
    {
      if a < paddr + filesz then f[offset + a - paddr] else 0
    }
  }

  function PhdrAt(f: seq<byte>, off: nat): Phdr {
    WordWidths();
    Phdr(Word(f, off, 4), Word(f, off + 8, 8), Word(f, off + 24, 8), Word(f, off + 32, 8), Word(f, off + 40, 8))
  }

  function Header(f: seq<byte>, i: nat): Phdr { PhdrAt(f, HeaderAt(f, i)) }

  /** Headers `0..n` lie in the file, and so do their segments' bytes; their images lie in RAM. */
  predicate HeadersGood(f: seq<byte>, n: nat, ramSize: nat) {
    forall i :: 0 <= i < n ==> HeaderInFile(f, i) && Header(f, i).Good(f, ramSize)
  }

  predicate AnyLoadable(f: seq<byte>, n: nat) {
    n > 0 && (Header(f, n - 1).Loadable() || AnyLoadable(f, n - 1))
  }

  lemma {:induction false} AnyLoadableIff(f: seq<byte>, n: nat)
    ensures AnyLoadable(f, n) <==> exists i :: 0 <= i < n && Header(f, i).Loadable()
  {
    if n > 0 {
      AnyLoadableIff(f, n - 1);
    }
  }

  /** Exactly the files the loader accepts into a RAM of `ramSize` bytes. */
  predicate Acceptable(f: seq<byte>, ramSize: nat) {
    && IsKernel(f)
    && HeadersGood(f, Phnum(f), ramSize)
    && (exists i :: 0 <= i < Phnum(f) && Header(f, i).Loadable())
  }

  /** The byte at `a` once headers `0..n` are loaded over `m`: the last one that covers `a` decides. */
  function LoadedByte(f: seq<byte>, n: nat, m: seq<byte>, a: nat): byte
    requires a < |m| && HeadersGood(f, n, |m|)
  {
    if n == 0 then m[a]
    else
      var last := Header(f, n - 1);
      if last.Covers(a) then last.ByteAt(f, a) else LoadedByte(f, n - 1, m, a)
  }

  /** `m'` is `m` with headers `0..n` loaded. */
  predicate Loaded(f: seq<byte>, n: nat, m: seq<byte>, m': seq<byte>)
    requires HeadersGood(f, n, |m|)
  {
    && |m'| == |m|
    && forall a {:trigger m'[a]} :: 0 <= a < |m| ==> m'[a] == LoadedByte(f, n, m, a)
  }

  /** Last writer wins, stated without recursion. */
  lemma {:induction false} LastWriterWins(f: seq<byte>, n: nat, m: seq<byte>, a: nat, i: nat)
    requires a < |m| && HeadersGood(f, n, |m|)
    requires i < n && Header(f, i).Covers(a)
    requires forall j :: i < j < n ==> !Header(f, j).Covers(a)
    ensures LoadedByte(f, n, m, a) == Header(f, i).ByteAt(f, a)
  {
    if i < n - 1 {
      LastWriterWins(f, n - 1, m, a, i);
    }
  }

  /** What no loadable segment covers keeps its old value. */
  lemma {:induction false} UncoveredUnchanged(f: seq<byte>, n: nat, m: seq<byte>, a: nat)
    requires a < |m| && HeadersGood(f, n, |m|)
    requires forall j :: 0 <= j < n ==> !Header(f, j).Covers(a)
    ensures LoadedByte(f, n, m, a) == m[a]
  {
    if n > 0 {
      UncoveredUnchanged(f, n - 1, m, a);
    }
  }

  /** `after` is `before` with the whole image of segment `h` laid over it. */
  predicate LaidOver(f: seq<byte>, h: Phdr, before: seq<byte>, after: seq<byte>)
    requires h.InFile(f)
  {
    && |after| == |before|
    && forall a {:trigger after[a]} :: 0 <= a < |before| ==>
         after[a] == if h.Covers(a) then h.ByteAt(f, a) else before[a]
  }

  /** What the failing header `i` leaves behind: its file bytes, if only the zero fill after them failed. */
  function LeftBehind(f: seq<byte>, i: nat, before: seq<byte>): (after: seq<byte>)
    ensures |after| == |before|
  {
    var h := Header(f, i);
    if HeaderInFile(f, i) && h.Loadable() && h.InFile(f) && h.paddr + h.filesz <= |before|
    then Patch(before, h.paddr, f[h.offset..h.offset + h.filesz])
    else before
  }

  /** Memory when loading stops at header `i`: everything before it, and what it left behind itself. */
  ghost predicate StoppedAt(f: seq<byte>, i: nat, m: seq<byte>, m': seq<byte>) {
    && HeadersGood(f, i, |m|)
    && exists before :: Loaded(f, i, m, before) && m' == LeftBehind(f, i, before)
  }

  // ----- Which error -----

  /** The first check a file header fails. */
  function IdentFailure(f: seq<byte>): ElfError
    requires !IsKernel(f)
  {
    if |f| < HEADER_SIZE || f[..4] != ELFMAG then NotElf
    else if f[4] != ELFCLASS64 then NotElf64
    else if f[5] != ELFDATA2LSB then NotLittleEndian
    else if Word(f, 18, 2) != EM_X86_64 then WrongMachine
    else BadPhentsize
  }

  lemma TwoByteWord(f: seq<byte>, a: nat)
    requires a + 2 <= |f|
    ensures WordAt(f, a, 2) == f[a] as int + 256 * f[a + 1] as int
  {
    var w := f[a..a + 2];
    assert FromLE(w) == w[0] + 256 * FromLE(w[1..]);
    assert FromLE(w[1..]) == w[1] + 256 * FromLE(w[1..][1..]);
  }

  /** Which files are kernels, byte by byte, and what is said of the others: the first byte that differs decides. */
  lemma KernelBytes(f: seq<byte>)
    ensures IsKernel(f) <==>
            && |f| >= 64 && f[..4] == [0x7f, 0x45, 0x4c, 0x46] && f[4] == 2 && f[5] == 1
            && f[18] == 62 && f[19] == 0 && f[54] as int + 256 * f[55] as int >= 56
    ensures !IsKernel(f) ==>
              IdentFailure(f) ==
              if |f| < 64 || f[..4] != [0x7f, 0x45, 0x4c, 0x46] then NotElf
              else if f[4] != 2 then NotElf64
              else if f[5] != 1 then NotLittleEndian
              else if f[18] != 62 || f[19] != 0 then WrongMachine
              else BadPhentsize
  {
    if |f| >= 64 {
      TwoByteWord(f, 18);
      TwoByteWord(f, 54);
    }
  }

  /** What is wrong with a header outside the file; the end of one that leaves 64 bits is compared after wrapping. */
  function OutsideFile(f: seq<byte>, i: nat): ElfError {
    var end := HeaderAt(f, i) + Phentsize(f);
    if HeaderAt(f, i) >= TWO64 then OffsetOverflow(i)
    else if end >= TWO64 && end - TWO64 <= |f| then SlicePanic(i)
    else HeaderPastEnd(i)
  }

  /** What is wrong with a header that is not good. */
  function HeaderFailure(f: seq<byte>, i: nat, ramSize: nat): ElfError {
    var h := Header(f, i);
    if !HeaderInFile(f, i) then OutsideFile(f, i)
    else if !h.InFile(f) then SegmentPastEnd(i)
    else RamWrite(i, OutOfReach(h.paddr + if h.paddr + h.filesz > ramSize then h.filesz else h.memsz))
  }

  lemma LoadOneMore(f: seq<byte>, i: nat, next: nat, m: seq<byte>, before: seq<byte>, after: seq<byte>)
    requires next == i + 1 && HeadersGood(f, next, |m|) && Loaded(f, i, m, before)
    requires if Header(f, i).Loadable() then LaidOver(f, Header(f, i), before, after) else after == before
    ensures Loaded(f, next, m, after)
  {
  }

  lemma OneMoreHeader(f: seq<byte>, i: nat, next: nat, ramSize: nat)
    requires next == i + 1
    ensures AnyLoadable(f, next) <==> AnyLoadable(f, i) || Header(f, i).Loadable()
    ensures HeadersGood(f, next, ramSize) <==>
            HeadersGood(f, i, ramSize) && HeaderInFile(f, i) && Header(f, i).Good(f, ramSize)
  {
  }

  lemma HeadersGoodPrefix(f: seq<byte>, i: nat, n: nat, ramSize: nat)
    requires i <= n
    ensures HeadersGood(f, n, ramSize) ==> HeadersGood(f, i, ramSize)
  {
  }

  lemma StopHere(f: seq<byte>, i: nat, m: seq<byte>, before: seq<byte>, after: seq<byte>)
    requires HeadersGood(f, i, |m|) && Loaded(f, i, m, before) && after == LeftBehind(f, i, before)
    ensures StoppedAt(f, i, m, after)
  {
  }

  // ----- The loader -----

  /** The checks and reads at the head of an iteration. */
  method ReadHeader(f: seq<byte>, i: nat) returns (r: Result<Phdr, ElfError>)
    requires IsKernel(f) && |f| <= MAX_FILE
    ensures r.Ok? <==> HeaderInFile(f, i)
    ensures r.Ok? ==> r.value == Header(f, i)
    ensures r.Err? ==> r.error == OutsideFile(f, i)
  {
    var phoff, phentsize := Phoff(f), Phentsize(f);
    var start := i * phentsize;
    if phoff + start >= TWO64 {
      return Err(OffsetOverflow(i));
    }
    var off := phoff + start;
    if Wrap64(off + phentsize) > |f| {
      return Err(HeaderPastEnd(i));
    }
    if off + 4 > |f| {
      return Err(SlicePanic(i));
    }
    return Ok(PhdrAt(f, off));
  }

  /** Memory with the file bytes of the segment copied in ... */
  function Copied(f: seq<byte>, h: Phdr, m: seq<byte>): (r: seq<byte>)
    requires h.InFile(f) && h.paddr + h.filesz <= |m|
    ensures |r| == |m|
  {
    Patch(m, h.paddr, f[h.offset..h.offset + h.filesz])
  }

  /** ... and with the rest of its image zeroed. */
  function Filled(h: Phdr, m: seq<byte>): (r: seq<byte>)
    requires h.ImageEnd() <= |m|
    ensures |r| == |m|
  {
    if h.memsz > h.filesz then Patch(m, h.paddr + h.filesz, seq(h.memsz - h.filesz, _ => 0)) else m
  }

  lemma SegmentComplete(f: seq<byte>, h: Phdr, before: seq<byte>)
    requires h.Loadable() && h.InFile(f) && h.ImageEnd() <= |before|
    ensures LaidOver(f, h, before, Filled(h, Copied(f, h, before)))
  {
  }

  method CopyFileBytes(f: seq<byte>, h: Phdr, ram: GuestRam) returns (r: Result<(), RamError>)
    requires ram.Valid() && h.InFile(f)
    modifies ram.mem
    ensures r.Ok? <==> h.paddr + h.filesz <= ram.mem.Length
    ensures r.Err? ==> r.error == OutOfReach(h.paddr + h.filesz)
    ensures ram.mem[..] == if r.Ok? then Copied(f, h, old(ram.mem[..])) else old(ram.mem[..])
  {
    r := ram.WriteSlice(h.paddr, f[h.offset..h.offset + h.filesz]);
  }

  method FillZeros(h: Phdr, ram: GuestRam) returns (r: Result<(), RamError>)
    requires ram.Valid() && h.paddr + h.filesz <= ram.mem.Length
    modifies ram.mem
    ensures r.Ok? <==> h.ImageEnd() <= ram.mem.Length
    ensures r.Err? ==> r.error == OutOfReach(h.paddr + h.memsz)
    ensures ram.mem[..] == if r.Ok? then Filled(h, old(ram.mem[..])) else old(ram.mem[..])
  {
    if h.memsz <= h.filesz {
      return Ok(());
    }
    r := ram.WriteSlice(h.paddr + h.filesz, seq(h.memsz - h.filesz, _ => 0));
  }

  /** One loadable segment: copy its file bytes, then zero the rest. */
  method LoadSegment(f: seq<byte>, i: nat, h: Phdr, ram: GuestRam) returns (r: Result<(), ElfError>)
    requires ram.Valid() && HeaderInFile(f, i) && h == Header(f, i)
    requires h.Loadable() && h.InFile(f)
    modifies ram.mem
    ensures r.Ok? <==> h.ImageEnd() <= ram.mem.Length
    ensures r.Ok? ==> LaidOver(f, h, old(ram.mem[..]), ram.mem[..])
    ensures r.Err? ==> r.error == HeaderFailure(f, i, ram.mem.Length)
    ensures r.Err? ==> ram.mem[..] == LeftBehind(f, i, old(ram.mem[..]))
  {
    ghost var before := ram.mem[..];
    var copied := CopyFileBytes(f, h, ram);
    if copied.Err? {
      return Err(RamWrite(i, copied.error));
    }
    var filled := FillZeros(h, ram);
    if filled.Err? {
      return Err(RamWrite(i, filled.error));
    }
    SegmentComplete(f, h, before);
    return Ok(());
  }

  /** The checks on the file header, in the order they are made. */
  method CheckIdent(f: seq<byte>) returns (r: Result<(), ElfError>)
    ensures r.Ok? <==> IsKernel(f)
    ensures r.Err? ==> r.error == IdentFailure(f)
    ensures r.Ok? <==>
            && |f| >= 64 && f[..4] == [0x7f, 0x45, 0x4c, 0x46] && f[4] == 2 && f[5] == 1
            && f[18] == 62 && f[19] == 0 && f[54] as int + 256 * f[55] as int >= 56
  {
    KernelBytes(f);
    if |f| < HEADER_SIZE || f[..4] != ELFMAG {
      return Err(NotElf);
    }
    if f[4] != ELFCLASS64 {
      return Err(NotElf64);
    }
    if f[5] != ELFDATA2LSB {
      return Err(NotLittleEndian);
    }
    if WordAt(f, 18, 2) != EM_X86_64 {
      return Err(WrongMachine);
    }
    if Phentsize(f) < MIN_PHENTSIZE {
      return Err(BadPhentsize);
    }
    return Ok(());
  }

  /** One iteration over the program headers; answers whether it loaded a segment. */
  method LoadHeader(f: seq<byte>, i: nat, ram: GuestRam) returns (r: Result<bool, ElfError>)
    requires ram.Valid() && IsKernel(f) && |f| <= MAX_FILE
    modifies ram.mem
    ensures r.Ok? <==> HeaderInFile(f, i) && Header(f, i).Good(f, ram.mem.Length)
    ensures r.Ok? ==> r.value == Header(f, i).Loadable()
    ensures r.Ok? ==>
              if r.value then LaidOver(f, Header(f, i), old(ram.mem[..]), ram.mem[..])
              else ram.mem[..] == old(ram.mem[..])
    ensures r.Err? ==> r.error == HeaderFailure(f, i, ram.mem.Length)
    ensures r.Err? ==> ram.mem[..] == LeftBehind(f, i, old(ram.mem[..]))
  {
    var h :- ReadHeader(f, i);
    if !h.Loadable() {
      return Ok(false);
    }
    if h.offset + h.filesz >= TWO64 || h.offset + h.filesz > |f| {
      return Err(SegmentPastEnd(i));
    }
    var _ :- LoadSegment(f, i, h, ram);
    return Ok(true);
  }

  /** The iteration again, in terms of the memory `m` that loading started from. */
  method LoadNext(f: seq<byte>, i: nat, ram: GuestRam, ghost m: seq<byte>, ghost next: nat)
    returns (r: Result<bool, ElfError>)
    requires ram.Valid() && IsKernel(f) && |f| <= MAX_FILE && next == i + 1
    requires HeadersGood(f, i, |m|) && Loaded(f, i, m, ram.mem[..])
    modifies ram.mem
    ensures r.Ok? <==> HeadersGood(f, next, |m|)
    ensures r.Ok? ==> Loaded(f, next, m, ram.mem[..])
    ensures r.Ok? ==> (AnyLoadable(f, next) <==> AnyLoadable(f, i) || r.value)
    ensures r.Ok? && !r.value ==> ram.mem[..] == old(ram.mem[..])
    ensures r.Err? ==> r.error == HeaderFailure(f, i, |m|) && StoppedAt(f, i, m, ram.mem[..])
  {
    ghost var before := ram.mem[..];
    r := LoadHeader(f, i, ram);
    OneMoreHeader(f, i, next, |m|);
    if r.Ok? {
      LoadOneMore(f, i, next, m, before, ram.mem[..]);
    } else {
      StopHere(f, i, m, before, ram.mem[..]);
    }
  }

  /** The walk over the program headers; `stop` is the header at which a failing walk stopped. */
  method LoadHeaders(f: seq<byte>, ram: GuestRam) returns (r: Result<bool, ElfError>, ghost stop: nat)
    requires ram.Valid() && IsKernel(f) && |f| <= MAX_FILE
    modifies ram.mem
    ensures r.Ok? <==> HeadersGood(f, Phnum(f), ram.mem.Length)
    ensures r.Ok? ==> r.value == AnyLoadable(f, Phnum(f)) && Loaded(f, Phnum(f), old(ram.mem[..]), ram.mem[..])
    ensures r.Ok? && !r.value ==> ram.mem[..] == old(ram.mem[..])
    ensures r.Err? ==> stop < Phnum(f) && !HeadersGood(f, stop + 1, ram.mem.Length)
    ensures r.Err? ==> r.error == HeaderFailure(f, stop, ram.mem.Length)
    ensures r.Err? ==> StoppedAt(f, stop, old(ram.mem[..]), ram.mem[..])
  {
    ghost var m := ram.mem[..];
    var loadedAny := false;
    for i := 0 to Phnum(f)
      invariant HeadersGood(f, i, |m|)
      invariant Loaded(f, i, m, ram.mem[..])
      invariant loadedAny == AnyLoadable(f, i)
      invariant !loadedAny ==> ram.mem[..] == m
    {
      ghost var next: nat := i + 1;
      var step := LoadNext(f, i, ram, m, next);
      if step.Err? {
        HeadersGoodPrefix(f, next, Phnum(f), |m|);
        return Err(step.error), i;
      }
      loadedAny := loadedAny || step.value;
    }
    return Ok(loadedAny), 0;
  }

  method Load(f: seq<byte>, ram: GuestRam) returns (r: Result<nat, ElfError>, ghost stop: nat)
    requires ram.Valid() && |f| <= MAX_FILE
    modifies ram.mem
    ensures r.Ok? <==> Acceptable(f, ram.mem.Length)
    ensures r.Ok? ==> r.value == Entry(f)
    ensures r.Ok? ==> Loaded(f, Phnum(f), old(ram.mem[..]), ram.mem[..])
    ensures r.Ok? ==> |f| >= 64 && f[..6] == [0x7f, 0x45, 0x4c, 0x46, 2, 1] && f[18] == 62 && f[19] == 0
    // A file without a proper header, or with nothing to load, leaves memory alone.
    ensures !IsKernel(f) ==> r == Err(IdentFailure(f)) && ram.mem[..] == old(ram.mem[..])
    ensures IsKernel(f) && r.Err? && HeadersGood(f, Phnum(f), ram.mem.Length) ==>
              r == Err(NothingLoaded) && ram.mem[..] == old(ram.mem[..])
    // Otherwise loading stops at the first bad header.
    ensures IsKernel(f) && !HeadersGood(f, Phnum(f), ram.mem.Length) ==>
              && stop < Phnum(f) && !HeadersGood(f, stop + 1, ram.mem.Length)
              && r == Err(HeaderFailure(f, stop, ram.mem.Length))
              && StoppedAt(f, stop, old(ram.mem[..]), ram.mem[..])
  {
    stop := 0;
    var ident := CheckIdent(f);
    assert ident.Ok? ==> f[..6] == f[..4] + [f[4], f[5]];
    if ident.Err? {
      return Err(ident.error), 0;
    }
    var loaded;
    loaded, stop := LoadHeaders(f, ram);
    AnyLoadableIff(f, Phnum(f));
    if loaded.Err? {
      return Err(loaded.error), stop;
    }
    if !loaded.value {
      return Err(NothingLoaded), stop;
    }
    return Ok(Entry(f)), stop;
  }
}
