/**
 The fixed-VHD backend: sectors laid over a flat file whose last 512 bytes are its own
 description, proved against a plain map of sectors.
 */
module Vhd {
  import opened Results
  import opened Bytes
  import opened Storage

  /** The one size whose sum with the footer length leaves 64 bits and is a whole number of sectors. */
  const WRAPPING_SIZE: nat := TWO64 - FOOTER_LEN

  datatype VhdError =
    | NoFooter
    | MissingCookie
    | Dynamic
    | Differencing
    | UnsupportedType(diskType: nat)
    | ZeroSize
    | SizeBeyondFile
    | UnalignedSize
    | SectorOutOfRange
    | WrongBufferLength
    | EndOfFile
    | HostRefused

  function OriginalSize(f: seq<byte>): nat
    requires |f| >= FOOTER_LEN
  {
    FromBE(Footer(f)[40..48])
  }

  /** How many sectors the file offers when opened. */
  function Open(f: seq<byte>): Result<nat, VhdError> {
    if |f| < FOOTER_LEN then Err(NoFooter)
    else if !HasCookie(f) then Err(MissingCookie)
    else if DiskType(f) == DISK_TYPE_DYNAMIC then Err(Dynamic)
    else if DiskType(f) == DISK_TYPE_DIFFERENCING then Err(Differencing)
    else if DiskType(f) != DISK_TYPE_FIXED then Err(UnsupportedType(DiskType(f)))
    else if OriginalSize(f) == 0 then Err(ZeroSize)
    else if Wrap64(OriginalSize(f) + FOOTER_LEN) > |f| then Err(SizeBeyondFile)
    else if OriginalSize(f) % SECTOR_SIZE != 0 then Err(UnalignedSize)
    else Ok(OriginalSize(f) / SECTOR_SIZE)
  }

  // ----- The file -----

  /** A file after `data` is written at `pos`: it grows as needed, and a gap reads as zeros. */
  function WriteAt(f: seq<byte>, pos: nat, data: seq<byte>): seq<byte> {
    var padded := if |f| < pos + |data| then f + seq(pos + |data| - |f|, _ => 0) else f;
    Patch(padded, pos, data)
  }

  class DiskFile {
    var bytes: seq<byte>

    constructor (bytes: seq<byte>)
      ensures this.bytes == bytes
    {
      this.bytes := bytes;
    }

    /** The host refuses to reach past its largest file offset. */
    method Write(pos: nat, data: seq<byte>) returns (r: Result<(), VhdError>)
      modifies this
      ensures r == if pos + |data| > MAX_FILE then Err(HostRefused) else Ok(())
      ensures bytes == if r.Ok? then WriteAt(old(bytes), pos, data) else old(bytes)
    {
      if pos + |data| > MAX_FILE {
        return Err(HostRefused);
      }
      if |bytes| < pos + |data| {
        bytes := bytes + seq(pos + |data| - |bytes|, _ => 0);
      }
      bytes := bytes[..pos] + data + bytes[pos + |data|..];
      return Ok(());
    }

    method ReadExact(pos: nat, buf: array<byte>) returns (r: Result<(), VhdError>)
      modifies buf
      ensures r.Ok? <==> pos + buf.Length <= |bytes| && pos <= MAX_FILE
      ensures r.Ok? ==> buf[..] == bytes[pos..pos + buf.Length]
      ensures r.Err? ==> r.error == if pos > MAX_FILE then HostRefused else EndOfFile
    {
      if pos > MAX_FILE {
        return Err(HostRefused);
      }
      if pos + buf.Length > |bytes| {
        return Err(EndOfFile);
      }
      forall i | 0 <= i < buf.Length {
        buf[i] := bytes[pos + i];
      }
      return Ok(());
    }
  }

  // ----- The backend -----

  class VhdFixedBackend {
    const file: DiskFile
    const sectors: nat

    constructor (file: DiskFile, sectors: nat)
      ensures this.file == file && this.sectors == sectors
    {
      this.file, this.sectors := file, sectors;
    }

    static method OpenFile(file: DiskFile) returns (r: Result<VhdFixedBackend, VhdError>)
      requires |file.bytes| <= MAX_FILE
      ensures r.Ok? <==> Open(file.bytes).Ok?
      ensures r.Ok? ==> fresh(r.value) && r.value.file == file && r.value.sectors == Open(file.bytes).value
      ensures r.Err? ==> r.error == Open(file.bytes).error
    {
      WordWidths();
      var total := |file.bytes|;
      if total < FOOTER_LEN {
        return Err(NoFooter);
      }
      var footer := file.bytes[total - FOOTER_LEN..];
      if footer[..8] != VHD_FOOTER_COOKIE {
        return Err(MissingCookie);
      }
      var diskType := FromBE(footer[60..64]);
      if diskType == DISK_TYPE_DYNAMIC {
        return Err(Dynamic);
      }
      if diskType == DISK_TYPE_DIFFERENCING {
        return Err(Differencing);
      }
      if diskType != DISK_TYPE_FIXED {
        return Err(UnsupportedType(diskType));
      }
      var originalSize := FromBE(footer[40..48]);
      if originalSize == 0 {
        return Err(ZeroSize);
      }
      if Wrap64(originalSize + FOOTER_LEN) > total {
        return Err(SizeBeyondFile);
      }
      if originalSize % SECTOR_SIZE != 0 {
        return Err(UnalignedSize);
      }
      var backend := new VhdFixedBackend(file, originalSize / SECTOR_SIZE);
      return Ok(backend);
    }

    method ReadSector(sector: u64, buf: array<byte>) returns (r: Result<(), VhdError>)
      modifies buf
      ensures var (f, answer) := Step(file.bytes, sectors, Read(sector, buf.Length));
              match answer
              case Err(e) => r == Err(e)
              case Ok(data) => r.Ok? && buf[..] == data
    {
      if sector >= sectors {
        return Err(SectorOutOfRange);
      }
      if buf.Length != SECTOR_SIZE {
        return Err(WrongBufferLength);
      }
      r := file.ReadExact(sector * SECTOR_SIZE, buf);
    }

    method WriteSector(sector: u64, data: seq<byte>) returns (r: Result<(), VhdError>)
      modifies file
      ensures var (f, answer) := Step(old(file.bytes), sectors, Write(sector, data));
              file.bytes == f && (r.Ok? <==> answer.Ok?) && (r.Err? ==> r.error == answer.error)
    {
      if sector >= sectors {
        return Err(SectorOutOfRange);
      }
      if |data| != SECTOR_SIZE {
        return Err(WrongBufferLength);
      }
      r := file.Write(sector * SECTOR_SIZE, data);
    }
  }

  // ----- Runs over the file, and over a map of sectors -----

  datatype Op = Read(sector: nat, length: nat) | Write(sector: nat, data: seq<byte>)

  type Answer = Result<seq<byte>, VhdError>

  /** One operation on the file. */
  function Step(f: seq<byte>, sectors: nat, op: Op): (seq<byte>, Answer) {
    match op
    case Read(sector, length) =>
      if sector >= sectors then (f, Err(SectorOutOfRange))
      else if length != SECTOR_SIZE then (f, Err(WrongBufferLength))
      else if sector * SECTOR_SIZE > MAX_FILE then (f, Err(HostRefused))
      else if sector * SECTOR_SIZE + SECTOR_SIZE > |f| then (f, Err(EndOfFile))
      else (f, Ok(f[sector * SECTOR_SIZE..sector * SECTOR_SIZE + SECTOR_SIZE]))
    case Write(sector, data) =>
      if sector >= sectors then (f, Err(SectorOutOfRange))
      else if |data| != SECTOR_SIZE then (f, Err(WrongBufferLength))
      else if sector * SECTOR_SIZE + SECTOR_SIZE > MAX_FILE then (f, Err(HostRefused))
      else (WriteAt(f, sector * SECTOR_SIZE, data), Ok([]))
  }

  /**
   What one operation answers and does: the sector is checked before the length, a read gives the
   512 bytes at its place, and a write puts them there.
   */
  lemma StepAnswers(f: seq<byte>, sectors: nat, op: Op)
    requires |f| <= 0x7fff_ffff_ffff_ffff
    ensures var at := op.sector * 512;
            var length := if op.Read? then op.length else |op.data|;
            var (f', answer) := Step(f, sectors, op);
            && (op.sector >= sectors ==> answer == Err(SectorOutOfRange))
            && (op.sector < sectors && length != 512 ==> answer == Err(WrongBufferLength))
            && (answer.Err? || op.Read? ==> f' == f)
            && (op.sector < sectors && length == 512 && at + 512 <= |f| ==>
                  && answer == Ok(if op.Read? then f[at..at + 512] else [])
                  && (op.Write? ==> f' == f[..at] + op.data + f[at + 512..]))
            && (op.sector < sectors && length == 512 && at + 512 > |f| ==>
                  && (op.Read? ==> answer == Err(if at > 0x7fff_ffff_ffff_ffff then HostRefused else EndOfFile))
                  && (op.Write? ==> answer == if at + 512 > 0x7fff_ffff_ffff_ffff then Err(HostRefused) else Ok([])))
  {
  }

  /** One operation on a disk that is just its sectors. */
  function DiskStep(disk: seq<seq<byte>>, op: Op): (seq<seq<byte>>, Answer) {
    match op
    case Read(sector, length) =>
      if sector >= |disk| then (disk, Err(SectorOutOfRange))
      else if length != SECTOR_SIZE then (disk, Err(WrongBufferLength))
      else (disk, Ok(disk[sector]))
    case Write(sector, data) =>
      if sector >= |disk| then (disk, Err(SectorOutOfRange))
      else if |data| != SECTOR_SIZE then (disk, Err(WrongBufferLength))
      else (disk[sector := data], Ok([]))
  }

  function Run(f: seq<byte>, sectors: nat, ops: seq<Op>): (seq<byte>, seq<Answer>) {
    if ops == [] then (f, [])
    else
      var (before, answers) := Run(f, sectors, ops[..|ops| - 1]);
      var (after, answer) := Step(before, sectors, ops[|ops| - 1]);
      (after, answers + [answer])
  }

  function DiskRun(disk: seq<seq<byte>>, ops: seq<Op>): (seq<seq<byte>>, seq<Answer>) {
    if ops == [] then (disk, [])
    else
      var (before, answers) := DiskRun(disk, ops[..|ops| - 1]);
      var (after, answer) := DiskStep(before, ops[|ops| - 1]);
      (after, answers + [answer])
  }

  /** The payload and a footer fit in the file. */
  predicate Fits(f: seq<byte>, sectors: nat) {
    sectors * SECTOR_SIZE + FOOTER_LEN <= |f| <= MAX_FILE
  }

  /** The sectors the file holds. */
  function Sectors(f: seq<byte>, sectors: nat): (disk: seq<seq<byte>>)
    requires Fits(f, sectors)
    ensures |disk| == sectors
  {
    seq(sectors, i requires 0 <= i < sectors => f[i * SECTOR_SIZE..i * SECTOR_SIZE + SECTOR_SIZE])
  }

  /** A write to one sector is seen by that sector alone, and by nothing beyond the payload. */
  lemma WriteIsLocal(f: seq<byte>, sectors: nat, sector: nat, data: seq<byte>)
    requires Fits(f, sectors) && sector < sectors && |data| == SECTOR_SIZE
    ensures var f' := WriteAt(f, sector * SECTOR_SIZE, data);
            && |f'| == |f|
            && Sectors(f', sectors) == Sectors(f, sectors)[sector := data]
            && f'[sectors * SECTOR_SIZE..] == f[sectors * SECTOR_SIZE..]
  {
    var f' := WriteAt(f, sector * SECTOR_SIZE, data);
    forall i | 0 <= i < sectors
      ensures Sectors(f', sectors)[i] == Sectors(f, sectors)[sector := data][i]
    {
    }
  }

  /**
   Every run of reads and writes answers as the map of sectors does, and never touches the bytes
   after the payload.
   */
  lemma {:induction false} RunRefinesDisk(f: seq<byte>, sectors: nat, ops: seq<Op>)
    requires Fits(f, sectors)
    ensures var (f', answers) := Run(f, sectors, ops);
            && |f'| == |f|
            && f'[sectors * SECTOR_SIZE..] == f[sectors * SECTOR_SIZE..]
            && (Sectors(f', sectors), answers) == DiskRun(Sectors(f, sectors), ops)
    decreases |ops|
  {
    if ops != [] {
      var before, op := ops[..|ops| - 1], ops[|ops| - 1];
      RunRefinesDisk(f, sectors, before);
      var (g, _) := Run(f, sectors, before);
      if op.Write? && op.sector < sectors && |op.data| == SECTOR_SIZE {
        WriteIsLocal(g, sectors, op.sector, op.data);
      }
    }
  }

  // ----- Opening -----

  /** An opened disk fits its file except at the one size that wraps. */
  lemma OpenedFitsIff(f: seq<byte>)
    requires Open(f).Ok? && |f| <= MAX_FILE
    ensures Fits(f, Open(f).value) <==> OriginalSize(f) != WRAPPING_SIZE
    ensures OriginalSize(f) == Open(f).value * SECTOR_SIZE
  {
    WordWidths();
  }

  lemma FooterInTail(f: seq<byte>, payload: nat)
    requires payload + FOOTER_LEN <= |f|
    ensures Footer(f) == f[payload..][|f| - payload - FOOTER_LEN..]
  {
  }

  /** The length and the footer of a file are as they were. */
  predicate FooterUntouched(f: seq<byte>, f': seq<byte>) {
    |f'| == |f| >= FOOTER_LEN && Footer(f') == Footer(f)
  }

  lemma RunLeavesFooter(f: seq<byte>, sectors: nat, ops: seq<Op>)
    requires Fits(f, sectors)
    ensures FooterUntouched(f, Run(f, sectors, ops).0)
  {
    RunRefinesDisk(f, sectors, ops);
    FooterInTail(f, sectors * SECTOR_SIZE);
    FooterInTail(Run(f, sectors, ops).0, sectors * SECTOR_SIZE);
  }

  /** Opening reads only the length and the footer. */
  lemma OpenDependsOnFooter(f: seq<byte>, f': seq<byte>)
    requires FooterUntouched(f, f')
    ensures Open(f') == Open(f) && ClassifyVhd(f') == ClassifyVhd(f)
  {
  }

  /** After any run on a disk that fits, the file opens again to the same number of sectors. */
  lemma ReopenAfterRun(f: seq<byte>, ops: seq<Op>)
    requires Open(f).Ok? && Fits(f, Open(f).value)
    ensures var s := Open(f).value; var f' := Run(f, s, ops).0;
            && Open(f') == Open(f)
            && Fits(f', s)
            && Sectors(f', s) == DiskRun(Sectors(f, s), ops).0
            && (forall ext: string :: Lower(ext) == "vhd" ==> DetectFormat(Some(ext), f') == Ok(VhdFixed))
  {
    var s := Open(f).value;
    var f' := Run(f, s, ops).0;
    RunRefinesDisk(f, s, ops);
    RunLeavesFooter(f, s, ops);
    OpenDependsOnFooter(f, f');
  }

  /** A write over the first byte of the cookie. */
  lemma CookieOverwritten(f: seq<byte>, sectors: nat) returns (ops: seq<Op>)
    requires HasCookie(f) && |f| / SECTOR_SIZE <= sectors && |f| <= MAX_FILE
    ensures var f' := Run(f, sectors, ops).0;
            Open(f') == Err(MissingCookie) && !FooterUntouched(f, f')
  {
    var sector := (|f| - FOOTER_LEN) / SECTOR_SIZE;
    var zeros: seq<byte> := seq(SECTOR_SIZE, _ => 0);
    ops := [Write(sector, zeros)];
    assert ops[..|ops| - 1] == [] && Run(f, sectors, []) == (f, []);
    var f' := Run(f, sectors, ops).0;
    assert f' == WriteAt(f, sector * SECTOR_SIZE, zeros);
    assert Footer(f')[..8][0] == 0;
  }

  /**
   The footer is untouched by every run exactly when the size in it does not wrap: adding the
   footer length is unchecked, and 2^64 - 512 is taken for a disk that fits.
   */
  lemma FooterSafeIff(f: seq<byte>)
    requires Open(f).Ok? && |f| <= MAX_FILE
    ensures (forall ops :: FooterUntouched(f, Run(f, Open(f).value, ops).0)) <==> OriginalSize(f) != WRAPPING_SIZE
    ensures (forall ops :: Open(Run(f, Open(f).value, ops).0) == Open(f)) <==> OriginalSize(f) != WRAPPING_SIZE
  {
    var s := Open(f).value;
    OpenedFitsIff(f);
    if OriginalSize(f) == WRAPPING_SIZE {
      var ops := CookieOverwritten(f, s);
      assert Open(Run(f, s, ops).0) != Open(f);
    } else {
      forall ops
        ensures FooterUntouched(f, Run(f, s, ops).0) && Open(Run(f, s, ops).0) == Open(f)
      {
        RunLeavesFooter(f, s, ops);
        OpenDependsOnFooter(f, Run(f, s, ops).0);
      }
    }
  }

  /** A file that is nothing but such a footer opens with 2^55 - 1 sectors. */
  lemma WrappingSizeOpens(f: seq<byte>)
    requires |f| == FOOTER_LEN && f[..8] == VHD_FOOTER_COOKIE
    requires f[40..48] == [0xff, 0xff, 0xff, 0xff, 0xff, 0xff, 0xfe, 0x00] && f[60..64] == [0, 0, 0, 2]
    ensures OriginalSize(f) == WRAPPING_SIZE && Open(f) == Ok(0x7f_ffff_ffff_ffff)
  {
    assert Footer(f) == f;
    BigEndian8([0xff, 0xff, 0xff, 0xff, 0xff, 0xff, 0xfe, 0x00]);
    BigEndian4([0, 0, 0, 2]);
  }

  lemma BigEndian4(s: seq<byte>)
    requires |s| == 4
    ensures FromBE(s) == s[0] as int * 0x100_0000 + s[1] as int * 0x1_0000 + s[2] as int * 0x100 + s[3]
  {
    assert s[..3][..2] == s[..2] && s[..2][..1] == s[..1] && s[..1][..0] == [];
    assert FromBE(s[..1]) == s[0];
    assert FromBE(s[..2]) == 0x100 * FromBE(s[..1]) + s[1];
    assert FromBE(s[..3]) == 0x100 * FromBE(s[..2]) + s[2];
  }

  lemma BigEndian8(s: seq<byte>)
    requires |s| == 8
    ensures FromBE(s) ==
            FromBE(s[..4]) * TWO32 + s[4] as int * 0x100_0000 + s[5] as int * 0x1_0000 + s[6] as int * 0x100 + s[7]
    ensures FromBE(s[..4]) == s[0] as int * 0x100_0000 + s[1] as int * 0x1_0000 + s[2] as int * 0x100 + s[3]
  {
    BigEndian4(s[..4]);
    assert s[..7][..6] == s[..6] && s[..6][..5] == s[..5] && s[..5][..4] == s[..4];
    assert FromBE(s[..5]) == 0x100 * FromBE(s[..4]) + s[4];
    assert FromBE(s[..6]) == 0x100 * FromBE(s[..5]) + s[5];
    assert FromBE(s[..7]) == 0x100 * FromBE(s[..6]) + s[6];
  }

  // ----- Detection and opening agree -----

  /** With the extension, exactly the openable fixed disks are those classified fixed whose size is sound. */
  lemma DetectAgreesWithOpen(ext: string, f: seq<byte>)
    requires Lower(ext) == "vhd" && |f| <= MAX_FILE
    ensures Open(f).Ok? ==> DetectFormat(Some(ext), f) == Ok(VhdFixed)
    ensures DetectFormat(Some(ext), f) == Ok(VhdFixed) ==>
              (Open(f).Ok? <==> && OriginalSize(f) > 0
                                && OriginalSize(f) % SECTOR_SIZE == 0
                                && (OriginalSize(f) + FOOTER_LEN <= |f| || OriginalSize(f) == WRAPPING_SIZE))
  {
    WordWidths();
  }

  /** Without a recognised extension the payload has a say: its first bytes may claim another format. */
  lemma DetectWithoutExtensionIff(ext: Option<string>, f: seq<byte>)
    requires !Recognised(ext) && Open(f).Ok?
    ensures DetectFormat(ext, f) == Ok(VhdFixed) <==> f[..8] != VHDX_HEAD_MAGIC
  {
  }
}
