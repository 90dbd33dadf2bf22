/** Disk image formats: what an image is taken for, from its extension and its bytes. */
module Storage {
  import opened Results
  import opened Bytes

  const SECTOR_SIZE: nat := 512
  const FOOTER_LEN: nat := 512

  /** "conectix" */
  const VHD_FOOTER_COOKIE: seq<byte> := [0x63, 0x6f, 0x6e, 0x65, 0x63, 0x74, 0x69, 0x78]
  /** "vhdxfile" */
  const VHDX_HEAD_MAGIC: seq<byte> := [0x76, 0x68, 0x64, 0x78, 0x66, 0x69, 0x6c, 0x65]

  const DISK_TYPE_FIXED: nat := 2
  const DISK_TYPE_DYNAMIC: nat := 3
  const DISK_TYPE_DIFFERENCING: nat := 4

  datatype Format = Raw | VhdFixed | VhdDynamic | Vhdx

  datatype FormatError = TooSmall | NoCookie | UnsupportedDiskType(diskType: nat)

  /** The last 512 bytes of an image. */
  function Footer(f: seq<byte>): (footer: seq<byte>)
    requires |f| >= FOOTER_LEN
    ensures |footer| == FOOTER_LEN
  {
    f[|f| - FOOTER_LEN..]
  }

  predicate HasCookie(f: seq<byte>) {
    |f| >= FOOTER_LEN && Footer(f)[..8] == VHD_FOOTER_COOKIE
  }

  function DiskType(f: seq<byte>): nat
    requires |f| >= FOOTER_LEN
  {
    FromBE(Footer(f)[60..64])
  }

  function ClassifyVhd(f: seq<byte>): Result<Format, FormatError> {
    if |f| < FOOTER_LEN then Err(TooSmall)
    else if !HasCookie(f) then Err(NoCookie)
    else if DiskType(f) == DISK_TYPE_FIXED then Ok(VhdFixed)
    else if DiskType(f) == DISK_TYPE_DYNAMIC || DiskType(f) == DISK_TYPE_DIFFERENCING then Ok(VhdDynamic)
    else Err(UnsupportedDiskType(DiskType(f)))
  }

  function Lower(s: string): string {
    seq(|s|, i requires 0 <= i < |s| => if 'A' <= s[i] <= 'Z' then s[i] - 'A' + 'a' else s[i])
  }

  /** `e` is `t` with any of its letters in upper case, 32 below the lower-case one in ASCII. */
  predicate AnyCase(e: string, t: string) {
    && |e| == |t|
    && forall i :: 0 <= i < |e| ==> e[i] == t[i] || ('a' <= t[i] <= 'z' && e[i] as int == t[i] as int - 32)
  }

  predicate NoCapitals(t: string) {
    forall i :: 0 <= i < |t| ==> !('A' <= t[i] <= 'Z')
  }

  lemma LowerIff(e: string, t: string)
    requires NoCapitals(t)
    ensures Lower(e) == t <==> AnyCase(e, t)
  {
    if AnyCase(e, t) {
      assert forall i :: 0 <= i < |e| ==> Lower(e)[i] == t[i];
    }
    if Lower(e) == t {
      assert forall i :: 0 <= i < |e| ==> Lower(e)[i] == t[i];
    }
  }

  /**
   The extensions that decide, in any mixture of cases, and what they decide; other extensions
   leave it to the bytes.
   */
  lemma ExtensionDecides(e: string, f: seq<byte>)
    ensures AnyCase(e, "raw") || AnyCase(e, "img") || AnyCase(e, "ext4") ==> DetectFormat(Some(e), f) == Ok(Raw)
    ensures AnyCase(e, "vhdx") ==> DetectFormat(Some(e), f) == Ok(Vhdx)
    ensures AnyCase(e, "vhd") ==> DetectFormat(Some(e), f) == ClassifyVhd(f)
    ensures !AnyCase(e, "raw") && !AnyCase(e, "img") && !AnyCase(e, "ext4")
            && !AnyCase(e, "vhdx") && !AnyCase(e, "vhd") ==>
              DetectFormat(Some(e), f) == DetectByBytes(f)
  {
    LowerIff(e, "raw");
    LowerIff(e, "img");
    LowerIff(e, "ext4");
    LowerIff(e, "vhdx");
    LowerIff(e, "vhd");
    if AnyCase(e, "vhd") {
      assert |Lower(e)| == 3 && Lower(e)[0] == 'v';
    }
  }

  /** So an upper-case extension over bytes without the cookie is an error, as the lower-case one is. */
  lemma UpperCaseVhd(f: seq<byte>)
    requires |f| >= 512 && f[|f| - 512..|f| - 504] != [0x63, 0x6f, 0x6e, 0x65, 0x63, 0x74, 0x69, 0x78]
    ensures DetectFormat(Some("VHD"), f) == Err(NoCookie)
  {
    ExtensionDecides("VHD", f);
    assert Footer(f)[..8] == f[|f| - 512..|f| - 504];
  }

  predicate HasVhdxMagic(f: seq<byte>) {
    |f| >= 8 && f[..8] == VHDX_HEAD_MAGIC
  }

  predicate RawExtension(ext: Option<string>) {
    ext.Some? && Lower(ext.value) in {"raw", "img", "ext4"}
  }

  predicate VhdExtension(ext: Option<string>) {
    ext.Some? && Lower(ext.value) == "vhd"
  }

  predicate VhdxExtension(ext: Option<string>) {
    ext.Some? && Lower(ext.value) == "vhdx"
  }

  predicate Recognised(ext: Option<string>) {
    RawExtension(ext) || VhdExtension(ext) || VhdxExtension(ext)
  }

  function DetectFormat(ext: Option<string>, f: seq<byte>): Result<Format, FormatError> {
    if RawExtension(ext) then Ok(Raw)
    else if VhdExtension(ext) then ClassifyVhd(f)
    else if VhdxExtension(ext) then Ok(Vhdx)
    else if HasVhdxMagic(f) then Ok(Vhdx)
    else if HasCookie(f) then ClassifyVhd(f)
    else Ok(Raw)
  }

  // ----- Extension and bytes -----

  /** What the bytes alone say. */
  function DetectByBytes(f: seq<byte>): Result<Format, FormatError> {
    DetectFormat(None, f)
  }

  /**
   The user guide says a format found by extension is then verified by magic. It is for `.vhd`;
   for the rest the answer is what the bytes say only if they happen to agree.
   */
  lemma ExtensionAgreesWithBytesIff(ext: Option<string>, f: seq<byte>)
    ensures DetectFormat(ext, f) == DetectByBytes(f) <==>
            && (RawExtension(ext) ==> !HasVhdxMagic(f) && !HasCookie(f))
            && (VhdExtension(ext) ==> !HasVhdxMagic(f) && HasCookie(f))
            && (VhdxExtension(ext) ==> HasVhdxMagic(f))
  {
  }

  /** Nothing is verified here: an empty file is taken for a VHDX image by its name. */
  lemma VhdxByNameOnly()
    ensures DetectFormat(Some("vhdx"), []) == Ok(Vhdx) && DetectByBytes([]) == Ok(Raw)
  {
    assert Lower("vhdx") == "vhdx";
  }

  /**
   The documentation says detection fails only on I/O errors. It also fails on a bad VHD footer,
   exactly when it looks at one.
   */
  lemma DetectFailsIff(ext: Option<string>, f: seq<byte>)
    ensures DetectFormat(ext, f).Err? <==>
            || (VhdExtension(ext) && !HasCookie(f))
            || ((VhdExtension(ext) || (!Recognised(ext) && !HasVhdxMagic(f))) && HasCookie(f)
                && DiskType(f) !in {DISK_TYPE_FIXED, DISK_TYPE_DYNAMIC, DISK_TYPE_DIFFERENCING})
  {
  }

  lemma EmptyVhdFails()
    ensures DetectFormat(Some("vhd"), []) == Err(TooSmall)
  {
    assert Lower("vhd") == "vhd";
  }
}
