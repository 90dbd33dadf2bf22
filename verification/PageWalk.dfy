/**
 The 4-level translation of Intel SDM Vol. 3A, section 4.5, as a reader of guest
 memory: what a vCPU whose CR3 holds `cr3` makes of a 48-bit linear address.
 The reference against which the tables written at boot are judged.
 */
module PageWalk {
  import opened Results
  import opened Arithmetic
  import opened Bytes
  import opened Boot

  const KIB4: nat := 0x1000
  const MIB2: nat := 0x20_0000
  const GIB1: nat := 0x4000_0000
  const GIB512: nat := 0x80_0000_0000
  const LINEAR_LIMIT: nat := 0x1_0000_0000_0000

  datatype Translation = Fault | Maps(pa: nat, writable: bool)

  predicate Present(e: nat) { e % 2 == 1 }
  predicate Writable(e: nat) { e / 2 % 2 == 1 }
  predicate PageSize(e: nat) { e / 128 % 2 == 1 }

  /** Bits 51 down to `log2(align)` of an entry. */
  function Frame(e: nat, align: nat): nat
    requires align > 0
  {
    e % 0x10_0000_0000_0000 / align * align
  }

  /** A present entry of the table at `table`; entries outside RAM are not present. */
  function Entry(m: seq<byte>, table: nat, index: nat): Option<nat> {
    if table + index * 8 + 8 <= |m| && Present(WordAt(m, table + index * 8, 8))
    then Some(WordAt(m, table + index * 8, 8))
    else None
  }

  function Translate(m: seq<byte>, cr3: nat, va: nat): Translation {
    match Entry(m, cr3, va / GIB512 % 512)
    case None => Fault
    case Some(e4) =>
      match Entry(m, Frame(e4, KIB4), va / GIB1 % 512)
      case None => Fault
      case Some(e3) =>
        if PageSize(e3) then Maps(Frame(e3, GIB1) + va % GIB1, Writable(e4) && Writable(e3))
        else
          match Entry(m, Frame(e3, KIB4), va / MIB2 % 512)
          case None => Fault
          case Some(e2) =>
            if PageSize(e2) then Maps(Frame(e2, MIB2) + va % MIB2, Writable(e4) && Writable(e3) && Writable(e2))
            else
              match Entry(m, Frame(e2, KIB4), va / KIB4 % 512)
              case None => Fault
              case Some(e1) =>
                Maps(Frame(e1, KIB4) + va % KIB4, Writable(e4) && Writable(e3) && Writable(e2) && Writable(e1))
  }

  /** The bytes of the two upper tables that the boot code leaves alone. */
  predicate UpperTablesOtherwiseZero(m: seq<byte>) {
    && PAGE_TABLES_END <= |m|
    && (forall a :: PML4_START + 8 <= a < PDPTE_START ==> m[a] == 0)
    && (forall a :: PDPTE_START + 8 <= a < PDE_START ==> m[a] == 0)
  }

  /** The first GiB maps to itself, writable, and nothing else is mapped. */
  predicate IdentityMapped(m: seq<byte>) {
    forall va: nat {:trigger Translate(m, PML4_START, va)} :: va < LINEAR_LIMIT ==>
      Translate(m, PML4_START, va) == if va < GIB1 then Maps(va, true) else Fault
  }

  lemma HugeEntryBits(i: nat)
    requires i < 512
    ensures var e := i * HUGE_PAGE + PRESENT_WRITABLE_HUGE;
            Present(e) && Writable(e) && PageSize(e) && Frame(e, MIB2) == i * MIB2
  {
    var e := i * HUGE_PAGE + PRESENT_WRITABLE_HUGE;
    DivModUnique(e, i * 0x10_0000 + 0x41, 1, 2);
    DivModUnique(e / 2, i * 0x8_0000 + 0x20, 1, 2);
    DivModUnique(e, i * 0x4000 + 1, 3, 128);
    DivModUnique(i * 0x4000 + 1, i * 0x2000, 1, 2);
    DivModUnique(e, 0, e, 0x10_0000_0000_0000);
    DivModUnique(e, i, PRESENT_WRITABLE_HUGE, MIB2);
  }

  lemma TableEntryBits()
    ensures var e := PDPTE_START + PRESENT_WRITABLE;
            Present(e) && Writable(e) && !PageSize(e) && Frame(e, KIB4) == PDPTE_START
    ensures var e := PDE_START + PRESENT_WRITABLE;
            Present(e) && Writable(e) && !PageSize(e) && Frame(e, KIB4) == PDE_START
  {
  }

  lemma LowIndices(va: nat)
    requires va < GIB1
    ensures va / GIB512 % 512 == 0 && va / GIB1 % 512 == 0 && va / MIB2 % 512 == va / MIB2 < 512
  {
  }

  lemma HighIndices(va: nat)
    requires GIB1 <= va < LINEAR_LIMIT
    ensures va / GIB512 % 512 > 0 || va / GIB1 % 512 > 0
  {
    if va / GIB512 % 512 == 0 {
      assert va / GIB512 == 0;
      assert 1 <= va / GIB1 < 512;
    }
  }

  lemma FirstGibMapped(m: seq<byte>, va: nat)
    requires PageTablesInstalled(m) && va < GIB1
    ensures Translate(m, PML4_START, va) == Maps(va, true)
  {
    var i := va / MIB2;
    LowIndices(va);
    TableEntryBits();
    HugeEntryBits(i);
    assert WordAt(m, PDE_START + i * 8, 8) == i * HUGE_PAGE + PRESENT_WRITABLE_HUGE;
    assert Entry(m, PML4_START, 0) == Some(PDPTE_START + PRESENT_WRITABLE);
    assert Entry(m, PDPTE_START, 0) == Some(PDE_START + PRESENT_WRITABLE);
    assert i * MIB2 + va % MIB2 == va;
  }

  lemma ZeroEntry(m: seq<byte>, table: nat, index: nat)
    requires table + index * 8 + 8 <= |m|
    requires forall a :: table + index * 8 <= a < table + index * 8 + 8 ==> m[a] == 0
    ensures Entry(m, table, index) == None
  {
    DecodeZeros(m[table + index * 8..table + index * 8 + 8]);
  }

  lemma BeyondFirstGibFaults(m: seq<byte>, va: nat)
    requires PageTablesInstalled(m) && UpperTablesOtherwiseZero(m) && GIB1 <= va < LINEAR_LIMIT
    ensures Translate(m, PML4_START, va) == Fault
  {
    var i4 := va / GIB512 % 512;
    HighIndices(va);
    TableEntryBits();
    if i4 > 0 {
      ZeroEntry(m, PML4_START, i4);
    } else {
      assert Entry(m, PML4_START, 0) == Some(PDPTE_START + PRESENT_WRITABLE);
      ZeroEntry(m, PDPTE_START, va / GIB1 % 512);
    }
  }

  /** Installed tables over zeroed memory are the identity map of the first GiB. */
  lemma TablesGiveIdentityMap(m: seq<byte>)
    requires PageTablesInstalled(m) && UpperTablesOtherwiseZero(m)
    ensures IdentityMapped(m)
  {
    forall va: nat | va < LINEAR_LIMIT
      ensures Translate(m, PML4_START, va) == if va < GIB1 then Maps(va, true) else Fault
    {
      if va < GIB1 {
        FirstGibMapped(m, va);
      } else {
        BeyondFirstGibFaults(m, va);
      }
    }
  }

  /** Translation at boot reads nothing outside `[0x9000, 0xc000)`. */
  lemma IdentityMapFrame(m: seq<byte>, m': seq<byte>)
    requires PageTablesInstalled(m) && UpperTablesOtherwiseZero(m) && |m| == |m'|
    requires forall a {:trigger m'[a]} :: PML4_START <= a < PAGE_TABLES_END ==> m'[a] == m[a]
    ensures PageTablesInstalled(m') && UpperTablesOtherwiseZero(m')
  {
    SameWord(m, m', PML4_START, 8);
    SameWord(m, m', PDPTE_START, 8);
    forall i | 0 <= i < 512
      ensures WordAt(m', PDE_START + i * 8, 8) == i * HUGE_PAGE + PRESENT_WRITABLE_HUGE
    {
      SameWord(m, m', PDE_START + i * 8, 8);
    }
  }
}
