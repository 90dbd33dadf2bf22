/** Guest physical memory: one host buffer mapped from guest address 0. */
module Ram {
  import opened Results
  import opened Bytes

  datatype RamError = AddressOverflow | OutOfBounds

  const MIB: nat := 1024 * 1024

  predicate InRam(m: seq<byte>, gpa: nat, n: nat) {
    gpa + n <= |m|
  }

  /** Why an access that ends at `end`, past the end of RAM, fails. */
  function OutOfReach(end: nat): RamError {
    if end >= TWO64 then AddressOverflow else OutOfBounds
  }

  /** What a typed read of `n` bytes answers. */
  function ReadWord(m: seq<byte>, gpa: nat, n: nat): (r: Result<nat, RamError>)
    ensures r.Ok? <==> InRam(m, gpa, n)
    ensures r.Ok? ==> r.value == WordAt(m, gpa, n) < Pow256(n)
  {
    if gpa + n > |m| then Err(OutOfReach(gpa + n)) else Ok(WordAt(m, gpa, n))
  }

  class GuestRam {
    const mem: array<byte>

    constructor (buffer: array<byte>)
      ensures mem == buffer
    {
      mem := buffer;
    }

    /** The buffer is `mmap`ed or `VirtualAlloc`ed, so it starts zeroed. */
    static method New(sizeMib: u64) returns (r: Result<GuestRam, RamError>)
      ensures r.Ok? <==> sizeMib * 0x10_0000 < TWO64
      ensures r.Err? ==> r.error == AddressOverflow
      ensures r.Ok? ==> fresh(r.value) && fresh(r.value.mem) && r.value.Valid()
      ensures r.Ok? ==> r.value.mem.Length == sizeMib * 0x10_0000
      ensures r.Ok? ==> forall i :: 0 <= i < sizeMib * 0x10_0000 ==> r.value.mem[i] == 0
    {
      if sizeMib * MIB >= TWO64 {
        return Err(AddressOverflow);
      }
      var buffer: array<byte> := new byte[sizeMib * MIB](_ => 0);
      var ram := new GuestRam(buffer);
      r := Ok(ram);
    }

    /** The size is a host `usize`. */
    predicate Valid() {
      mem.Length < TWO64
    }

    method WriteSlice(gpa: u64, data: seq<byte>) returns (r: Result<(), RamError>)
      requires Valid()
      modifies mem
      ensures r.Ok? <==> gpa + |data| <= mem.Length
      ensures r.Err? ==> r.error == if gpa + |data| >= 0x1_0000_0000_0000_0000 then AddressOverflow else OutOfBounds
      ensures mem[..] == if r.Ok? then Patch(old(mem[..]), gpa, data) else old(mem[..])
    {
      var end := gpa + |data|;
      if end >= TWO64 {
        return Err(AddressOverflow);
      }
      if end > mem.Length {
        return Err(OutOfBounds);
      }
      forall i | 0 <= i < |data| {
        mem[gpa + i] := data[i];
      }
      return Ok(());
    }

    /** Writes the low `n` bytes of `val`, least significant first. */
    method WriteObj(gpa: u64, val: nat, n: nat) returns (r: Result<(), RamError>)
      requires Valid() && val < Pow256(n)
      modifies mem
      ensures r.Ok? <==> gpa + n <= mem.Length
      ensures r.Ok? ==> WordAt(mem[..], gpa, n) == val
      ensures r.Ok? ==> SameOutside(old(mem[..]), mem[..], gpa, gpa + n)
      ensures r.Err? ==> mem[..] == old(mem[..])
      ensures r.Err? ==> r.error == OutOfReach(gpa + n)
    {
      r := WriteSlice(gpa, ToLE(val, n));
      if r.Ok? {
        PatchReadBack(old(mem[..]), gpa, val, n);
      }
    }

    method ReadSlice(gpa: u64, buf: array<byte>) returns (r: Result<(), RamError>)
      requires Valid() && buf != mem
      modifies buf
      ensures r.Ok? <==> gpa + buf.Length <= mem.Length
      ensures r.Err? ==>
                r.error == if gpa + buf.Length >= 0x1_0000_0000_0000_0000 then AddressOverflow else OutOfBounds
      ensures buf[..] == if r.Ok? then mem[gpa..gpa + buf.Length] else old(buf[..])
    {
      var end := gpa + buf.Length;
      if end >= TWO64 {
        return Err(AddressOverflow);
      }
      if end > mem.Length {
        return Err(OutOfBounds);
      }
      forall i | 0 <= i < buf.Length {
        buf[i] := mem[gpa + i];
      }
      return Ok(());
    }

    method ReadObj(gpa: u64, n: nat) returns (r: Result<nat, RamError>)
      requires Valid()
      ensures r == ReadWord(mem[..], gpa, n)
      ensures r.Err? ==> r.error == if gpa + n >= 0x1_0000_0000_0000_0000 then AddressOverflow else OutOfBounds
    {
      var buf: array<byte> := new byte[n](_ => 0);
      var _ :- ReadSlice(gpa, buf);
      assert buf[..] == mem[..][gpa..gpa + n];
      return Ok(FromLE(buf[..]));
    }
  }
}
