/** The process's memory and the part of the kernel's mmap() contract that the sources rely on.

    Every mapped byte has a protection and a value.  All mmap() calls pass MAP_FIXED, and those of the
    manager MAP_PRIVATE.  The wrapper in compartments passes on whether a mapping is shared, which
    makes no difference to the mapping itself. */
module AddressSpaces {
  import opened Words

  datatype Prot = Prot(read: bool, write: bool, exec: bool)

  const PROT_NONE := Prot(false, false, false)
  const PROT_EXEC := Prot(false, false, true)
  const PROT_READ_WRITE := Prot(true, true, false)

  datatype Cell = Cell(prot: Prot, value: byte)

  type Memory = map<nat, Cell>

  // What backs a mapping: zero-filled memory, or a file from a given offset on.
  datatype Source = Anonymous | File(data: seq<byte>, offset: nat)

  // The bytes of the last page past the end of the file read as 0.
  function FileByte(data: seq<byte>, i: nat): byte {
    if i < |data| then data[i] else 0
  }

  function SourceByte(src: Source, i: nat): byte {
    match src
    case Anonymous => 0
    case File(data, offset) => FileByte(data, offset + i)
  }

  predicate SameAt(m: Memory, m': Memory, a: nat) {
    (a in m <==> a in m') && (a in m ==> m[a] == m'[a])
  }

  // Nothing changes outside [lo, hi).
  ghost predicate SameOutside(m: Memory, m': Memory, lo: int, hi: int) {
    forall a: nat {:trigger SameAt(m, m', a)} :: !(lo <= a < hi) ==> SameAt(m, m', a)
  }

  // Nothing changes in [lo, hi).
  ghost predicate SameWithin(m: Memory, m': Memory, lo: int, hi: int) {
    forall a: nat {:trigger SameAt(m, m', a)} :: lo <= a < hi ==> SameAt(m, m', a)
  }

  lemma SameOutsideTrans(m: Memory, m': Memory, m'': Memory, lo: int, hi: int)
    requires SameOutside(m, m', lo, hi) && SameOutside(m', m'', lo, hi)
    ensures SameOutside(m, m'', lo, hi)
  {
    forall a: nat | !(lo <= a < hi)
      ensures SameAt(m, m'', a)
    {
      assert SameAt(m, m', a) && SameAt(m', m'', a);
    }
  }

  lemma SameOutsideWider(m: Memory, m': Memory, lo: int, hi: int, lo': int, hi': int)
    requires SameOutside(m, m', lo, hi) && lo' <= lo && hi <= hi'
    ensures SameOutside(m, m', lo', hi')
  {
    forall a: nat | !(lo' <= a < hi')
      ensures SameAt(m, m', a)
    {
    }
  }

  // A further change within a narrower window.
  lemma SameOutsideThen(m: Memory, m': Memory, m'': Memory, lo: int, hi: int, hi': int)
    requires SameOutside(m, m', lo, hi) && SameOutside(m', m'', lo, hi') && hi' <= hi
    ensures SameOutside(m, m'', lo, hi)
  {
    SameOutsideWider(m', m'', lo, hi', lo, hi);
    SameOutsideTrans(m, m', m'', lo, hi);
  }

  lemma MappedOutside(m: Memory, addr: nat, length: nat, p: nat, prot: Prot, src: Source)
    requires p > 0
    ensures SameOutside(m, Mapped(m, addr, length, p, prot, src), addr, addr + RoundUp(length, p))
  {
  }

  // What the kernel refuses for certain: zero length, an unaligned address, an overflowing length.
  predicate MmapAccepts(addr: nat, length: nat, p: nat)
    requires p > 0
  {
    length > 0 && Aligned(addr, p) && addr + RoundUp(length, p) < TWO64
  }

  function FreshCell(prot: Prot, src: Source, base: nat, a: nat): Cell
    requires base <= a
  {
    Cell(prot, SourceByte(src, a - base))
  }

  // A successful mapping replaces whole pages.
  function Mapped(m: Memory, addr: nat, length: nat, p: nat, prot: Prot, src: Source): Memory
    requires p > 0
  {
    m + map a: nat | addr <= a < addr + RoundUp(length, p) :: FreshCell(prot, src, addr, a)
  }

  function Stored(m: Memory, addr: nat, data: seq<byte>): Memory
    requires forall a :: addr <= a < addr + |data| ==> a in m
  {
    m + map a: nat | addr <= a < addr + |data| :: m[a].(value := data[a - addr])
  }

  predicate Writable(m: Memory, addr: nat, length: nat) {
    forall a :: addr <= a < addr + length ==> a in m && m[a].prot.write
  }

  class AddressSpace {
    const pageSize: nat
    var mem: Memory
    ghost var refusals: nat  // how many mmap() calls have failed that need not fail

    constructor (pageSize: nat)
      ensures this.pageSize == pageSize && mem == map[] && refusals == 0
    {
      this.pageSize := pageSize;
      mem := map[];
      refusals := 0;
    }

    // mmap() with MAP_FIXED.  The kernel refuses what MmapAccepts excludes, and may refuse anything
    // else for reasons of its own (no memory, a limit); a refused call changes nothing.
    method Mmap(addr: nat, length: nat, prot: Prot, src: Source) returns (ok: bool)
      requires pageSize > 0
      modifies this
      ensures ok ==> MmapAccepts(addr, length, pageSize)
      ensures refusals == old(refusals) + if !ok && MmapAccepts(addr, length, pageSize) then 1 else 0
      ensures mem == if ok then Mapped(old(mem), addr, length, pageSize, prot, src) else old(mem)
      ensures old(mem).Keys <= mem.Keys
    {
      if !MmapAccepts(addr, length, pageSize) {
        return false;
      }
      ok := *;
      if ok {
        mem := Mapped(mem, addr, length, pageSize, prot, src);
      } else {
        refusals := refusals + 1;
      }
    }

    // memset(addr, 0, length); anything but mapped, writable memory would fault.
    method ZeroFill(addr: nat, length: nat)
      requires Writable(mem, addr, length)
      modifies `mem
      ensures mem == old(mem) + map a: nat | addr <= a < addr + length :: old(mem)[a].(value := 0)
      ensures mem.Keys == old(mem).Keys
    {
      mem := mem + map a: nat | addr <= a < addr + length :: mem[a].(value := 0);
    }

    // memcpy(addr, data, |data|)
    method Store(addr: nat, data: seq<byte>)
      requires Writable(mem, addr, |data|)
      modifies `mem
      ensures mem == Stored(old(mem), addr, data)
    {
      mem := Stored(mem, addr, data);
    }
  }
}
