/** The mmap() and munmap() that compartments are linked with (src/compartments/compartment_mmap.cpp):
    a downward bump allocator over the window that the compartment manager left free, and a
    MAP_FIXED path bounded by DDC.

    The allocator's whole state is two variables in the compartment's own memory
    (src/compartments/compartment_globals.cpp), which its own mappings can replace.  Heap is a
    snapshot, HeapStep what one call may do to it, and History every sequence of calls with anything
    that the compartment may compute in between. */
module CompartmentHeap {
  import opened Words
  import opened Ranges
  import opened AddressSpaces
  import opened MemoryWords

  // ddc: the bounds of DDC.  baseVar, topVar: the addresses of the two variables that the
  // compartment manager initializes.
  datatype Heap = Heap(pageSize: nat, ddc: Range, baseVar: nat, topVar: nat, mem: Memory)

  datatype Request =
    | Map(addr: u64, length: u64, prot: Prot, src: Source, fixed: bool, shared: bool)
    | Unmap(addr: u64, length: u64)

  // Failed is MAP_FAILED; Fault is a load or store that kills the process.
  datatype MapResult = Granted(addr: nat) | Failed | Fault

  // munmap() is a private MAP_FIXED mapping of inaccessible memory.
  function AsMap(r: Request): (m: Request)
    ensures m.Map?
  {
    match r
    case Map(_, _, _, _, _, _) => r
    case Unmap(addr, length) => Map(addr, length, PROT_NONE, Anonymous, true, false)
  }

  // The check of the MAP_FIXED path: strictly inside DDC, in 64-bit arithmetic.
  predicate FixedInBounds(ddc: Range, addr: u64, length: u64) {
    Add64(addr, length) >= addr && ddc.base < addr && Add64(addr, length) < ddc.top
  }

  predicate VariablesReadable(h: Heap) {
    Loadable(h.mem, h.baseVar, 8) && Loadable(h.mem, h.topVar, 8)
  }

  function WindowBase(h: Heap): u64
    requires VariablesReadable(h)
  {
    Word(h.mem, h.baseVar)
  }

  function Top(h: Heap): u64
    requires VariablesReadable(h)
  {
    Word(h.mem, h.topVar)
  }

  // Where a mapping of this length goes without MAP_FIXED, if the window is found large enough.
  function BumpTarget(h: Heap, length: u64): u64
    requires h.pageSize > 0 && VariablesReadable(h)
  {
    Sub64(Top(h), AlignUp64(length, h.pageSize))
  }

  predicate WindowAllows(h: Heap, length: u64)
    requires h.pageSize > 0 && VariablesReadable(h)
  {
    AlignUp64(length, h.pageSize) <= Sub64(Top(h), WindowBase(h))
  }

  // Neither the wrapper nor the kernel has to refuse the call.
  predicate FixedAccepted(h: Heap, addr: u64, length: u64)
    requires h.pageSize > 0
  {
    FixedInBounds(h.ddc, addr, length) && MmapAccepts(addr, length, h.pageSize)
  }

  predicate BumpAccepted(h: Heap, length: u64)
    requires h.pageSize > 0 && VariablesReadable(h)
  {
    WindowAllows(h, length) && MmapAccepts(BumpTarget(h, length), length, h.pageSize)
  }

  ghost predicate FixedStep(h: Heap, m: Request, out: MapResult, h': Heap)
    requires h.pageSize > 0 && m.Map?
  {
    || (out == Failed && h' == h)
    || (&& out == Granted(m.addr) && FixedAccepted(h, m.addr, m.length)
        && h' == h.(mem := Mapped(h.mem, m.addr, m.length, h.pageSize, m.prot, m.src)))
  }

  // The mapping comes first, and then the store to the variable that holds the top, which the
  // mapping may have replaced.
  ghost predicate BumpGrant(h: Heap, m: Request, out: MapResult, h': Heap)
    requires h.pageSize > 0 && m.Map? && VariablesReadable(h)
  {
    var at := BumpTarget(h, m.length);
    var mapped := Mapped(h.mem, at, m.length, h.pageSize, m.prot, m.src);
    && BumpAccepted(h, m.length)
    && if Writable(mapped, h.topVar, 8)
       then out == Granted(at) && h' == h.(mem := Stored(mapped, h.topVar, Encode(at, 8)))
       else out == Fault && h' == h.(mem := mapped)
  }

  ghost predicate BumpStep(h: Heap, m: Request, out: MapResult, h': Heap)
    requires h.pageSize > 0 && m.Map?
  {
    if VariablesReadable(h) then (out == Failed && h' == h) || BumpGrant(h, m, out, h')
    else out == Fault && h' == h
  }

  ghost predicate HeapStep(h: Heap, r: Request, out: MapResult, h': Heap) {
    && h.pageSize > 0
    && if AsMap(r).fixed then FixedStep(h, AsMap(r), out, h') else BumpStep(h, AsMap(r), out, h')
  }

  class Allocator {
    const ddc: Range
    const baseVar: nat
    const topVar: nat
    const space: AddressSpace

    constructor (ddc: Range, baseVar: nat, topVar: nat, space: AddressSpace)
      ensures this.ddc == ddc && this.baseVar == baseVar && this.topVar == topVar && this.space == space
    {
      this.ddc, this.baseVar, this.topVar, this.space := ddc, baseVar, topVar, space;
    }

    ghost function Snapshot(): Heap
      reads space
    {
      Heap(space.pageSize, ddc, baseVar, topVar, space.mem)
    }

    // __real_mmap() with MAP_FIXED, on 64-bit addresses and lengths.
    method RealMmap(addr: nat, length: nat, prot: Prot, src: Source) returns (out: MapResult)
      requires space.pageSize > 0
      modifies space
      ensures out == Granted(addr) || out == Failed
      ensures out == Failed ==>
        && space.mem == old(space.mem)
        && (!MmapAccepts(addr, length, space.pageSize) || space.refusals > old(space.refusals))
      ensures out.Granted? ==> MmapAccepts(addr, length, space.pageSize)
      ensures out.Granted? ==> space.mem == Mapped(old(space.mem), addr, length, space.pageSize, prot, src)
    {
      var ok := space.Mmap(addr, length, prot, src);
      out := if ok then Granted(addr) else Failed;
    }

    method MmapFixed(addr: u64, length: u64, prot: Prot, src: Source, shared: bool) returns (out: MapResult)
      requires space.pageSize > 0
      modifies space
      ensures FixedStep(old(Snapshot()), Map(addr, length, prot, src, true, shared), out, Snapshot())
      ensures out == Failed ==> !FixedAccepted(old(Snapshot()), addr, length) || space.refusals > old(space.refusals)
    {
      // Allowed within the range of DDC; otherwise EINVAL.
      if FixedInBounds(ddc, addr, length) {
        out := RealMmap(addr, length, prot, src);
      } else {
        out := Failed;
      }
    }

    method MmapBump(length: u64, prot: Prot, src: Source, shared: bool) returns (out: MapResult)
      requires space.pageSize > 0
      modifies space
      ensures forall addr: u64 ::
        BumpStep(old(Snapshot()), Map(addr, length, prot, src, false, shared), out, Snapshot())
      ensures out == Failed ==>
        && VariablesReadable(old(Snapshot()))
        && (!BumpAccepted(old(Snapshot()), length) || space.refusals > old(space.refusals))
    {
      ghost var h := Snapshot();
      if !Loadable(space.mem, baseVar, 8) || !Loadable(space.mem, topVar, 8) {
        return Fault;
      }
      var alignedLength := AlignUp64(length, space.pageSize);
      // No more than the remaining window allows; otherwise ENOMEM.
      if alignedLength > Sub64(Word(space.mem, topVar), Word(space.mem, baseVar)) {
        return Failed;
      }
      var mapAddr := Sub64(Word(space.mem, topVar), alignedLength);
      assert mapAddr == BumpTarget(h, length);
      out := RealMmap(mapAddr, length, prot, src);
      if out.Granted? {
        // The new top.
        if !Writable(space.mem, topVar, 8) {
          return Fault;
        }
        space.Store(topVar, Encode(mapAddr, 8));
      }
    }

    method WrapMmap(addr: u64, length: u64, prot: Prot, src: Source, fixed: bool, shared: bool) returns (out: MapResult)
      requires space.pageSize > 0
      modifies space
      ensures HeapStep(old(Snapshot()), Map(addr, length, prot, src, fixed, shared), out, Snapshot())
      ensures out == Failed ==>
        || (fixed && !FixedAccepted(old(Snapshot()), addr, length))
        || (!fixed && VariablesReadable(old(Snapshot())) && !BumpAccepted(old(Snapshot()), length))
        || space.refusals > old(space.refusals)
    {
      if fixed {
        out := MmapFixed(addr, length, prot, src, shared);
      } else {
        out := MmapBump(length, prot, src, shared);
      }
    }

    method WrapMunmap(addr: u64, length: u64) returns (out: MapResult)
      requires space.pageSize > 0
      modifies space
      ensures HeapStep(old(Snapshot()), Unmap(addr, length), out, Snapshot())
      ensures out == Failed ==> !FixedAccepted(old(Snapshot()), addr, length) || space.refusals > old(space.refusals)
    {
      out := WrapMmap(addr, length, PROT_NONE, Anonymous, true, false);
    }
  }

  // --- Where a call without MAP_FIXED can map --------------------------------------------------

  function Min(x: nat, y: nat): nat {
    if x < y then x else y
  }

  // The most that one call can take, by the values of the two variables.
  function Room(h: Heap): nat
    requires h.pageSize > 0 && VariablesReadable(h)
  {
    AlignDown(Min(Top(h), Sub64(Top(h), WindowBase(h))), h.pageSize)
  }

  // By the values of the two variables, no call without MAP_FIXED leaves range.
  predicate Confines(h: Heap, range: Range)
    requires h.pageSize > 0 && VariablesReadable(h)
  {
    || !Aligned(Top(h), h.pageSize) || Room(h) == 0
    || (range.base <= Top(h) - Room(h) && Top(h) <= range.top)
  }

  lemma Divides64(p: nat)
    requires IsPageSize(p)
    ensures Aligned(TWO64, p)
  {
    LowBitsIsRemainder(STACK_SIZE, p);
    LowBitsIsRemainder(TWO64, p);
    var k := STACK_SIZE / p;
    assert STACK_SIZE == p * k;
    SameRemainder(TWO64, p, k * 0x1000_0000_0000, 0);
  }

  // A rounded length below 2^64 has been rounded without wrap-around.
  lemma RoundedExactly(length: u64, p: nat)
    requires IsPageSize(p) && RoundUp(length, p) < TWO64
    ensures AlignUp64(length, p) == RoundUp(length, p) && Aligned(RoundUp(length, p), p)
  {
    Divides64(p);
    RoundUpLeast(length, p);
    AlignUp64Exact(length, p);
    if length + p - 1 >= TWO64 {
      AlignedGap(RoundUp(length, p), TWO64, p);
      assert false;
    }
  }

  // Subtracting size and adding it again stays below 2^64 only without wrap-around.
  lemma BelowTop(top: u64, size: nat)
    requires size < TWO64 && Sub64(top, size) + size < TWO64
    ensures size <= top && Sub64(top, size) == top - size
  {
  }

  // A call without MAP_FIXED that is not empty, while the top is page-aligned, and whose pages fit both
  // below the top and in the window.
  predicate BumpRoom(h: Heap, length: u64)
    requires h.pageSize > 0 && VariablesReadable(h)
  {
    var size, top, base := RoundUp(length, h.pageSize), Word(h.mem, h.topVar), Word(h.mem, h.baseVar);
    length > 0 && Aligned(top, h.pageSize) && size <= top && size <= Sub64(top, base)
  }

  // The arithmetic of a call that is not refused for certain.
  lemma BumpArithmetic(top: u64, base: u64, length: u64, p: nat, size: nat)
    requires IsPageSize(p) && size == RoundUp(length, p)
    requires AlignUp64(length, p) <= Sub64(top, base) && MmapAccepts(Sub64(top, AlignUp64(length, p)), length, p)
    ensures 0 < size <= top && size <= Sub64(top, base) && Sub64(top, AlignUp64(length, p)) == top - size
    ensures Aligned(top, p) && Aligned(size, p)
  {
    RoundedExactly(length, p);
    BelowTop(top, size);
    AlignedAdd(top - size, size, p);
  }

  // What such a call would map, in exact arithmetic.
  lemma BumpInRoom(h: Heap, length: u64)
    requires IsPageSize(h.pageSize) && VariablesReadable(h)
    requires BumpAccepted(h, length)
    ensures var size := RoundUp(length, h.pageSize);
      && 0 < size <= Room(h) && BumpTarget(h, length) == Top(h) - size && Aligned(Top(h), h.pageSize)
    ensures BumpRoom(h, length)
  {
    var p, size, top, base := h.pageSize, RoundUp(length, h.pageSize), Top(h), WindowBase(h);
    BumpArithmetic(top, base, length, p, size);
    AlignedFits(size, Min(top, Sub64(top, base)), p);
  }

  // Confines is exact: it holds exactly if no length makes a call map outside of range.
  lemma ConfinesExactly(h: Heap, range: Range)
    requires IsPageSize(h.pageSize) && VariablesReadable(h)
    ensures Confines(h, range) <==>
      forall length: u64 :: BumpAccepted(h, length) ==>
        range.base <= BumpTarget(h, length) && BumpTarget(h, length) + RoundUp(length, h.pageSize) <= range.top
  {
    var p, room := h.pageSize, Room(h);
    if Confines(h, range) {
      forall length: u64 | BumpAccepted(h, length)
        ensures range.base <= BumpTarget(h, length) && BumpTarget(h, length) + RoundUp(length, p) <= range.top
      {
        BumpInRoom(h, length);
      }
    } else {
      Divides64(p);
      AlignDownAligned(Min(Top(h), Sub64(Top(h), WindowBase(h))), p);
      AlignedGap(room, TWO64, p);
      RoundUpLeast(room, p);
      AlignUp64Exact(room, p);
      AlignedAdd(Top(h), room, p);
      assert WindowAllows(h, room) && BumpTarget(h, room) == Top(h) - room;
    }
  }

  // DDC and the variable of the top lie in a page-aligned range, and the variables confine calls
  // without MAP_FIXED to it.
  predicate KeptIn(h: Heap, r: Request, range: Range) {
    && IsPageSize(h.pageSize) && Aligned(range.base, h.pageSize) && Aligned(range.top, h.pageSize)
    && range.ContainsRange(h.ddc) && range.base <= h.topVar && h.topVar + 8 <= range.top
    && (!AsMap(r).fixed && VariablesReadable(h) ==> Confines(h, range))
  }

  // Then a granted call changes nothing outside the range.
  lemma GrantStaysIn(h: Heap, r: Request, out: MapResult, h': Heap, range: Range)
    requires HeapStep(h, r, out, h') && out.Granted? && KeptIn(h, r, range)
    ensures range.base <= out.addr < out.addr + RoundUp(AsMap(r).length, h.pageSize) <= range.top
    ensures SameOutside(h.mem, h'.mem, range.base, range.top)
    ensures h.mem.Keys <= h'.mem.Keys
  {
    var m, p := AsMap(r), h.pageSize;
    var mapped := Mapped(h.mem, out.addr, m.length, p, m.prot, m.src);
    var end := out.addr + RoundUp(m.length, p);
    MappedOutside(h.mem, out.addr, m.length, p, m.prot, m.src);
    if m.fixed {
      RoundUpShift(m.addr, m.length, p);
      RoundUpLeast(m.addr + m.length, p);
      SameOutsideWider(h.mem, mapped, out.addr, end, range.base, range.top);
    } else {
      BumpInRoom(h, m.length);
      SameOutsideWider(h.mem, mapped, out.addr, end, range.base, range.top);
      StoredBytes(mapped, h.topVar, Encode(out.addr, 8));
      SameOutsideWider(mapped, h'.mem, h.topVar, h.topVar + 8, range.base, range.top);
      SameOutsideTrans(h.mem, mapped, h'.mem, range.base, range.top);
    }
  }

  // --- What a call does, in numbers ------------------------------------------------------------

  // One of the eight bytes from v on cannot be read, or cannot be written.
  predicate Unreadable(m: Memory, v: nat) {
    exists a: nat :: v <= a < v + 8 && (a !in m || !m[a].prot.read)
  }

  predicate Unwritable(m: Memory, v: nat) {
    exists a: nat :: v <= a < v + 8 && (a !in m || !m[a].prot.write)
  }

  // A failed call changes nothing.  A fault comes from loading one of the variables, or from storing
  // the new top after the mapping, and only in calls without MAP_FIXED.
  lemma OutcomesExactly(h: Heap, r: Request, out: MapResult, h': Heap)
    requires HeapStep(h, r, out, h')
    ensures out == Failed ==> h' == h
    ensures r.Unmap? || r.fixed ==> out != Fault
    ensures r.Map? && !r.fixed && (Unreadable(h.mem, h.baseVar) || Unreadable(h.mem, h.topVar)) ==>
      out == Fault && h' == h
    ensures r.Map? && !r.fixed && !Unreadable(h.mem, h.baseVar) && !Unreadable(h.mem, h.topVar) ==>
      (out == Fault ==> Unwritable(h'.mem, h.topVar)) && VariablesReadable(h)
  {
  }

  lemma MappedAt(m: Memory, addr: nat, length: nat, p: nat, prot: Prot, src: Source, a: nat)
    requires p > 0
    ensures var m' := Mapped(m, addr, length, p, prot, src);
      if addr <= a < addr + RoundUp(length, p) then a in m' && m'[a] == FreshCell(prot, src, addr, a)
      else SameAt(m, m', a)
  {
  }

  // The pages of a granted call hold what was asked for, munmap() asking for zeros without access, and
  // nothing else changes but for the variable of the top, in a call without MAP_FIXED.
  lemma GrantContents(h: Heap, r: Request, out: MapResult, h': Heap, a: nat)
    requires HeapStep(h, r, out, h') && out.Granted?
    ensures var inPages := out.addr <= a < out.addr + RoundUp(r.length, h.pageSize);
      var inTop := r.Map? && !r.fixed && h.topVar <= a < h.topVar + 8;
      && (inPages && !inTop ==> a in h'.mem)
      && (inPages && !inTop && r.Map? ==> h'.mem[a] == Cell(r.prot, SourceByte(r.src, a - out.addr)))
      && (inPages && r.Unmap? ==> h'.mem[a] == Cell(Prot(false, false, false), 0))
      && (!inPages && !inTop ==> SameAt(h.mem, h'.mem, a))
  {
    var m := AsMap(r);
    MappedAt(h.mem, out.addr, m.length, h.pageSize, m.prot, m.src, a);
    if !m.fixed {
      var mapped := Mapped(h.mem, out.addr, m.length, h.pageSize, m.prot, m.src);
      StoredBytes(mapped, h.topVar, Encode(out.addr, 8));
      assert SameAt(mapped, h'.mem, a) || h.topVar <= a < h.topVar + 8;
    }
  }

  // With MAP_FIXED the mapping is where it was asked for; otherwise the variable of the top then holds
  // its address.
  lemma GrantAddress(h: Heap, r: Request, out: MapResult, h': Heap)
    requires HeapStep(h, r, out, h') && out.Granted?
    ensures r.Unmap? || r.fixed ==> out.addr == r.addr && FixedAccepted(h, r.addr, r.length)
    ensures r.Map? && !r.fixed ==>
      && VariablesReadable(h) && BumpAccepted(h, r.length) && out.addr == BumpTarget(h, r.length)
      && Readable(h'.mem, h.topVar, 8) && Word(h'.mem, h.topVar) == out.addr
    ensures h'.ddc == h.ddc && h'.baseVar == h.baseVar && h'.topVar == h.topVar && h'.pageSize == h.pageSize
  {
    var m := AsMap(r);
    if !m.fixed {
      var mapped := Mapped(h.mem, out.addr, m.length, h.pageSize, m.prot, m.src);
      StoredBytes(mapped, h.topVar, Encode(out.addr, 8));
      ReadWordAt(h'.mem, h.topVar, out.addr);
    }
  }

  // Neither the wrapper nor the kernel has to refuse a call with MAP_FIXED exactly if it does not wrap,
  // lies strictly inside DDC, and is neither empty nor unaligned nor too long.
  lemma FixedAcceptedExactly(h: Heap, addr: u64, length: u64)
    requires h.pageSize > 0
    ensures FixedAccepted(h, addr, length) <==>
      && addr + length < 0x1_0000_0000_0000_0000 && h.ddc.base < addr && addr + length < h.ddc.top
      && length > 0 && addr % h.pageSize == 0 && addr + RoundUp(length, h.pageSize) < 0x1_0000_0000_0000_0000
  {
    LowBitsIsRemainder(addr, h.pageSize);
  }

  // Exactly such a call has to be refused by neither, and its pages go directly below the top.
  lemma BumpAcceptedExactly(h: Heap, length: u64)
    requires IsPageSize(h.pageSize) && VariablesReadable(h)
    ensures BumpAccepted(h, length) <==> BumpRoom(h, length)
    ensures BumpRoom(h, length) ==>
      BumpTarget(h, length) == Word(h.mem, h.topVar) - RoundUp(length, h.pageSize)
  {
    if BumpAccepted(h, length) {
      BumpInRoom(h, length);
    }
    if BumpRoom(h, length) {
      BumpNotRefused(h, length);
    }
  }

  lemma BumpNotRefused(h: Heap, length: u64)
    requires IsPageSize(h.pageSize) && VariablesReadable(h) && BumpRoom(h, length)
    ensures BumpAccepted(h, length) && BumpTarget(h, length) == Top(h) - RoundUp(length, h.pageSize)
  {
    var top, base, size := Top(h), WindowBase(h), RoundUp(length, h.pageSize);
    assert size <= top && size <= Sub64(top, base) && Aligned(top, h.pageSize);
    RoundedExactly(length, h.pageSize);
    BelowTopAccepted(top, size, length, h.pageSize);
  }

  lemma BelowTopAccepted(top: u64, size: nat, length: u64, p: nat)
    requires p > 0 && Aligned(top, p) && Aligned(size, p) && size <= top && size == RoundUp(length, p) && length > 0
    ensures Sub64(top, size) == top - size && MmapAccepts(Sub64(top, size), length, p)
  {
    AlignedAdd(top, size, p);
  }

  // --- Calls that replace the allocator's own variables ----------------------------------------

  // A mapping leaves the byte at a alone: its pages do not hold a, or they are readable and writable
  // and come with the same byte.
  predicate SparesByte(h: Heap, m: Request, a: nat)
    requires h.pageSize > 0 && m.Map?
  {
    m.addr <= a < m.addr + RoundUp(m.length, h.pageSize) ==>
      m.prot.read && m.prot.write && a in h.mem && SourceByte(m.src, a - m.addr) == h.mem[a].value
  }

  predicate SparesVariable(h: Heap, m: Request, v: nat)
    requires h.pageSize > 0 && m.Map?
  {
    forall a: nat :: v <= a < v + 8 ==> SparesByte(h, m, a)
  }

  predicate Spares(h: Heap, r: Request)
    requires h.pageSize > 0
  {
    var m := AsMap(r);
    m.fixed ==> SparesVariable(h, m, h.baseVar) && SparesVariable(h, m, h.topVar)
  }

  // Where a is after a mapping.
  predicate MappedCell(m: Memory, r: Request, p: nat, a: nat, cell: Cell)
    requires p > 0 && r.Map?
  {
    if r.addr <= a < r.addr + RoundUp(r.length, p) then cell == FreshCell(r.prot, r.src, r.addr, a)
    else a in m && cell == m[a]
  }

  lemma MappedVariable(m: Memory, r: Request, p: nat, v: nat)
    requires p > 0 && r.Map? && Readable(m, v, 8)
    ensures var m' := Mapped(m, r.addr, r.length, p, r.prot, r.src);
      forall a: nat :: v <= a < v + 8 ==> a in m' && MappedCell(m, r, p, a, m'[a])
  {
    var m' := Mapped(m, r.addr, r.length, p, r.prot, r.src);
    forall a: nat | v <= a < v + 8
      ensures a in m' && MappedCell(m, r, p, a, m'[a])
    {
      MappedAt(m, r.addr, r.length, p, r.prot, r.src, a);
    }
  }

  // A granted MAP_FIXED call keeps a variable exactly if it spares it.
  lemma FixedKeepsExactly(h: Heap, m: Request, h': Heap, v: nat)
    requires h.pageSize > 0 && m.Map? && m.fixed && Accessible(h.mem, v, 8)
    requires FixedStep(h, m, Granted(m.addr), h')
    ensures VariableKept(h.mem, h'.mem, v) <==> SparesVariable(h, m, v)
  {
    MappedVariable(h.mem, m, h.pageSize, v);
    VariableKeptExactly(h.mem, h'.mem, v);
    SparesExactly(h, m, h'.mem, v);
  }

  lemma SparesExactly(h: Heap, m: Request, m': Memory, v: nat)
    requires h.pageSize > 0 && m.Map? && Accessible(h.mem, v, 8)
    requires forall a: nat :: v <= a < v + 8 ==> a in m' && MappedCell(h.mem, m, h.pageSize, a, m'[a])
    ensures SparesVariable(h, m, v) <==>
            Accessible(m', v, 8) && forall i :: v <= i < v + 8 ==> m'[i].value == h.mem[i].value
  {
    forall a: nat | v <= a < v + 8
      ensures a in m'
      ensures SparesByte(h, m, a) <==> m'[a].prot.read && m'[a].prot.write && m'[a].value == h.mem[a].value
    {
      assert MappedCell(h.mem, m, h.pageSize, a, m'[a]);
    }
    if SparesVariable(h, m, v) {
      forall a: nat | v <= a < v + 8
        ensures m'[a].prot.read && m'[a].prot.write && m'[a].value == h.mem[a].value
      {
        assert SparesByte(h, m, a);
      }
    }
  }

  // So a granted call with MAP_FIXED, munmap() included, keeps both exactly if it spares them.
  lemma FixedKeepsBothExactly(h: Heap, r: Request, h': Heap)
    requires AsMap(r).fixed && HeapStep(h, r, Granted(r.addr), h')
    requires Accessible(h.mem, h.baseVar, 8) && Accessible(h.mem, h.topVar, 8)
    ensures VariableKept(h.mem, h'.mem, h.baseVar) && VariableKept(h.mem, h'.mem, h.topVar) <==> Spares(h, r)
  {
    FixedKeepsExactly(h, AsMap(r), h', h.baseVar);
    FixedKeepsExactly(h, AsMap(r), h', h.topVar);
  }

  // What the compartment manager sets up (SetupMappings): page-aligned DDC bounds and top, a window
  // inside DDC that leaves pages above it, and two separate variables below the window.  The window
  // base need not be aligned.
  ghost predicate Sound(h: Heap) {
    && IsPageSize(h.pageSize)
    && Aligned(h.ddc.base, h.pageSize) && Aligned(h.ddc.top, h.pageSize)
    && Accessible(h.mem, h.baseVar, 8) && Accessible(h.mem, h.topVar, 8)
    && h.ddc.base <= h.baseVar && h.baseVar + 8 <= WindowBase(h)
    && h.ddc.base <= h.topVar && h.topVar + 8 <= WindowBase(h)
    && (h.baseVar + 8 <= h.topVar || h.topVar + 8 <= h.baseVar)
    && WindowBase(h) <= Top(h) < h.ddc.top && Aligned(Top(h), h.pageSize)
  }

  // Every byte of the reserved range is mapped.
  ghost predicate NoHoles(h: Heap) {
    forall a: nat :: h.ddc.Contains(a) ==> a in h.mem
  }

  lemma SoundConfines(h: Heap)
    requires Sound(h)
    ensures Confines(h, h.ddc)
  {
  }

  // A mapping of [at, top) above the variables, followed by a store of the new top.
  lemma BumpVariables(m: Memory, mapped: Memory, at: u64, top: nat, baseVar: nat, topVar: nat)
    requires Accessible(m, baseVar, 8) && Accessible(m, topVar, 8) && SameOutside(m, mapped, at, top)
    requires baseVar + 8 <= at && topVar + 8 <= at && (baseVar + 8 <= topVar || topVar + 8 <= baseVar)
    ensures Writable(mapped, topVar, 8)
    ensures var m' := Stored(mapped, topVar, Encode(at, 8));
      && Accessible(m', baseVar, 8) && Word(m', baseVar) == Word(m, baseVar)
      && Accessible(m', topVar, 8) && Word(m', topVar) == at
  {
    WordKept(m, mapped, at, top, baseVar);
    WordKept(m, mapped, at, top, topVar);
    WordStored(mapped, topVar, at);
    WordKept(mapped, Stored(mapped, topVar, Encode(at, 8)), topVar, topVar + 8, baseVar);
  }

  // In a sound state the window is what the variables say, without wrap-around.
  lemma BumpInWindow(h: Heap, length: u64)
    requires Sound(h) && BumpAccepted(h, length)
    ensures var size := RoundUp(length, h.pageSize);
      && 0 < size && WindowBase(h) <= BumpTarget(h, length) == Top(h) - size
      && Aligned(BumpTarget(h, length), h.pageSize)
  {
    BumpInRoom(h, length);
    RoomInWindow(h);
  }

  lemma RoomInWindow(h: Heap)
    requires h.pageSize > 0 && VariablesReadable(h) && WindowBase(h) <= Top(h)
    ensures Room(h) <= Top(h) - WindowBase(h)
  {
    Sub64Exact(Top(h), WindowBase(h));
  }

  lemma BumpGrantSound(h: Heap, m: Request, out: MapResult, h': Heap)
    requires Sound(h) && m.Map? && !m.fixed && BumpGrant(h, m, out, h')
    ensures Sound(h') && WindowBase(h') == WindowBase(h)
    ensures out == Granted(Top(h')) && Top(h') == Top(h) - RoundUp(m.length, h.pageSize) < Top(h)
  {
    BumpInWindow(h, m.length);
    var at := BumpTarget(h, m.length);
    MappedOutside(h.mem, at, m.length, h.pageSize, m.prot, m.src);
    BumpVariables(h.mem, Mapped(h.mem, at, m.length, h.pageSize, m.prot, m.src), at, Top(h), h.baseVar, h.topVar);
  }

  // In a sound state, a call without MAP_FIXED cannot fault, and takes its mapping off the top.
  lemma BumpSound(h: Heap, m: Request, out: MapResult, h': Heap)
    requires Sound(h) && m.Map? && !m.fixed && BumpStep(h, m, out, h')
    ensures out != Fault && Sound(h') && WindowBase(h') == WindowBase(h)
    ensures out.Granted? ==> out.addr == Top(h') == Top(h) - RoundUp(m.length, h.pageSize) < Top(h)
    ensures out == Failed ==> h' == h
  {
    if out == Failed && h' == h {
    } else {
      BumpGrantSound(h, m, out, h');
    }
  }

  // A call in a sound state touches whole pages inside DDC, leaves no hole and does not fault.  It
  // leaves a sound state with the same window base if it spares the variables.
  lemma StepConfined(h: Heap, r: Request, out: MapResult, h': Heap)
    requires Sound(h) && HeapStep(h, r, out, h')
    ensures out != Fault && SameOutside(h.mem, h'.mem, h.ddc.base, h.ddc.top)
    ensures h'.ddc == h.ddc && (NoHoles(h) ==> NoHoles(h'))
    ensures Spares(h, r) ==> Sound(h') && WindowBase(h') == WindowBase(h)
  {
    var m := AsMap(r);
    if !m.fixed {
      BumpSound(h, m, out, h');
    } else if out.Granted? && Spares(h, r) {
      FixedKeepsExactly(h, m, h', h.baseVar);
      FixedKeepsExactly(h, m, h', h.topVar);
    }
    if out.Granted? {
      SoundConfines(h);
      GrantStaysIn(h, r, out, h', h.ddc);
    }
  }

  // After munmap() has been granted over a byte of a variable, every call without MAP_FIXED faults.
  lemma UnmappedVariableFaults(h: Heap, addr: u64, length: u64, h': Heap, a: nat, r: Request, out: MapResult, h'': Heap)
    requires HeapStep(h, Unmap(addr, length), Granted(addr), h')
    requires addr <= a < addr + length && (h.baseVar <= a < h.baseVar + 8 || h.topVar <= a < h.topVar + 8)
    requires r.Map? && !r.fixed && HeapStep(h', r, out, h'')
    ensures out == Fault && h'' == h'
  {
    assert a in h'.mem && !h'.mem[a].prot.read;
  }

  // --- Histories -------------------------------------------------------------------------------

  // The compartment computes between two calls: it writes within DDC, but not to the two variables.
  ghost predicate Computes(h: Heap, h': Heap) {
    && h' == h.(mem := h'.mem) && h'.mem.Keys == h.mem.Keys
    && SameOutside(h.mem, h'.mem, h.ddc.base, h.ddc.top)
    && Accessible(h.mem, h.baseVar, 8) && Accessible(h.mem, h.topVar, 8)
    && VariableKept(h.mem, h'.mem, h.baseVar) && VariableKept(h.mem, h'.mem, h.topVar)
  }

  lemma ComputesSound(h: Heap, h': Heap)
    requires Sound(h) && Computes(h, h')
    ensures Sound(h') && WindowBase(h') == WindowBase(h) && Top(h') == Top(h)
    ensures NoHoles(h) ==> NoHoles(h')
  {
  }

  // Call n goes from hs[n] to ms[n], and then the compartment computes until hs[n + 1].
  ghost predicate HeapStepAt(hs: seq<Heap>, ms: seq<Heap>, rs: seq<Request>, outs: seq<MapResult>, n: nat)
    requires n < |rs| == |outs| == |ms| && |hs| == |rs| + 1
  {
    HeapStep(hs[n], rs[n], outs[n], ms[n]) && Computes(ms[n], hs[n + 1])
  }

  // Any sequence of calls on a freshly set up compartment.
  ghost predicate History(hs: seq<Heap>, ms: seq<Heap>, rs: seq<Request>, outs: seq<MapResult>) {
    && |hs| == |rs| + 1 && |outs| == |ms| == |rs|
    && Sound(hs[0]) && NoHoles(hs[0])
    && forall n {:trigger HeapStepAt(hs, ms, rs, outs, n)} :: 0 <= n < |rs| ==> HeapStepAt(hs, ms, rs, outs, n)
  }

  // Every call spares the two variables.
  ghost predicate Sparing(hs: seq<Heap>, rs: seq<Request>)
    requires |hs| == |rs| + 1
  {
    forall n :: 0 <= n < |rs| ==> hs[n].pageSize > 0 && Spares(hs[n], rs[n])
  }

  predicate IsGrant(r: Request, out: MapResult) {
    r.Map? && !r.fixed && out.Granted?
  }

  function GrantedRange(r: Request, out: MapResult, p: nat): Range
    requires p > 0 && IsGrant(r, out)
  {
    Range(out.addr, out.addr + RoundUp(r.length, p))
  }

  // The mappings granted without MAP_FIXED by the first n calls, in order.
  function Grants(rs: seq<Request>, outs: seq<MapResult>, p: nat, n: nat): seq<Range>
    requires p > 0 && n <= |rs| == |outs|
  {
    if n == 0 then []
    else
      Grants(rs, outs, p, n - 1)
      + if IsGrant(rs[n - 1], outs[n - 1]) then [GrantedRange(rs[n - 1], outs[n - 1], p)] else []
  }

  ghost function TotalSize(grants: seq<Range>): nat {
    if grants == [] then 0 else TotalSize(grants[..|grants| - 1]) + grants[|grants| - 1].Size()
  }

  predicate WholePages(grants: seq<Range>, p: nat)
    requires p > 0
  {
    forall i :: 0 <= i < |grants| ==> Aligned(grants[i].base, p) && Aligned(grants[i].top, p)
  }

  // Not empty, and each below the one before it, between top and start and not below the limit.
  predicate Descending(grants: seq<Range>, start: nat, top: nat, limit: nat) {
    && (forall i :: 0 <= i < |grants| ==>
          grants[i].base < grants[i].top <= start && limit <= grants[i].base && top <= grants[i].base)
    && (forall i, j :: 0 <= i < j < |grants| ==> grants[j].top <= grants[i].base)
  }

  // Grants go down from start to top without a gap, in whole pages above the window base.
  ghost predicate Stacked(grants: seq<Range>, start: nat, top: nat, windowBase: nat, p: nat)
    requires p > 0
  {
    && WholePages(grants, p) && Descending(grants, start, top, RoundUp(windowBase, p))
    && TotalSize(grants) == start - top
  }

  lemma TotalSizeSnoc(grants: seq<Range>, grant: Range)
    ensures TotalSize(grants + [grant]) == TotalSize(grants) + grant.Size()
  {
    var all := grants + [grant];
    assert all[..|all| - 1] == grants;
  }

  lemma StackedSnoc(grants: seq<Range>, start: nat, top: nat, windowBase: nat, p: nat, base: nat)
    requires p > 0 && Stacked(grants, start, top, windowBase, p)
    requires Aligned(base, p) && Aligned(top, p) && RoundUp(windowBase, p) <= base < top <= start
    ensures Stacked(grants + [Range(base, top)], start, base, windowBase, p)
  {
    TotalSizeSnoc(grants, Range(base, top));
    WholePagesSnoc(grants, Range(base, top), p);
    DescendingSnoc(grants, start, top, RoundUp(windowBase, p), base);
  }

  lemma WholePagesSnoc(grants: seq<Range>, grant: Range, p: nat)
    requires p > 0 && WholePages(grants, p) && Aligned(grant.base, p) && Aligned(grant.top, p)
    ensures WholePages(grants + [grant], p)
  {
  }

  lemma DescendingSnoc(grants: seq<Range>, start: nat, top: nat, limit: nat, base: nat)
    requires Descending(grants, start, top, limit) && limit <= base < top <= start
    ensures Descending(grants + [Range(base, top)], start, base, limit)
  {
    var all := grants + [Range(base, top)];
    forall i | 0 <= i < |all|
      ensures all[i].base < all[i].top <= start && limit <= all[i].base && base <= all[i].base
      ensures forall j :: i < j < |all| ==> all[j].top <= all[i].base
    {
      assert i < |grants| ==> all[i] == grants[i];
    }
  }

  // A call that spares the variables, and the computation up to the next one.
  lemma RoundConfined(hs: seq<Heap>, ms: seq<Heap>, rs: seq<Request>, outs: seq<MapResult>, k: nat)
    requires History(hs, ms, rs, outs) && Sparing(hs, rs) && k < |rs| && Sound(hs[k]) && NoHoles(hs[k])
    ensures outs[k] != Fault && Sound(hs[k + 1]) && NoHoles(hs[k + 1]) && WindowBase(hs[k + 1]) == WindowBase(hs[k])
    ensures hs[k + 1].ddc == hs[k].ddc && hs[k + 1].pageSize == hs[k].pageSize
    ensures SameOutside(hs[k].mem, hs[k + 1].mem, hs[k].ddc.base, hs[k].ddc.top)
  {
    assert HeapStepAt(hs, ms, rs, outs, k);
    StepConfined(hs[k], rs[k], outs[k], ms[k]);
    ComputesSound(ms[k], hs[k + 1]);
    SameOutsideTrans(hs[k].mem, ms[k].mem, hs[k + 1].mem, hs[k].ddc.base, hs[k].ddc.top);
  }

  // Over every history of calls that spare the variables: no call faults, the reserved range stays
  // fully mapped, and nothing outside it is touched.
  lemma {:induction false} NoHolesNoEscape(hs: seq<Heap>, ms: seq<Heap>, rs: seq<Request>, outs: seq<MapResult>, n: nat)
    requires History(hs, ms, rs, outs) && Sparing(hs, rs) && n <= |rs|
    ensures Sound(hs[n]) && NoHoles(hs[n]) && hs[n].ddc == hs[0].ddc && hs[n].pageSize == hs[0].pageSize
    ensures WindowBase(hs[n]) == WindowBase(hs[0])
    ensures n > 0 ==> outs[n - 1] != Fault
    ensures SameOutside(hs[0].mem, hs[n].mem, hs[0].ddc.base, hs[0].ddc.top)
  {
    if n > 0 {
      var k := n - 1;
      NoHolesNoEscape(hs, ms, rs, outs, k);
      RoundConfined(hs, ms, rs, outs, k);
      SameOutsideTrans(hs[0].mem, hs[k].mem, hs[n].mem, hs[0].ddc.base, hs[0].ddc.top);
    }
  }

  // Over every such history: granted mappings are whole pages, pairwise disjoint (so never
  // reissued, munmap() or not), above the page that holds the window base, and add up to how far
  // the top has come down.
  lemma {:induction false} GrantsStacked(hs: seq<Heap>, ms: seq<Heap>, rs: seq<Request>, outs: seq<MapResult>, n: nat)
    requires History(hs, ms, rs, outs) && Sparing(hs, rs) && n <= |rs|
    ensures Sound(hs[0]) && Sound(hs[n]) && Top(hs[n]) <= Top(hs[0])
    ensures Stacked(Grants(rs, outs, hs[0].pageSize, n), Top(hs[0]), Top(hs[n]), WindowBase(hs[0]), hs[0].pageSize)
  {
    NoHolesNoEscape(hs, ms, rs, outs, n);
    if n > 0 {
      GrantsStacked(hs, ms, rs, outs, n - 1);
      NoHolesNoEscape(hs, ms, rs, outs, n - 1);
      GrantsStep(hs, ms, rs, outs, n - 1, Top(hs[0]), WindowBase(hs[0]), hs[0].pageSize);
    }
  }

  lemma GrantsStep(hs: seq<Heap>, ms: seq<Heap>, rs: seq<Request>, outs: seq<MapResult>, k: nat,
                   start: nat, windowBase: nat, p: nat)
    requires History(hs, ms, rs, outs) && Sparing(hs, rs) && k < |rs| && Sound(hs[k]) && Sound(hs[k + 1])
    requires hs[k].pageSize == p && WindowBase(hs[k]) == windowBase && Top(hs[k]) <= start
    requires Stacked(Grants(rs, outs, p, k), start, Top(hs[k]), windowBase, p)
    ensures Top(hs[k + 1]) <= Top(hs[k])
    ensures Stacked(Grants(rs, outs, p, k + 1), start, Top(hs[k + 1]), windowBase, p)
  {
    var grants, top, top' := Grants(rs, outs, p, k), Top(hs[k]), Top(hs[k + 1]);
    assert HeapStepAt(hs, ms, rs, outs, k);
    TopAfter(hs[k], rs[k], outs[k], ms[k]);
    ComputesSound(ms[k], hs[k + 1]);
    if IsGrant(rs[k], outs[k]) {
      RoundUpLeast(windowBase, p);
      StackedSnoc(grants, start, top, windowBase, p, top');
      assert Grants(rs, outs, p, k + 1) == grants + [Range(top', top)];
    } else {
      assert Grants(rs, outs, p, k + 1) == grants;
    }
  }

  lemma TopAfter(h: Heap, r: Request, out: MapResult, h': Heap)
    requires Sound(h) && HeapStep(h, r, out, h') && Spares(h, r)
    ensures Sound(h') && h'.pageSize == h.pageSize
    ensures if IsGrant(r, out)
            then GrantedRange(r, out, h.pageSize) == Range(Top(h'), Top(h)) && WindowBase(h) <= Top(h') < Top(h)
            else Top(h') == Top(h)
  {
    StepConfined(h, r, out, h');
    var m := AsMap(r);
    if !m.fixed {
      BumpSound(h, m, out, h');
    } else if out.Granted? {
      FixedKeepsExactly(h, m, h', h.topVar);
    }
  }

  // --- The condition is needed -----------------------------------------------------------------

  function Max(x: nat, y: nat): nat {
    if x < y then y else x
  }

  // The contents of a file that replaces the variables by a window base of 0 and the given top; at
  // is the address it is mapped at.
  function ForgedByte(topVar: nat, top: u64, a: nat): byte {
    if topVar <= a < topVar + 8 then Encode(top, 8)[a - topVar] else 0
  }

  function Forged(at: nat, size: nat, topVar: nat, top: u64): (bs: seq<byte>)
    ensures |bs| == size && forall i :: 0 <= i < size ==> bs[i] == ForgedByte(topVar, top, at + i)
  {
    seq<byte>(size, i requires 0 <= i < size => ForgedByte(topVar, top, at + i))
  }

  lemma {:induction false} ZeroWord(k: nat)
    ensures forall i :: 0 <= i < k ==> Encode(0, k)[i] == 0
  {
    if k > 0 {
      ZeroWord(k - 1);
    }
  }

  lemma ForgedWords(m: Memory, at: nat, size: nat, baseVar: nat, topVar: nat, top: u64)
    requires at <= baseVar && baseVar + 8 <= at + size && at <= topVar && topVar + 8 <= at + size
    requires baseVar + 8 <= topVar || topVar + 8 <= baseVar
    requires forall a: nat :: at <= a < at + size ==>
      a in m && m[a] == Cell(PROT_READ_WRITE, ForgedByte(topVar, top, a))
    ensures Accessible(m, baseVar, 8) && Word(m, baseVar) == 0
    ensures Accessible(m, topVar, 8) && Word(m, topVar) == top
  {
    ZeroWord(8);
    forall i | 0 <= i < 8
      ensures ByteIs(m, baseVar + i, Encode(0, 8)[i]) && ByteIs(m, topVar + i, Encode(top, 8)[i])
    {
      assert m[baseVar + i] == Cell(PROT_READ_WRITE, ForgedByte(topVar, top, baseVar + i));
      assert m[topVar + i] == Cell(PROT_READ_WRITE, ForgedByte(topVar, top, topVar + i));
    }
    ReadWordAt(m, baseVar, 0);
    ReadWordAt(m, topVar, top);
  }

  lemma ForgedRead(m: Memory, m': Memory, at: u64, size: u64, p: nat, baseVar: nat, topVar: nat, top: u64)
    requires p > 0 && at <= baseVar && baseVar + 8 <= at + size && at <= topVar && topVar + 8 <= at + size
    requires baseVar + 8 <= topVar || topVar + 8 <= baseVar
    requires m' == Mapped(m, at, size, p, PROT_READ_WRITE, File(Forged(at, size, topVar, top), 0))
    ensures Accessible(m', baseVar, 8) && Word(m', baseVar) == 0
    ensures Accessible(m', topVar, 8) && Word(m', topVar) == top
  {
    forall a: nat | at <= a < at + size
      ensures a in m' && m'[a] == Cell(PROT_READ_WRITE, ForgedByte(topVar, top, a))
    {
      var cell := FreshCell(PROT_READ_WRITE, File(Forged(at, size, topVar, top), 0), at, a);
      assert a in m' && m'[a] == cell;
    }
    ForgedWords(m', at, size, baseVar, topVar, top);
  }

  lemma FixedInside(ddc: Range, at: u64, size: u64, p: nat)
    requires p > 0 && Aligned(at, p) && size > 0 && ddc.base < at && at + size < ddc.top < TWO64 - p
    ensures FixedInBounds(ddc, at, size) && MmapAccepts(at, size, p)
  {
  }

  // The first call of an escape: a file is mapped over the pages of the variables.
  lemma ForgedStep(h: Heap, at: u64, size: u64, top: u64) returns (r: Request, h': Heap)
    requires h.pageSize > 0 && (h.baseVar + 8 <= h.topVar || h.topVar + 8 <= h.baseVar)
    requires FixedInBounds(h.ddc, at, size) && MmapAccepts(at, size, h.pageSize)
    requires at <= h.baseVar && h.baseVar + 8 <= at + size && at <= h.topVar && h.topVar + 8 <= at + size
    ensures r.Map? && r.fixed && HeapStep(h, r, Granted(r.addr), h') && h' == h.(mem := h'.mem)
    ensures Accessible(h'.mem, h.baseVar, 8) && Word(h'.mem, h.baseVar) == 0
    ensures Accessible(h'.mem, h.topVar, 8) && Word(h'.mem, h.topVar) == top
  {
    r := Map(at, size, PROT_READ_WRITE, File(Forged(at, size, h.topVar, top), 0), true, false);
    h' := h.(mem := Mapped(h.mem, at, size, h.pageSize, r.prot, r.src));
    ForgedRead(h.mem, h'.mem, at, size, h.pageSize, h.baseVar, h.topVar, top);
  }

  lemma OnePage(p: nat)
    requires 0 < p < TWO32
    ensures RoundUp(p, p) == p && AlignUp64(p, p) == p
  {
    assert Aligned(p, p);
    RoundUpLeast(p, p);
    AlignUp64Exact(p, p);
  }

  lemma PageAboveAccepted(h: Heap, at: nat)
    requires h.pageSize < TWO32 && h.pageSize > 0 && Aligned(at, h.pageSize) && at + h.pageSize < TWO64
    requires VariablesReadable(h) && WindowBase(h) == 0 && Top(h) == at + h.pageSize
    ensures RoundUp(h.pageSize, h.pageSize) == h.pageSize && BumpTarget(h, h.pageSize) == at
    ensures WindowAllows(h, h.pageSize) && MmapAccepts(at, h.pageSize, h.pageSize)
  {
    OnePage(h.pageSize);
    Sub64Exact(at + h.pageSize, h.pageSize);
    Sub64Exact(at + h.pageSize, 0);
  }

  lemma Sub64Exact(x: u64, y: nat)
    requires y <= x
    ensures Sub64(x, y) == x - y
  {
  }

  // The second call: the page above DDC is taken, with any protection.
  lemma EscapingStep(h: Heap, at: nat, prot: Prot) returns (r: Request, h': Heap)
    requires 0 < h.pageSize < TWO32 && Aligned(at, h.pageSize) && at + h.pageSize < TWO64 && h.topVar + 8 <= at
    requires Accessible(h.mem, h.baseVar, 8) && Word(h.mem, h.baseVar) == 0
    requires Accessible(h.mem, h.topVar, 8) && Word(h.mem, h.topVar) == at + h.pageSize
    ensures r.Map? && !r.fixed && HeapStep(h, r, Granted(at), h')
    ensures at in h'.mem && h'.mem[at].prot == prot
  {
    var p := h.pageSize;
    PageAboveAccepted(h, at);
    r := Map(0, p, prot, Anonymous, false, false);
    var mapped := Mapped(h.mem, at, p, p, prot, Anonymous);
    MappedOutside(h.mem, at, p, p, prot, Anonymous);
    WordKept(h.mem, mapped, at, at + p, h.topVar);
    MappedAt(h.mem, at, p, p, prot, Anonymous, at);
    h' := h.(mem := Stored(mapped, h.topVar, Encode(at, 8)));
  }

  // Without the condition, two calls leave DDC, from every sound state whose variables are not on
  // the first page: a MAP_FIXED call within DDC, and then a mapping of the page above DDC.
  lemma TwoCallEscape(h: Heap) returns (r1: Request, h1: Heap, r2: Request, h2: Heap)
    requires Sound(h) && h.ddc.top + h.pageSize < TWO64
    requires h.ddc.base < AlignDown(Min(h.baseVar, h.topVar), h.pageSize)
    ensures r1.Map? && r1.fixed && HeapStep(h, r1, Granted(r1.addr), h1)
    ensures r2.Map? && !r2.fixed && HeapStep(h1, r2, Granted(h.ddc.top), h2)
    ensures !SameOutside(h.mem, h2.mem, h.ddc.base, h.ddc.top)
  {
    var at, size := VariablePages(h);
    r1, h1, r2, h2 := EscapeFrom(h, at, size);
  }

  lemma EscapeFrom(h: Heap, at: u64, size: u64) returns (r1: Request, h1: Heap, r2: Request, h2: Heap)
    requires IsPageSize(h.pageSize) && Aligned(h.ddc.top, h.pageSize) && h.ddc.top + h.pageSize < TWO64
    requires FixedInBounds(h.ddc, at, size) && MmapAccepts(at, size, h.pageSize)
    requires at <= h.baseVar && h.baseVar + 8 <= at + size && at <= h.topVar && h.topVar + 8 <= at + size
    requires (h.baseVar + 8 <= h.topVar || h.topVar + 8 <= h.baseVar) && h.topVar + 8 <= h.ddc.top
    ensures r1.Map? && r1.fixed && HeapStep(h, r1, Granted(r1.addr), h1)
    ensures r2.Map? && !r2.fixed && HeapStep(h1, r2, Granted(h.ddc.top), h2)
    ensures !SameOutside(h.mem, h2.mem, h.ddc.base, h.ddc.top)
  {
    r1, h1 := ForgedStep(h, at, size, h.ddc.top + h.pageSize);
    r2, h2 := EscapingStep(h1, h.ddc.top, OtherProt(h.mem, h.ddc.top));
    assert !SameAt(h.mem, h2.mem, h.ddc.top);
  }

  // A protection that memory does not have at a.
  function OtherProt(m: Memory, a: nat): (prot: Prot)
    ensures a in m ==> m[a].prot != prot
  {
    if a in m && m[a].prot == PROT_READ_WRITE then PROT_NONE else PROT_READ_WRITE
  }

  lemma VariablePages(h: Heap) returns (at: u64, size: u64)
    requires Sound(h) && h.ddc.top + h.pageSize < TWO64
    requires h.ddc.base < AlignDown(Min(h.baseVar, h.topVar), h.pageSize)
    ensures FixedInBounds(h.ddc, at, size) && MmapAccepts(at, size, h.pageSize)
    ensures at <= h.baseVar && h.baseVar + 8 <= at + size && at <= h.topVar && h.topVar + 8 <= at + size
  {
    at := AlignDown(Min(h.baseVar, h.topVar), h.pageSize);
    size := Max(h.baseVar, h.topVar) + 8 - at;
    AlignDownAligned(Min(h.baseVar, h.topVar), h.pageSize);
    FixedInside(h.ddc, at, size, h.pageSize);
  }

  // --- The end of DDC --------------------------------------------------------------------------

  // The MAP_FIXED check looks at the unrounded length.  It keeps the kernel's whole pages inside
  // DDC, for every request, exactly if DDC ends at a page boundary or one byte after it.
  lemma FixedCheckExact(ddc: Range, p: nat)
    requires p > 0 && ddc.top + p < TWO64 && ddc.base < AlignDown(ddc.top, p)
    ensures LowBits(ddc.top, p) <= 1 <==>
            forall addr: u64, length: u64 :: FixedInBounds(ddc, addr, length) && MmapAccepts(addr, length, p) ==>
              addr + RoundUp(length, p) <= ddc.top
  {
    var end := AlignDown(ddc.top, p);
    AlignDownAligned(ddc.top, p);
    if LowBits(ddc.top, p) <= 1 {
      forall addr: u64, length: u64 | FixedInBounds(ddc, addr, length) && MmapAccepts(addr, length, p)
        ensures addr + RoundUp(length, p) <= ddc.top
      {
        RoundUpShift(addr, length, p);
        RoundUpLeast(addr + length, p);
      }
    } else {
      RoundUpLeast(1, p);
      AlignedGap(0, RoundUp(1, p), p);
      assert FixedInBounds(ddc, end, 1) && MmapAccepts(end, 1, p);
    }
  }
}
