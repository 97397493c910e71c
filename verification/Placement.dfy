/** Where compartments are placed (src/compartment-manager/compartment_manager.cpp, IsRangeFree and
    SetupMappings). */
module Placement {
  import opened Wrappers
  import opened Words
  import opened Ranges
  import opened AddressSpaces
  import opened Switcher
  import opened ElfFormat
  import opened ElfHull
  import opened ElfImage
  import opened ElfLoader

  // A compartment's range, inferred from the DDC in its descriptor.
  function DdcRange(comp: Compartment): Range {
    Range(comp.ddc.base, comp.ddc.limit)
  }

  // No initialized compartment's DDC range meets the range.
  predicate Unclaimed(range: Range, table: Table) {
    forall k :: 0 <= k < MAX_COMPARTMENTS && table[k].entryPoint.tag ==> !DdcRange(table[k]).Intersects(range)
  }

  predicate RangeFree(range: Range, lowest: nat, table: Table) {
    match range
    case Range(_, top) => top <= lowest && Unclaimed(range, table)
  }

  method IsRangeFree(range: Range, lowest: nat, table: Table) returns (free: bool)
    ensures free <==> RangeFree(range, lowest, table)
  {
    if range.top > lowest {
      return false;
    }
    for k := 0 to MAX_COMPARTMENTS
      invariant forall j :: 0 <= j < k && table[j].entryPoint.tag ==> !DdcRange(table[j]).Intersects(range)
    {
      if !table[k].entryPoint.tag {
        continue;
      }
      if DdcRange(table[k]).Intersects(range) {
        return false;
      }
    }
    return true;
  }

  // --- How long a reservation lasts ------------------------------------------------------------

  // What SetupMappings reserves (ReservedIsReservable): whole pages, for at least a page of
  // segments, the stack and the guard pages.
  predicate Reservable(range: Range, p: nat)
    requires p > 0
  {
    Aligned(range.base, p) && Aligned(range.top, p) && range.base + LeastSize(p) <= range.top
  }

  function LeastSize(p: nat): nat {
    STACK_SIZE + 3 * p
  }

  // No range that can be reserved, and that IsRangeFree accepts, meets reserved.
  ghost predicate Protected(reserved: Range, lowest: nat, table: Table, p: nat)
    requires p > 0
  {
    forall range: Range :: Reservable(range, p) && RangeFree(range, lowest, table) ==> !range.Intersects(reserved)
  }

  // The least reservable range that ends where the page of ddc's base begins, or that begins
  // where the page of ddc's end ends.
  predicate FreeBelow(ddc: Range, lowest: nat, table: Table, p: nat)
    requires p > 0
  {
    var end := AlignDown(ddc.base, p);
    LeastSize(p) <= end && RangeFree(Range(end - LeastSize(p), end), lowest, table)
  }

  predicate FreeAbove(ddc: Range, lowest: nat, table: Table, p: nat)
    requires p > 0
  {
    var start := RoundUp(ddc.top, p);
    RangeFree(Range(start, start + LeastSize(p)), lowest, table)
  }

  // Compartment id has reserved a range that no other compartment's DDC meets.
  ghost predicate Reserved(id: nat, reserved: Range, lowest: nat, table: Table, p: nat) {
    && IsPageSize(p) && Reservable(reserved, p) && reserved.top <= lowest
    && id < MAX_COMPARTMENTS && table[id].entryPoint.tag
    && forall k :: 0 <= k < MAX_COMPARTMENTS && table[k].entryPoint.tag ==>
         DdcRange(table[k]).base <= DdcRange(table[k]).top
         && (k != id ==> !DdcRange(table[k]).Intersects(reserved))
  }

  // How far DDC, as initialization left it, protects a reservation: exactly if it meets the
  // reservation, and neither where it leaves whole pages below it nor above it is there room for
  // another reservation.
  predicate DdcProtects(ddc: Range, reserved: Range, lowest: nat, table: Table, p: nat)
    requires p > 0
  {
    && ddc.Intersects(reserved)
    && (reserved.base < AlignDown(ddc.base, p) ==> !FreeBelow(ddc, lowest, table, p))
    && (RoundUp(ddc.top, p) < reserved.top ==> !FreeAbove(ddc, lowest, table, p))
  }

  lemma LeastSizeAligned(p: nat)
    requires IsPageSize(p)
    ensures Aligned(LeastSize(p), p)
  {
    assert Aligned(p, p);
    AlignedAdd(STACK_SIZE, p, p);
    AlignedAdd(STACK_SIZE + p, p, p);
    AlignedAdd(STACK_SIZE + 2 * p, p, p);
  }

  // If any free range meets reserved below ddc, so does the one that ends at ddc's page.
  lemma LowestLoss(id: nat, reserved: Range, lowest: nat, table: Table, p: nat, range: Range)
    requires Reserved(id, reserved, lowest, table, p) && Reservable(range, p) && RangeFree(range, lowest, table)
    requires DdcRange(table[id]).Intersects(reserved) && range.Intersects(reserved)
    requires range.top <= DdcRange(table[id]).base
    ensures reserved.base < AlignDown(DdcRange(table[id]).base, p) && FreeBelow(DdcRange(table[id]), lowest, table, p)
  {
    var ddc := DdcRange(table[id]);
    var end := AlignDown(ddc.base, p);
    AlignedFits(range.top, ddc.base, p);
    var window := Range(end - LeastSize(p), end);
    forall k | 0 <= k < MAX_COMPARTMENTS && table[k].entryPoint.tag
      ensures !DdcRange(table[k]).Intersects(window)
    {
      assert !DdcRange(table[k]).Intersects(range);
    }
  }

  lemma HighestLoss(id: nat, reserved: Range, lowest: nat, table: Table, p: nat, range: Range)
    requires Reserved(id, reserved, lowest, table, p) && Reservable(range, p) && RangeFree(range, lowest, table)
    requires DdcRange(table[id]).Intersects(reserved) && range.Intersects(reserved)
    requires DdcRange(table[id]).top <= range.base
    ensures RoundUp(DdcRange(table[id]).top, p) < reserved.top && FreeAbove(DdcRange(table[id]), lowest, table, p)
  {
    var ddc := DdcRange(table[id]);
    var start := RoundUp(ddc.top, p);
    RoundUpLeast(ddc.top, p);
    var window := Range(start, start + LeastSize(p));
    forall k | 0 <= k < MAX_COMPARTMENTS && table[k].entryPoint.tag
      ensures !DdcRange(table[k]).Intersects(window)
    {
      assert !DdcRange(table[k]).Intersects(range);
    }
  }

  // The windows are themselves reservable, and meet reserved.
  lemma LossIsReal(id: nat, reserved: Range, lowest: nat, table: Table, p: nat)
    requires Reserved(id, reserved, lowest, table, p) && !DdcProtects(DdcRange(table[id]), reserved, lowest, table, p)
    ensures !Protected(reserved, lowest, table, p)
  {
    var ddc := DdcRange(table[id]);
    var end, start := AlignDown(ddc.base, p), RoundUp(ddc.top, p);
    LeastSizeAligned(p);
    if !ddc.Intersects(reserved) {
      assert RangeFree(reserved, lowest, table) && reserved.Intersects(reserved);
    } else if reserved.base < end && FreeBelow(ddc, lowest, table, p) {
      AlignDownAligned(ddc.base, p);
      AlignedAdd(end, LeastSize(p), p);
      assert Reservable(Range(end - LeastSize(p), end), p);
    } else {
      RoundUpLeast(ddc.top, p);
      AlignedAdd(start, LeastSize(p), p);
      assert Reservable(Range(start, start + LeastSize(p)), p);
    }
  }

  // A reservation is protected from every later one exactly if DdcProtects says so.
  lemma ReservationSafeExactly(id: nat, reserved: Range, lowest: nat, table: Table, p: nat)
    requires Reserved(id, reserved, lowest, table, p)
    ensures Protected(reserved, lowest, table, p) <==> DdcProtects(DdcRange(table[id]), reserved, lowest, table, p)
  {
    var ddc := DdcRange(table[id]);
    if DdcProtects(ddc, reserved, lowest, table, p) {
      forall range: Range | Reservable(range, p) && RangeFree(range, lowest, table)
        ensures !range.Intersects(reserved)
      {
        if range.Intersects(reserved) {
          assert !ddc.Intersects(range);
          if range.top <= ddc.base {
            LowestLoss(id, reserved, lowest, table, p, range);
          } else {
            HighestLoss(id, reserved, lowest, table, p, range);
          }
        }
      }
    } else {
      LossIsReal(id, reserved, lowest, table, p);
    }
  }

  // DDC bounds that still cover every page of the reservation protect it.
  lemma CoveringDdcProtects(ddc: Range, reserved: Range, lowest: nat, table: Table, p: nat)
    requires p > 0 && Reservable(reserved, p)
    requires AlignDown(ddc.base, p) <= reserved.base && reserved.top <= RoundUp(ddc.top, p)
    requires ddc.base <= ddc.top
    ensures DdcProtects(ddc, reserved, lowest, table, p)
  {
  }

  // --- The layout of a reservation -------------------------------------------------------------

  // The parts of a reserved range: the hull of the segments, the window for the compartment's own
  // mmap(), and the stack between two guard pages.
  datatype Parts = Parts(hull: Range, window: Range, lowGuard: Range, stack: Range, highGuard: Range)

  function PartsOf(hull: Range, length: nat, stackSize: nat, p: nat): Parts
    requires stackSize + 2 * p <= hull.base + length
  {
    var end := hull.base + length;
    Parts(hull,
          Range(hull.top, end - stackSize - 2 * p),
          Range(end - stackSize - 2 * p, end - stackSize - p),
          Range(end - stackSize - p, end - p),
          Range(end - p, end))
  }

  // The parts follow each other without gap or overlap, and fill reserved.
  predicate Partitions(parts: Parts, reserved: Range) {
    match parts
    case Parts(hull, window, lowGuard, stack, highGuard) =>
      && hull.base == reserved.base && highGuard.top == reserved.top
      && hull.top == window.base && window.top == lowGuard.base
      && lowGuard.top == stack.base && stack.top == highGuard.base
      && hull.base <= hull.top <= window.top <= lowGuard.top <= stack.top <= reserved.top
  }

  // The memory of a range is mapped with the given protection and zero-filled.
  ghost predicate Zeroed(m: Memory, lo: nat, hi: nat, prot: Prot) {
    forall a: nat :: lo <= a < hi ==> a in m && m[a] == Cell(prot, 0)
  }

  // What SetupMappings leaves behind.
  ghost predicate Arranged(m: Memory, segs: seq<Segment>, file: seq<byte>, parts: Parts, p: nat)
    requires p > 0
  {
    match parts
    case Parts(hull, window, lowGuard, stack, highGuard) =>
      && (forall i :: 0 <= i < |segs| ==> Imaged(m, segs[i], file))
      && RoundUp(hull.top, p) <= window.top
      && Zeroed(m, RoundUp(hull.top, p), stack.base, PROT_NONE)
      && Zeroed(m, stack.base, stack.top, PROT_READ_WRITE)
      && Zeroed(m, highGuard.base, highGuard.top, PROT_NONE)
      && forall a: nat :: hull.base <= a < highGuard.top ==> a in m
  }

  // Segments whose pages lie in the hull, rounded up.
  lemma PagesInHull(segs: seq<Segment>, hull: Range, p: nat, a: nat)
    requires p > 0 && IsHull(segs, AnySegment, hull) && InSomePage(segs, p, a)
    ensures hull.base <= a < RoundUp(hull.top, p)
  {
    var i :| 0 <= i < |segs| && segs[i].memRange.base <= a < RoundUp(segs[i].memRange.top, p);
    assert AnySegment(segs[i]);
    RoundUpMonotone(segs[i].memRange.top, hull.top, p);
  }

  // A segment table and its hull, with room for the reserved range, the stack and the guard pages
  // before the end of the address space.
  ghost predicate Placeable(segs: seq<Segment>, hull: Range, length: nat, p: nat) {
    && IsPageSize(p)
    && IsHull(segs, AnySegment, hull) && hull.base < hull.top
    && (forall i :: 0 <= i < |segs| ==> Mappable(segs[i], p))
    && PagesDisjoint(segs, p)
    && hull.base + length < TWO64 && hull.top + STACK_SIZE + 2 * p < TWO64
  }

  // A successful mapping of the stack forces the end of the range to a page boundary.
  lemma HullInRange(hull: Range, length: nat, p: nat)
    requires IsPageSize(p) && hull.Size() + STACK_SIZE + 2 * p <= length && hull.base < hull.top
    requires Aligned(hull.base + length - STACK_SIZE - p, p)
    ensures Aligned(hull.base + length, p) && Aligned(hull.base + length - STACK_SIZE - 2 * p, p)
    ensures RoundUp(hull.top, p) <= hull.base + length - STACK_SIZE - 2 * p
  {
    var end := hull.base + length;
    assert Aligned(p, p);
    AlignedAdd(end - STACK_SIZE - p, p, p);
    AlignedAdd(end - STACK_SIZE, STACK_SIZE, p);
    RoundUpLeast(hull.top, p);
  }

  // The range to reserve is free, has room for the segments, the stack and the guard pages, and ends
  // at a page boundary, without which mapping the stack is refused.
  predicate RangeFits(hull: Range, length: nat, p: nat, lowest: nat, table: Table)
    requires p > 0
  {
    && RangeFree(Range(hull.base, hull.base + length), lowest, table)
    && hull.Size() + STACK_SIZE + 2 * p <= length && Aligned(hull.base + length, p)
  }

  // No compartment with a valid entry point has a DDC whose bounds meet [base, end).
  predicate NoDdcMeets(table: Table, base: nat, end: nat) {
    forall k: nat :: k < 4094 && table[k].entryPoint.tag ==> table[k].ddc.limit <= base || end <= table[k].ddc.base
  }

  lemma RangeFitsExactly(hull: Range, length: nat, p: nat, lowest: nat, table: Table)
    requires p > 0 && hull.base < hull.top
    ensures RangeFits(hull, length, p, lowest, table) <==>
      && hull.base + length <= lowest && NoDdcMeets(table, hull.base, hull.base + length)
      && hull.top - hull.base + 0x10_0000 + 2 * p <= length && (hull.base + length) % p == 0
  {
    LowBitsIsRemainder(hull.base + length, p);
    assert forall k: nat :: k < MAX_COMPARTMENTS ==>
        (DdcRange(table[k]).Intersects(Range(hull.base, hull.base + length)) <==>
           !(table[k].ddc.limit <= hull.base || hull.base + length <= table[k].ddc.base));
  }

  // What is reservable is exactly what fits some hull that starts where the range does.
  lemma ReservableExactly(range: Range, p: nat, lowest: nat, table: Table)
    requires IsPageSize(p) && Aligned(range.base, p) && range.base <= range.top && RangeFree(range, lowest, table)
    ensures Reservable(range, p) <==>
            exists hull: Range :: hull.base == range.base < hull.top
                                  && RangeFits(hull, range.top - range.base, p, lowest, table)
  {
    if Reservable(range, p) {
      var hull := Range(range.base, range.base + p);
      assert RangeFits(hull, range.top - range.base, p, lowest, table);
    }
    if exists hull: Range :: hull.base == range.base < hull.top
                             && RangeFits(hull, range.top - range.base, p, lowest, table)
    {
      LeastSizeAligned(p);
      AlignedAdd(range.base, LeastSize(p) - p, p);
      AlignedGap(range.base + LeastSize(p) - p, range.top, p);
    }
  }

  lemma AcceptedIfAligned(base: nat, length: nat, p: nat)
    requires IsPageSize(p) && Aligned(base, p) && STACK_SIZE <= length && base + length < TWO64
    ensures Aligned(base + length, p) ==> MmapAccepts(base, length, p)
  {
    if Aligned(base + length, p) {
      AlignedAdd(base + length, base, p);
      RoundUpLeast(length, p);
    }
  }

  lemma StackAcceptedExactly(base: nat, length: nat, p: nat)
    requires IsPageSize(p) && STACK_SIZE + 2 * p <= length && base + length < TWO64
    ensures MmapAccepts(base + length - STACK_SIZE - p, STACK_SIZE, p) <==> Aligned(base + length, p)
  {
    var end := base + length;
    assert Aligned(p, p);
    RoundUpLeast(STACK_SIZE, p);
    if Aligned(end, p) {
      AlignedAdd(end, STACK_SIZE, p);
      AlignedAdd(end - STACK_SIZE, p, p);
    }
    if Aligned(end - STACK_SIZE - p, p) {
      AlignedAdd(end - STACK_SIZE - p, p, p);
      AlignedAdd(end - STACK_SIZE, STACK_SIZE, p);
    }
  }

  // Reserves length bytes from the hull's base on, maps the segments and the stack.  Returns the
  // top of the stack and the window left for the compartment's mmap().
  method SetupMappings(elf: StaticElfExecutable, length: nat, lowest: nat, table: Table, space: AddressSpace)
    returns (placed: Option<(nat, Range)>)
    requires Placeable(elf.loadSegments, elf.totalRange, length, elf.pageSize) && space.pageSize == elf.pageSize
    modifies space
    ensures placed.Some? ==>
      var hull, segs, p := old(elf.totalRange), old(elf.loadSegments), elf.pageSize;
      && RangeFits(hull, length, p, lowest, table) && HaveFileParts(segs)
      && SetUp(old(space.mem), space.mem, segs, elf.file, hull, length, p)
      && var parts := PartsOf(hull, length, STACK_SIZE, p); placed.value == (parts.stack.top, parts.window)
    ensures placed.None? ==>
      || !RangeFits(old(elf.totalRange), length, elf.pageSize, lowest, table)
      || !old(elf.initialized) || !HaveFileParts(old(elf.loadSegments)) || space.refusals > old(space.refusals)
  {
    var p, hull := elf.pageSize, elf.totalRange;
    var free := IsRangeFree(Range(hull.base, hull.base + length), lowest, table);
    if !free || hull.Size() + STACK_SIZE + 2 * p > length {
      return None;
    }
    var ok := MapParts(elf, hull, length, elf.loadSegments, space);
    if !ok {
      return None;
    }
    var stackBase := hull.base + length - STACK_SIZE - p;
    placed := Some((stackBase + STACK_SIZE, Range(hull.top, stackBase - p)));
  }

  // The reservation, the segments and the stack, in this order.
  method MapParts(elf: StaticElfExecutable, hull: Range, length: nat, ghost segs: seq<Segment>, space: AddressSpace)
    returns (ok: bool)
    requires Placeable(segs, hull, length, elf.pageSize) && space.pageSize == elf.pageSize && elf.loadSegments == segs
    requires hull.Size() + STACK_SIZE + 2 * elf.pageSize <= length
    modifies space
    ensures ok ==> SetUp(old(space.mem), space.mem, segs, elf.file, hull, length, elf.pageSize)
    ensures ok <==>
      && Aligned(hull.base + length, elf.pageSize) && old(elf.initialized) && HaveFileParts(segs)
      && space.refusals == old(space.refusals)
    ensures old(space.refusals) <= space.refusals
  {
    var p := elf.pageSize;
    ghost var m := space.mem;
    AcceptedIfAligned(hull.base, length, p);
    ok := space.Mmap(hull.base, length, PROT_NONE, Anonymous);
    if !ok {
      return;
    }
    ghost var m1 := space.mem;
    ok := elf.Map(space);
    if !ok {
      return;
    }
    ghost var m2 := space.mem;
    StackAcceptedExactly(hull.base, length, p);
    ok := space.Mmap(hull.base + length - STACK_SIZE - p, STACK_SIZE, PROT_READ_WRITE, Anonymous);
    if ok {
      SetUpAfter(m, m1, m2, space.mem, segs, elf.file, hull, length, p);
    }
  }

  // The result of a successful SetupMappings: the range is page-aligned, its parts partition it
  // and hold what they should, and nothing else has changed.
  ghost predicate SetUp(m: Memory, m': Memory, segs: seq<Segment>, file: seq<byte>, hull: Range, length: nat, p: nat) {
    && p > 0 && STACK_SIZE + 2 * p <= hull.base + length
    && Aligned(hull.base, p) && Aligned(hull.base + length, p)
    && var parts := PartsOf(hull, length, STACK_SIZE, p);
    && Partitions(parts, Range(hull.base, hull.base + length))
    && Aligned(parts.window.top, p)
    && Arranged(m', segs, file, parts, p)
    && SameOutside(m, m', hull.base, hull.base + length)
  }

  // The stack takes up the megabyte below the last page, read-write and zero-filled; the page below it
  // and the last page are inaccessible, like everything from the end of the segments' last page on;
  // and the window for the compartment's mmap() reaches from the end of the segments to the guard page.
  lemma SetUpLayout(m: Memory, m': Memory, segs: seq<Segment>, file: seq<byte>, hull: Range, length: nat, p: nat)
    requires SetUp(m, m', segs, file, hull, length, p)
    ensures var end := hull.base + length;
      && 0x10_0000 + 2 * p <= end
      && PartsOf(hull, length, STACK_SIZE, p).stack.top == end - p
      && PartsOf(hull, length, STACK_SIZE, p).window == Range(hull.top, end - 2 * p - 0x10_0000)
      && (forall a: nat :: end - p - 0x10_0000 <= a < end - p ==> a in m' && m'[a] == Cell(Prot(true, true, false), 0))
      && (forall a: nat :: RoundUp(hull.top, p) <= a < end - p - 0x10_0000 || end - p <= a < end ==>
            a in m' && m'[a] == Cell(Prot(false, false, false), 0))
      && (forall a: nat {:trigger SameAt(m, m', a)} :: a < hull.base || end <= a ==> SameAt(m, m', a))
  {
  }

  lemma ReservedIsReservable(m: Memory, m': Memory, segs: seq<Segment>, file: seq<byte>,
                             hull: Range, length: nat, p: nat)
    requires SetUp(m, m', segs, file, hull, length, p) && IsPageSize(p)
    requires hull.base < hull.top && hull.Size() + STACK_SIZE + 2 * p <= length
    ensures Reservable(Range(hull.base, hull.base + length), p)
  {
    LeastSizeAligned(p);
    AlignedAdd(hull.base, LeastSize(p) - p, p);
    AlignedGap(hull.base + LeastSize(p) - p, hull.base + length, p);
  }

  // The three rounds of mapping, on memory.
  lemma SetUpAfter(m: Memory, m1: Memory, m2: Memory, m3: Memory, segs: seq<Segment>, file: seq<byte>,
                   hull: Range, length: nat, p: nat)
    requires IsPageSize(p) && IsHull(segs, AnySegment, hull) && hull.base < hull.top
    requires hull.Size() + STACK_SIZE + 2 * p <= length
    requires Aligned(hull.base, p) && Aligned(hull.base + length - STACK_SIZE - p, p)
    requires m1 == Mapped(m, hull.base, length, p, PROT_NONE, Anonymous)
    requires forall i :: 0 <= i < |segs| ==> Imaged(m2, segs[i], file)
    requires forall a: nat :: !InSomePage(segs, p, a) ==> SameAt(m1, m2, a)
    requires m1.Keys <= m2.Keys
    requires m3 == Mapped(m2, hull.base + length - STACK_SIZE - p, STACK_SIZE, p, PROT_READ_WRITE, Anonymous)
    ensures SetUp(m, m3, segs, file, hull, length, p)
  {
    HullInRange(hull, length, p);
    SetUpMemory(m, m1, m2, m3, segs, file, hull, length, p);
  }

  // The same, once the alignment of the parts is known.
  lemma SetUpMemory(m: Memory, m1: Memory, m2: Memory, m3: Memory, segs: seq<Segment>, file: seq<byte>,
                    hull: Range, length: nat, p: nat)
    requires IsPageSize(p) && IsHull(segs, AnySegment, hull) && hull.base < hull.top
    requires Aligned(hull.base, p) && Aligned(hull.base + length, p)
    requires STACK_SIZE + 2 * p <= length && RoundUp(hull.top, p) <= hull.base + length - STACK_SIZE - 2 * p
    requires m1 == Mapped(m, hull.base, length, p, PROT_NONE, Anonymous)
    requires forall i :: 0 <= i < |segs| ==> Imaged(m2, segs[i], file)
    requires forall a: nat :: !InSomePage(segs, p, a) ==> SameAt(m1, m2, a)
    requires m1.Keys <= m2.Keys
    requires m3 == Mapped(m2, hull.base + length - STACK_SIZE - p, STACK_SIZE, p, PROT_READ_WRITE, Anonymous)
    ensures Arranged(m3, segs, file, PartsOf(hull, length, STACK_SIZE, p), p)
    ensures SameOutside(m, m3, hull.base, hull.base + length)
  {
    var hullEnd, stackBase, end := RoundUp(hull.top, p), hull.base + length - STACK_SIZE - p, hull.base + length;
    ReservedMemory(m, m1, hull.base, length, p);
    OutsideHull(m1, m2, segs, hull, p);
    RoundUpLeast(STACK_SIZE, p);
    MappedOutside(m2, stackBase, STACK_SIZE, p, PROT_READ_WRITE, Anonymous);
    MappedZeroed(m2, stackBase, STACK_SIZE, p, PROT_READ_WRITE);
    SetUpFrame(m, m1, m2, m3, hull.base, hullEnd, stackBase, end);
    SetUpZeroes(m1, m2, m3, hull.base, hullEnd, stackBase, end, p);
    SetUpImage(m2, m3, segs, file, hull, stackBase);
    assert m1.Keys <= m2.Keys <= m3.Keys;
  }

  // The first round covers the whole range, without access.
  lemma ReservedMemory(m: Memory, m1: Memory, base: nat, length: nat, p: nat)
    requires p > 0 && Aligned(base, p) && Aligned(base + length, p)
    requires m1 == Mapped(m, base, length, p, PROT_NONE, Anonymous)
    ensures SameOutside(m, m1, base, base + length) && Zeroed(m1, base, base + length, PROT_NONE)
  {
    AlignedAdd(base + length, base, p);
    RoundUpLeast(length, p);
    MappedOutside(m, base, length, p, PROT_NONE, Anonymous);
    MappedZeroed(m, base, length, p, PROT_NONE);
  }

  lemma SetUpFrame(m: Memory, m1: Memory, m2: Memory, m3: Memory, base: nat, hullEnd: nat, stackBase: nat, end: nat)
    requires SameOutside(m, m1, base, end) && SameOutside(m1, m2, base, hullEnd)
    requires SameOutside(m2, m3, stackBase, stackBase + STACK_SIZE)
    requires base <= hullEnd <= stackBase && stackBase + STACK_SIZE <= end
    ensures SameOutside(m, m3, base, end)
  {
    SameOutsideThen(m, m1, m2, base, end, hullEnd);
    SameOutsideWider(m2, m3, stackBase, stackBase + STACK_SIZE, base, end);
    SameOutsideTrans(m, m2, m3, base, end);
  }

  lemma SetUpZeroes(m1: Memory, m2: Memory, m3: Memory, base: nat, hullEnd: nat, stackBase: nat, end: nat, p: nat)
    requires Zeroed(m1, base, end, PROT_NONE) && SameOutside(m1, m2, base, hullEnd)
    requires SameOutside(m2, m3, stackBase, stackBase + STACK_SIZE)
    requires base <= hullEnd <= stackBase && stackBase + STACK_SIZE + p == end
    ensures Zeroed(m3, hullEnd, stackBase, PROT_NONE) && Zeroed(m3, end - p, end, PROT_NONE)
  {
    ZeroedKept(m1, m2, base, hullEnd, hullEnd, end, PROT_NONE);
    ZeroedKept(m2, m3, stackBase, stackBase + STACK_SIZE, hullEnd, stackBase, PROT_NONE);
    ZeroedKept(m2, m3, stackBase, stackBase + STACK_SIZE, end - p, end, PROT_NONE);
  }

  lemma SetUpImage(m2: Memory, m3: Memory, segs: seq<Segment>, file: seq<byte>, hull: Range, stackBase: nat)
    requires forall i :: 0 <= i < |segs| ==> Imaged(m2, segs[i], file)
    requires IsHull(segs, AnySegment, hull) && hull.top <= stackBase
    requires SameOutside(m2, m3, stackBase, stackBase + STACK_SIZE)
    ensures forall i :: 0 <= i < |segs| ==> Imaged(m3, segs[i], file)
  {
    forall i | 0 <= i < |segs|
      ensures Imaged(m3, segs[i], file)
    {
      assert AnySegment(segs[i]);
      ImagedKept(m2, m3, stackBase, stackBase + STACK_SIZE, segs[i], file);
    }
  }

  lemma MappedZeroed(m: Memory, addr: nat, length: nat, p: nat, prot: Prot)
    requires p > 0
    ensures Zeroed(Mapped(m, addr, length, p, prot, Anonymous), addr, addr + RoundUp(length, p), prot)
  {
  }

  lemma OutsideHull(m: Memory, m': Memory, segs: seq<Segment>, hull: Range, p: nat)
    requires p > 0 && IsHull(segs, AnySegment, hull)
    requires forall a: nat :: !InSomePage(segs, p, a) ==> SameAt(m, m', a)
    ensures SameOutside(m, m', hull.base, RoundUp(hull.top, p))
  {
    forall a: nat | !(hull.base <= a < RoundUp(hull.top, p))
      ensures SameAt(m, m', a)
    {
      if InSomePage(segs, p, a) {
        PagesInHull(segs, hull, p, a);
      }
    }
  }

  lemma ZeroedKept(m: Memory, m': Memory, lo: int, hi: int, from: nat, to: nat, prot: Prot)
    requires SameOutside(m, m', lo, hi) && Zeroed(m, from, to, prot) && (to <= lo || hi <= from)
    ensures Zeroed(m', from, to, prot)
  {
    forall a: nat | from <= a < to
      ensures a in m' && m'[a] == Cell(prot, 0)
    {
      assert SameAt(m, m', a);
    }
  }

  lemma ImagedKept(m: Memory, m': Memory, lo: int, hi: int, seg: Segment, file: seq<byte>)
    requires SameOutside(m, m', lo, hi) && Imaged(m, seg, file) && seg.memRange.top <= lo
    ensures Imaged(m', seg, file)
  {
    forall a: nat | seg.memRange.Contains(a)
      ensures a in m' && m'[a] == Cell(seg.prot, ImageByte(seg, file, a))
    {
      assert SameAt(m, m', a);
    }
  }
}
