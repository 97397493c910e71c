/** Histories of CompartmentAdd, and how placement feeds the compartment's allocator and the
    isolation of suspended compartments (src/compartment-manager/compartment_manager.cpp). */
module Compartments {
  import opened Words
  import opened Ranges
  import opened AddressSpaces
  import opened MemoryWords
  import opened Capabilities
  import opened Switcher
  import opened SwitchRuns
  import opened ElfFormat
  import opened ElfHull
  import opened ElfSearch
  import opened Placement
  import opened InitialStack
  import opened CompartmentHeap
  import opened CompartmentLoader
  import opened CompartmentManager
  import Isolation

  datatype Stage = Stage(table: Table, mem: Memory)

  // What CompartmentAdd does, when initialization keeps the bounds of DDC.
  ghost predicate AddEffect(lowest: nat, s: Stage, id: nat, reserved: Range, s': Stage) {
    && id < MAX_COMPARTMENTS && !s.table[id].entryPoint.tag
    && reserved.base < reserved.top && RangeFree(reserved, lowest, s.table)
    && s'.table == s.table[id := s'.table[id]] && s'.table[id].entryPoint.tag
    && DdcRange(s'.table[id]) == reserved
    && SameOutside(s.mem, s'.mem, reserved.base, reserved.top)
  }

  // What the contract of Manager.CompartmentAdd says of memory: before, as the segments were mapped,
  // at the first entry, and afterwards.
  datatype AddedMemory = AddedMemory(before: Memory, image: Memory, started: Memory, after: Memory)

  // What CompartmentAdd was called with.
  datatype AddInput = AddInput(elf: ElfInput, length: nat, pageSize: nat, start: Start,
                               retCap: seq<byte>, callCap: seq<byte>, init: InitRun)

  ghost predicate Entered(mem: AddedMemory, pr: Prepared, add: AddInput) {
    && IsPageSize(add.pageSize)
    && EnteredWith(mem.before, mem.image, mem.started, pr, add.elf, add.length, add.pageSize, add.start, add.retCap)
  }

  // CompartmentAdd changes no memory outside of what it reserves.
  lemma AddStays(mem: AddedMemory, pr: Prepared, add: AddInput)
    requires Entered(mem, pr, add) && |add.callCap| == 16
    requires FinishedFrom(mem.started, mem.after, pr.Reserved(add.length), add.init.contents, pr.callVar, add.callCap)
    ensures SameOutside(mem.before, mem.after, pr.hull.base, pr.hull.base + add.length)
    ensures pr.hull.base < pr.hull.base + add.length
  {
    AddStaysInReserved(mem.before, mem.started, mem.after, pr.Reserved(add.length), add.init.contents, pr.callVar,
                       add.callCap);
  }

  lemma AddWasFree(mem: AddedMemory, pr: Prepared, add: AddInput, names: SymbolNames, lowest: nat, table: Table)
    requires Entered(mem, pr, add) && CanLoad(add.elf, names, add.length, add.pageSize, lowest, table, add.start)
    ensures RangeFree(pr.Reserved(add.length), lowest, table)
  {
    LoadedRangeFree(add.elf, names, add.length, add.pageSize, lowest, table, add.start, pr);
  }

  // The contract of Manager.CompartmentAdd as one step of a history, if initialization hands back the
  // bounds of DDC.
  lemma LaunchedHasEffect(l: Layout, cs: seq<Config>, id: nat, pr: Prepared, add: AddInput, mem: AddedMemory,
                          lowest: nat, names: SymbolNames)
    requires Entered(mem, pr, add) && Launched(l, cs, id, pr, add.length, add.init) && |add.callCap| == 16
    requires FinishedFrom(mem.started, mem.after, pr.Reserved(add.length), add.init.contents, pr.callVar, add.callCap)
    requires CanLoad(add.elf, names, add.length, add.pageSize, lowest, cs[0].s.table, add.start)
    requires !cs[0].s.table[id].entryPoint.tag && Isolation.Bounds(add.init.rddc) == pr.Reserved(add.length)
    ensures AddEffect(lowest, Stage(cs[0].s.table, mem.before), id, pr.Reserved(add.length),
                      Stage(cs[6].s.table, mem.after))
  {
    AddStays(mem, pr, add);
    AddWasFree(mem, pr, add, names, lowest, cs[0].s.table);
  }

  ghost predicate AddEffectAt(lowest: nat, ss: seq<Stage>, ids: seq<nat>, rs: seq<Range>, n: nat)
    requires n < |ids| == |rs| && |ss| == |ids| + 1
  {
    AddEffect(lowest, ss[n], ids[n], rs[n], ss[n + 1])
  }

  // Any sequence of additions to an empty table.
  ghost predicate AddHistory(lowest: nat, ss: seq<Stage>, ids: seq<nat>, rs: seq<Range>) {
    && |ss| == |ids| + 1 && |rs| == |ids|
    && (forall k :: 0 <= k < MAX_COMPARTMENTS ==> !ss[0].table[k].entryPoint.tag)
    && forall n {:trigger AddEffectAt(lowest, ss, ids, rs, n)} :: 0 <= n < |ids| ==> AddEffectAt(lowest, ss, ids, rs, n)
  }

  lemma {:induction false} AddedStay(lowest: nat, ss: seq<Stage>, ids: seq<nat>, rs: seq<Range>, n: nat)
    requires AddHistory(lowest, ss, ids, rs) && n <= |ids|
    ensures forall k :: 0 <= k < n ==> ids[k] < MAX_COMPARTMENTS && ss[n].table[ids[k]].entryPoint.tag
                                       && DdcRange(ss[n].table[ids[k]]) == rs[k]
  {
    if n > 0 {
      AddedStay(lowest, ss, ids, rs, n - 1);
      assert AddEffectAt(lowest, ss, ids, rs, n - 1);
    }
  }

  // All reserved ranges are pairwise disjoint and at or below the lowest address of the manager.
  lemma ReservedRangesDisjoint(lowest: nat, ss: seq<Stage>, ids: seq<nat>, rs: seq<Range>, i: nat, j: nat)
    requires AddHistory(lowest, ss, ids, rs) && i < j < |ids|
    ensures ids[i] != ids[j] && rs[i].top <= lowest && rs[j].top <= lowest
    ensures forall a: nat :: !(rs[i].Contains(a) && rs[j].Contains(a))
  {
    AddedStay(lowest, ss, ids, rs, j);
    assert AddEffectAt(lowest, ss, ids, rs, i) && AddEffectAt(lowest, ss, ids, rs, j);
    assert !DdcRange(ss[j].table[ids[i]]).Intersects(rs[j]);
  }

  // Whatever is added later, the memory of a compartment stays as its own CompartmentAdd left it.
  lemma {:induction false} LoadedMemoryKept(lowest: nat, ss: seq<Stage>, ids: seq<nat>, rs: seq<Range>,
                                            i: nat, n: nat, a: nat)
    requires AddHistory(lowest, ss, ids, rs) && i < n <= |ids| && rs[i].Contains(a)
    ensures SameAt(ss[i + 1].mem, ss[n].mem, a)
    decreases n
  {
    if n > i + 1 {
      LoadedMemoryKept(lowest, ss, ids, rs, i, n - 1, a);
      ReservedRangesDisjoint(lowest, ss, ids, rs, i, n - 1);
      assert AddEffectAt(lowest, ss, ids, rs, n - 1);
      assert SameAt(ss[n - 1].mem, ss[n].mem, a);
    }
  }

  // --- What an addition amounts to -------------------------------------------------------------

  // A compartment starts at the entry point of its file's ELF header, and is called later at the value
  // of its entry symbol, both within bounds that just enclose the executable segments.  Its data rights
  // begin with the first segment and cover the length that was asked for.
  lemma StartsAsLoaded(l: Layout, cs: seq<Config>, id: nat, pr: Prepared, add: AddInput, mem: AddedMemory,
                       names: SymbolNames) returns (i: nat)
    requires Entered(mem, pr, add) && Launched(l, cs, id, pr, add.length, add.init) && add.elf.symbols.Some?
    requires SymbolsFound(add.elf.symbols.value, names, Loads(add.elf.phs, add.pageSize), pr.Syms())
    ensures var s, segs := cs[3].s, Loads(add.elf.phs, add.pageSize);
      && s.pcc.tag && s.pcc.addr == add.elf.ehdr.entry && s.pcc.perms == {EXECUTE}
      && TightBounds(segs, true, s.pcc.base, s.pcc.limit)
      && s.rddc.tag && s.rddc.perms == {LOAD, LOAD_CAP, STORE, STORE_CAP}
      && s.rddc.limit == s.rddc.base + add.length && TightBounds(segs, false, s.rddc.base, pr.hull.top)
    ensures FirstMatch(add.elf.symbols.value, names.entry, i)
    ensures var entry := cs[6].s.table[id].entryPoint;
      && entry.tag && entry.addr == add.elf.symbols.value.symbols[i].value && entry.perms == {EXECUTE}
      && entry.base == cs[3].s.pcc.base && entry.limit == cs[3].s.pcc.limit
  {
    var segs, table := Loads(add.elf.phs, add.pageSize), add.elf.symbols.value;
    InitializationStarts(l, cs, id, pr, add.length, add.init);
    FinalDescriptor(l, cs, id, pr, add.length, add.init);
    HullsTight(segs, pr.hull, pr.executable);
    i :| FirstMatch(table, names.entry, i) && pr.entry == Settle(table.symbols[i], 0, segs, PROT_EXEC);
  }

  // Its stack pointer is aligned and leaves exactly the room that the initial stack takes below the last
  // page, its two variables hold the window, and the third the return capability.
  lemma FindsWhenEntered(l: Layout, cs: seq<Config>, id: nat, pr: Prepared, add: AddInput, mem: AddedMemory)
    requires Entered(mem, pr, add) && Launched(l, cs, id, pr, add.length, add.init)
    ensures var sp, top := cs[3].s.rcsp.addr, pr.hull.base + add.length - add.pageSize;
      var room := StringBytes(add.start.args) + StringBytes(add.start.env) + 128
                  + 8 * (|add.start.args| + |add.start.env| + 3);
      && sp % 16 == 0 && sp + room <= top < sp + room + 16 && top - 0x8_0000 <= sp
    ensures BytesAt(mem.started, pr.retVar, add.retCap)
    ensures VariablesApart(pr) ==>
      && Word(mem.started, pr.baseVar) == pr.hull.top
      && Word(mem.started, pr.topVar) == pr.hull.base + add.length - 2 * add.pageSize - 0x10_0000
  {
    InitializationStarts(l, cs, id, pr, add.length, add.init);
    FinalSpExactly(pr.stackTop, add.start.args, add.start.env, pr.sp);
  }

  // --- A narrowed DDC --------------------------------------------------------------------------

  // An initialization that hands back only the first page of its DDC gives up the rest of its range:
  // a second reservation is accepted over the first.
  lemma NarrowedReservationLost(l: Layout, cs: seq<Config>, pr: Prepared, init: InitRun) returns (second: Range)
    requires Launched(l, cs, 0, pr, 0x100_0000, init) && pr.executable.base < pr.executable.top < TWO64
    requires forall k :: 0 <= k < MAX_COMPARTMENTS ==> !cs[0].s.table[k].entryPoint.tag
    requires pr.hull.base == 0x100_0000
    requires init.rddc == SetBounds(DdcFor(pr.Reserved(0x100_0000)), 0x100_0000, 0x1000)
    ensures init.rddc.tag && init.rddc.DerivedFrom(DdcFor(pr.Reserved(0x100_0000)))
    ensures Reservable(second, 0x1000) && RangeFree(second, 0x200_0000, cs[6].s.table)
    ensures second.Intersects(pr.Reserved(0x100_0000))
  {
    second := Range(0x101_0000, 0x200_0000);
    LowBitsIsRemainder(0x101_0000, 0x1000);
    LowBitsIsRemainder(0x200_0000, 0x1000);
    forall k | 0 <= k < MAX_COMPARTMENTS && cs[6].s.table[k].entryPoint.tag
      ensures !DdcRange(cs[6].s.table[k]).Intersects(second)
    {
      assert k == 0;
    }
  }

  // --- The allocator of a placed compartment ---------------------------------------------------

  // The allocator's state when the compartment is entered for the first time.
  function FirstHeap(mem: AddedMemory, pr: Prepared, add: AddInput): Heap {
    Heap(add.pageSize, pr.Reserved(add.length), pr.baseVar, pr.topVar, mem.started)
  }

  lemma FirstHeapPlaced(h: Heap, hull: Range, length: nat, window: Range)
    requires IsPageSize(h.pageSize) && STACK_SIZE + 2 * h.pageSize <= hull.base + length
    requires h.ddc == Range(hull.base, hull.base + length)
    requires Aligned(h.ddc.base, h.pageSize) && Aligned(h.ddc.top, h.pageSize)
    requires window == PartsOf(hull, length, STACK_SIZE, h.pageSize).window
    requires window.base <= window.top && Aligned(window.top, h.pageSize)
    requires VariableIn(h.mem, hull, h.baseVar, 8) && VariableIn(h.mem, hull, h.topVar, 8)
    requires Disjoint(h.baseVar, 8, h.topVar, 8)
    requires Word(h.mem, h.baseVar) == window.base && Word(h.mem, h.topVar) == window.top
    ensures Sound(h) && WindowBase(h) == window.base && Top(h) == window.top
  {
  }

  // What placing leaves of that.
  lemma PlacedWindow(before: Memory, image: Memory, pr: Prepared, input: ElfInput, length: nat, p: nat)
    requires Placed(before, image, pr, input, length, p)
    ensures STACK_SIZE + 2 * p <= pr.hull.base + length
    ensures Aligned(pr.hull.base, p) && Aligned(pr.hull.base + length, p)
    ensures pr.window == PartsOf(pr.hull, length, STACK_SIZE, p).window
    ensures pr.window.base <= pr.window.top && Aligned(pr.window.top, p)
  {
  }

  lemma FirstHeapWindow(mem: AddedMemory, pr: Prepared, add: AddInput)
    requires Entered(mem, pr, add) && VariablesApart(pr)
    ensures var h := FirstHeap(mem, pr, add);
      Sound(h) && WindowBase(h) == pr.window.base && Top(h) == pr.window.top
  {
    PlacedWindow(mem.before, mem.image, pr, add.elf, add.length, add.pageSize);
    FirstHeapPlaced(FirstHeap(mem, pr, add), pr.hull, add.length, pr.window);
  }

  lemma FirstHeapFull(mem: AddedMemory, pr: Prepared, add: AddInput)
    requires Entered(mem, pr, add)
    ensures NoHoles(FirstHeap(mem, pr, add))
  {
    var parts := PartsOf(pr.hull, add.length, STACK_SIZE, add.pageSize);
    assert forall a: nat :: parts.hull.base <= a < parts.highGuard.top ==> a in mem.image;
  }

  // CompartmentAdd hands the allocator a sound state over a range without holes, with the window
  // that SetupMappings left, provided that the file keeps the variables apart.
  lemma FirstHeapSound(mem: AddedMemory, pr: Prepared, add: AddInput)
    requires Entered(mem, pr, add) && VariablesApart(pr)
    ensures var h := FirstHeap(mem, pr, add);
      Sound(h) && NoHoles(h) && WindowBase(h) == pr.window.base && Top(h) == pr.window.top
  {
    FirstHeapWindow(mem, pr, add);
    FirstHeapFull(mem, pr, add);
  }

  // Over any history of a placed compartment's allocator that spares the variables, granted mappings
  // miss every page of the segments (also the last one, in which the window begins), both guard
  // pages and the stack.
  lemma GrantsMissEverything(hs: seq<Heap>, ms: seq<Heap>, rs: seq<Request>, outs: seq<MapResult>, n: nat, i: nat,
                             mem: AddedMemory, pr: Prepared, add: AddInput, a: nat)
    requires Entered(mem, pr, add) && VariablesApart(pr)
    requires History(hs, ms, rs, outs) && Sparing(hs, rs) && n <= |rs| && hs[0] == FirstHeap(mem, pr, add)
    requires i < |Grants(rs, outs, add.pageSize, n)| && Grants(rs, outs, add.pageSize, n)[i].Contains(a)
    ensures RoundUp(pr.hull.top, add.pageSize) <= a
    ensures var parts := PartsOf(pr.hull, add.length, STACK_SIZE, add.pageSize);
      !parts.lowGuard.Contains(a) && !parts.stack.Contains(a) && !parts.highGuard.Contains(a)
  {
    FirstHeapSound(mem, pr, add);
    GrantsStacked(hs, ms, rs, outs, n);
  }

  // As long as the variables are sound, every call is one that isolation allows.
  lemma SoundServesIsolation(h: Heap, r: Request)
    requires Sound(h)
    ensures KeptIn(h, r, h.ddc)
  {
    SoundConfines(h);
  }

  // --- What isolation asks of placement --------------------------------------------------------

  // The descriptor that CompartmentAdd installs, and the entry point it installs in the end, are
  // such as the steps of isolation's system ask for: DDC spans exactly the reserved range, which is
  // unclaimed in the table, and nothing else can store.
  lemma PlacementServesIsolation(pr: Prepared, length: nat, lowest: nat, table: Table)
    requires pr.hull.base + length < TWO64 && pr.sp < TWO64 && pr.entry < TWO64
    requires pr.executable.base < pr.executable.top < TWO64
    requires RangeFree(pr.Reserved(length), lowest, table)
    ensures var desc, entry := DescriptorOf(pr, pr.Reserved(length)), EntryFor(pr.executable, pr.entry);
      && Isolation.Bounds(desc.ddc) == pr.Reserved(length) && Unclaimed(Isolation.Bounds(desc.ddc), table)
      && desc.entryPoint.tag && desc.updateOnReturn && entry.tag
      && Isolation.NoStores(desc.csp) && Isolation.NoStores(desc.ctpidr) && Isolation.NoStores(desc.entryPoint)
      && Isolation.NoStores(entry)
  {
  }
}
