/** The first half of CompartmentAdd (src/compartment-manager/compartment_manager.cpp): reading the
    compartment's file, placing and mapping it, filling its stack and setting its variables. */
module CompartmentLoader {
  import opened Wrappers
  import opened Words
  import opened Ranges
  import opened AddressSpaces
  import opened MemoryWords
  import opened Switcher
  import opened ElfFormat
  import opened ElfHull
  import opened ElfImage
  import opened ElfSearch
  import opened ElfLoader
  import opened Placement
  import opened StackReader
  import opened InitialStack

  // What can be read from the compartment's ELF file.
  datatype ElfInput = ElfInput(file: seq<byte>, ehdr: Ehdr, headerOk: bool, phs: seq<Option<Phdr>>,
                               symbols: Option<SymbolTable>)

  // The names of the special symbols.
  datatype SymbolNames = SymbolNames(entry: seq<byte>, call: seq<byte>, ret: seq<byte>,
                                     mmapBase: seq<byte>, mmapTop: seq<byte>)

  // What goes onto the initial stack: the path and the arguments for main(), environment strings and
  // 16 random bytes.
  datatype Start = Start(args: seq<seq<byte>>, env: seq<seq<byte>>, random: seq<byte>) {
    predicate Valid() {
      |random| == 16 && |args| < TWO64
    }

    function FinalSp(stackTop: int): int {
      InitialStack.FinalSp(stackTop, args, env)
    }
  }

  // The gABI's assumptions on the file; symbols do not wrap around the address space.
  ghost predicate ConformingInput(input: ElfInput, p: nat)
    requires p > 0
  {
    && ConformingFile(input.phs, p)
    && (input.symbols.Some? ==> NoSymbolWraps(input.symbols.value))
  }

  ghost predicate NoSymbolWraps(table: SymbolTable) {
    forall i :: 0 <= i < |table.symbols| ==> table.symbols[i].value + table.symbols[i].size < TWO64
  }

  // The segments leave room for the reserved range, the stack and the guard pages below 2^64.
  ghost predicate RoomFor(input: ElfInput, length: nat, p: nat)
    requires p > 0
  {
    forall i :: 0 <= i < |Loads(input.phs, p)| ==>
      var r := Loads(input.phs, p)[i].memRange; r.base + length < TWO64 && r.top + STACK_SIZE + 2 * p < TWO64
  }

  // --- When loading succeeds -------------------------------------------------------------------

  // Read() accepts the file.
  ghost predicate FileAccepted(input: ElfInput, p: nat)
    requires p > 0
  {
    match input
    case ElfInput(_, ehdr, headerOk, phs, symbols) =>
      && headerOk && symbols.Some? && GoodHeaders(phs) && HullFree(Loads(phs, p))
      && FirstAllows(Loads(phs, p), Range(ehdr.entry, Add64(ehdr.entry, 4)), PROT_EXEC)
      && HullOf(Loads(phs, p), Executable).base < HullOf(Loads(phs, p), Executable).top
  }

  // The checks of Read(), header by header and segment by segment.

  // A static executable's header: no dynamic segment or interpreter, and a segment that is larger than
  // its part of the file is writable.
  predicate StaticHeader(oph: Option<Phdr>) {
    && oph.Some?
    && (oph.value.kind == PT_OTHER
        || (&& oph.value.kind == PT_LOAD && oph.value.filesz <= oph.value.memsz
            && (oph.value.filesz == oph.value.memsz || oph.value.flags.write)))
  }

  // The first segment that holds four bytes from a on is executable.
  predicate CodeAt(segs: seq<Segment>, a: u64) {
    exists i :: 0 <= i < |segs| && segs[i].prot.exec && HoldsCode(segs[i], a)
                && forall j :: 0 <= j < i ==> !HoldsCode(segs[j], a)
  }

  predicate HoldsCode(seg: Segment, a: u64) {
    seg.memRange.base <= a && (a + 4) % 0x1_0000_0000_0000_0000 <= seg.memRange.top
  }

  predicate SomeCode(segs: seq<Segment>) {
    exists i, j :: 0 <= i < |segs| && 0 <= j < |segs| && segs[i].prot.exec && segs[j].prot.exec
                   && segs[i].memRange.base < segs[j].memRange.top
  }

  lemma FileAcceptedExactly(input: ElfInput, p: nat)
    requires p > 0
    ensures FileAccepted(input, p) <==>
      && input.headerOk && input.symbols.Some?
      && (forall i :: 0 <= i < |input.phs| ==> StaticHeader(input.phs[i]))
      && (forall k: nat :: k < |Loads(input.phs, p)| ==> OnOneSide(Loads(input.phs, p), k))
      && CodeAt(Loads(input.phs, p), input.ehdr.entry) && SomeCode(Loads(input.phs, p))
  {
    var segs := Loads(input.phs, p);
    assert forall i :: 0 <= i < |input.phs| ==> (GoodHeader(input.phs[i]) <==> StaticHeader(input.phs[i]));
    HullFreeExactly(segs);
    CodeAtExactly(segs, input.ehdr.entry);
    LoadsBases(input.phs, p);
    SomeCodeExactly(segs);
  }

  lemma CodeAtExactly(segs: seq<Segment>, a: u64)
    ensures FirstAllows(segs, Range(a, Add64(a, 4)), PROT_EXEC) <==> CodeAt(segs, a)
  {
    var r := Range(a, Add64(a, 4));
    assert forall i :: 0 <= i < |segs| ==> (segs[i].memRange.ContainsRange(r) <==> HoldsCode(segs[i], a));
  }

  lemma SomeCodeExactly(segs: seq<Segment>)
    requires forall i :: 0 <= i < |segs| ==> segs[i].memRange.base < TWO64
    ensures HullOf(segs, Executable).base < HullOf(segs, Executable).top <==> SomeCode(segs)
  {
    var hull := HullOf(segs, Executable);
    HullOfIsHull(segs, Executable);
    if hull.base < hull.top {
      var i :| 0 <= i < |segs| && Executable(segs[i]) && segs[i].memRange.base == hull.base;
      var j :| 0 <= j < |segs| && Executable(segs[j]) && segs[j].memRange.top == hull.top;
    }
    if SomeCode(segs) {
      var i, j :| 0 <= i < |segs| && 0 <= j < |segs| && segs[i].prot.exec && segs[j].prot.exec
                  && segs[i].memRange.base < segs[j].memRange.top;
      assert Executable(segs[i]) && Executable(segs[j]);
      assert hull.ContainsRange(segs[i].memRange) && hull.ContainsRange(segs[j].memRange);
    }
  }

  // FindSymbol finds the symbol.
  ghost predicate HasSymbol(table: SymbolTable, name: seq<byte>, size: nat, segs: seq<Segment>, want: Prot) {
    exists i: nat :: FirstMatch(table, name, i) && Settle(table.symbols[i], size, segs, want) != 0
  }

  ghost predicate HasSymbols(table: SymbolTable, names: SymbolNames, segs: seq<Segment>) {
    match names
    case SymbolNames(entry, call, ret, mmapBase, mmapTop) =>
      && HasSymbol(table, entry, 0, segs, PROT_EXEC)
      && HasSymbol(table, call, 16, segs, PROT_READ_WRITE) && HasSymbol(table, ret, 16, segs, PROT_READ_WRITE)
      && HasSymbol(table, mmapBase, 8, segs, PROT_READ_WRITE) && HasSymbol(table, mmapTop, 8, segs, PROT_READ_WRITE)
  }

  // A search for the name has an answer.
  ghost predicate HasAnswer(table: SymbolTable, name: seq<byte>, size: nat, segs: seq<Segment>, want: Prot) {
    exists i: nat :: Answers(table, name, size, segs, want, i)
  }

  ghost predicate ProperNames(table: SymbolTable, names: SymbolNames, p: nat)
    requires p > 0
  {
    && ProperName(table, names.entry, p) && ProperName(table, names.call, p) && ProperName(table, names.ret, p)
    && ProperName(table, names.mmapBase, p) && ProperName(table, names.mmapTop, p)
  }

  lemma HasSymbolExactly(table: SymbolTable, name: seq<byte>, size: nat, segs: seq<Segment>, want: Prot, p: nat)
    requires p > 0 && Accepted(segs, p) && ProperName(table, name, p)
    ensures HasSymbol(table, name, size, segs, want) <==> HasAnswer(table, name, size, segs, want)
  {
    forall addr: nat
      ensures Finds(table, name, size, segs, want, addr) <==>
              exists i: nat :: Answers(table, name, size, segs, want, i) && addr == table.symbols[i].value
    {
      FindsExactly(table, name, size, segs, want, p, addr);
    }
    if HasSymbol(table, name, size, segs, want) {
      var i: nat :| FirstMatch(table, name, i) && Settle(table.symbols[i], size, segs, want) != 0;
      assert Finds(table, name, size, segs, want, Settle(table.symbols[i], size, segs, want));
    }
    if HasAnswer(table, name, size, segs, want) {
      var i: nat :| Answers(table, name, size, segs, want, i);
      assert Finds(table, name, size, segs, want, table.symbols[i].value);
    }
  }

  // The five symbols are found exactly if the file has a function, two variables of 16 bytes and two
  // of 8 bytes of these names, in segments that allow executing the one and reading and writing the
  // others.
  lemma HasSymbolsExactly(table: SymbolTable, names: SymbolNames, segs: seq<Segment>, p: nat)
    requires p > 0 && Accepted(segs, p) && ProperNames(table, names, p)
    ensures HasSymbols(table, names, segs) <==>
      && HasAnswer(table, names.entry, 0, segs, Prot(false, false, true))
      && HasAnswer(table, names.call, 16, segs, Prot(true, true, false))
      && HasAnswer(table, names.ret, 16, segs, Prot(true, true, false))
      && HasAnswer(table, names.mmapBase, 8, segs, Prot(true, true, false))
      && HasAnswer(table, names.mmapTop, 8, segs, Prot(true, true, false))
  {
    HasSymbolExactly(table, names.entry, 0, segs, PROT_EXEC, p);
    HasSymbolExactly(table, names.call, 16, segs, PROT_READ_WRITE, p);
    HasSymbolExactly(table, names.ret, 16, segs, PROT_READ_WRITE, p);
    HasSymbolExactly(table, names.mmapBase, 8, segs, PROT_READ_WRITE, p);
    HasSymbolExactly(table, names.mmapTop, 8, segs, PROT_READ_WRITE, p);
  }

  // The segments can be mapped, and the range be reserved.
  ghost predicate CanPlace(input: ElfInput, length: nat, p: nat, lowest: nat, table: Table) {
    && p > 0 && HaveFileParts(Loads(input.phs, p))
    && RangeFits(HullOf(Loads(input.phs, p), AnySegment), length, p, lowest, table)
  }

  // The initial stack fits in the upper half of the stack.
  predicate StackFits(stackTop: int, start: Start) {
    stackTop - STACK_SIZE / 2 <= start.FinalSp(stackTop)
  }

  // Both, for the stack where it is placed.
  ghost predicate HasRoom(input: ElfInput, length: nat, p: nat, lowest: nat, table: Table, start: Start) {
    && CanPlace(input, length, p, lowest, table)
    && StackFits(HullOf(Loads(input.phs, p), AnySegment).base + length - p, start)
  }

  lemma RoomIfStackFits(input: ElfInput, length: nat, p: nat, lowest: nat, table: Table, start: Start, stackTop: int)
    requires CanPlace(input, length, p, lowest, table)
    requires stackTop == HullOf(Loads(input.phs, p), AnySegment).base + length - p
    ensures HasRoom(input, length, p, lowest, table, start) <==> StackFits(stackTop, start)
  {
  }

  // Load() succeeds, unless the kernel refuses a mapping.
  ghost predicate CanLoad(input: ElfInput, names: SymbolNames, length: nat, p: nat, lowest: nat, table: Table,
                          start: Start)
    requires p > 0
  {
    && FileAccepted(input, p)
    && HasSymbols(input.symbols.value, names, Loads(input.phs, p))
    && HasRoom(input, length, p, lowest, table, start)
  }

  // Room is a matter of the file's headers, of the range from the lowest segment's page on, and of the
  // size of the initial stack.
  lemma HasRoomExactly(input: ElfInput, length: nat, p: nat, lowest: nat, table: Table, start: Start, hull: Range)
    requires p > 0 && ConformingInput(input, p) && GoodHeaders(input.phs)
    requires hull == HullOf(Loads(input.phs, p), AnySegment) && hull.base < hull.top
    ensures HasRoom(input, length, p, lowest, table, start) <==>
      && (forall i :: 0 <= i < |input.phs| && input.phs[i].Some? && input.phs[i].value.kind == PT_LOAD ==>
            !(input.phs[i].value.filesz == 0 && input.phs[i].value.offset % p == 0))
      && hull.base + length <= lowest && NoDdcMeets(table, hull.base, hull.base + length)
      && hull.top - hull.base + 0x10_0000 + 2 * p <= length && (hull.base + length) % p == 0
      && var top := hull.base + length - p; top - 0x8_0000 <= InitialStack.FinalSp(top, start.args, start.env)
  {
    FilePartsExactly(input.phs, p);
    RangeFitsExactly(hull, length, p, lowest, table);
    forall i | 0 <= i < |input.phs| && IsLoad(input.phs[i])
      ensures NoFilePart(input.phs[i].value, p) <==>
              input.phs[i].value.filesz == 0 && input.phs[i].value.offset % p == 0
    {
      LowBitsIsRemainder(input.phs[i].value.offset, p);
    }
  }

  // --- The special symbols ---------------------------------------------------------------------

  datatype Symbols = Symbols(entry: nat, callVar: nat, retVar: nat, baseVar: nat, topVar: nat)

  // Each symbol is what the search for its name settles on.
  ghost predicate SymbolsFound(table: SymbolTable, names: SymbolNames, segs: seq<Segment>, syms: Symbols) {
    && syms.entry < TWO64 && Finds(table, names.entry, 0, segs, PROT_EXEC, syms.entry)
    && Finds(table, names.call, 16, segs, PROT_READ_WRITE, syms.callVar)
    && Finds(table, names.ret, 16, segs, PROT_READ_WRITE, syms.retVar)
    && Finds(table, names.mmapBase, 8, segs, PROT_READ_WRITE, syms.baseVar)
    && Finds(table, names.mmapTop, 8, segs, PROT_READ_WRITE, syms.topVar)
  }

  // The variable can be read and written, and lies in the hull.
  ghost predicate VariableIn(m: Memory, hull: Range, addr: nat, size: nat) {
    Accessible(m, addr, size) && hull.base <= addr && addr + size <= hull.top
  }

  // An imaged segment of suitable protection can be read and written.
  lemma SegmentAccessible(m: Memory, seg: Segment, file: seq<byte>, addr: nat, size: nat)
    requires Imaged(m, seg, file) && Allows(seg.prot, PROT_READ_WRITE)
    requires forall a: nat :: addr <= a < addr + size ==> seg.memRange.Contains(a)
    ensures Accessible(m, addr, size)
  {
    forall a | addr <= a < addr + size
      ensures a in m && m[a].prot.read && m[a].prot.write
    {
      assert seg.memRange.Contains(a);
    }
  }

  lemma VariableInHull(m: Memory, segs: seq<Segment>, file: seq<byte>, hull: Range, table: SymbolTable,
                       name: seq<byte>, size: nat, addr: nat)
    requires Finds(table, name, size, segs, PROT_READ_WRITE, addr) && NoSymbolWraps(table) && size > 0
    requires forall i :: 0 <= i < |segs| ==> Imaged(m, segs[i], file)
    requires IsHull(segs, AnySegment, hull)
    ensures VariableIn(m, hull, addr, size)
  {
    var k: nat :| FirstMatch(table, name, k) && addr == Settle(table.symbols[k], size, segs, PROT_READ_WRITE);
    FoundSymbolIsUsable(table.symbols[k], size, segs, PROT_READ_WRITE);
    var i :| 0 <= i < |segs| && Allows(segs[i].prot, PROT_READ_WRITE)
             && forall a: nat :: addr <= a < addr + size ==> segs[i].memRange.Contains(a);
    SegmentAccessible(m, segs[i], file, addr, size);
    assert AnySegment(segs[i]);
    assert segs[i].memRange.Contains(addr) && segs[i].memRange.Contains(addr + size - 1);
  }

  // --- A prepared compartment ------------------------------------------------------------------

  datatype Prepared = Prepared(hull: Range, executable: Range, stackTop: nat, sp: nat, window: Range,
                               entry: nat, start: u64, callVar: nat, retVar: nat, baseVar: nat, topVar: nat,
                               aux: AuxValues)
  {
    // What SetupMappings reserves, from the hull's base on.
    function Reserved(length: nat): Range {
      Range(hull.base, hull.base + length)
    }

    function Syms(): Symbols {
      Symbols(entry, callVar, retVar, baseVar, topVar)
    }
  }

  // The value is that of the first variable of the name, which is of this size and in writable memory.
  ghost predicate IsVariable(table: SymbolTable, name: seq<byte>, size: nat, segs: seq<Segment>, addr: nat) {
    exists i: nat :: Answers(table, name, size, segs, Prot(true, true, false), i) && addr == table.symbols[i].value
  }

  // Each of a compartment's five symbols is the one of its name.
  lemma SymbolsFoundExactly(table: SymbolTable, names: SymbolNames, segs: seq<Segment>, p: nat, pr: Prepared)
    requires p > 0 && Accepted(segs, p) && ProperNames(table, names, p) && pr.entry < TWO64
    ensures SymbolsFound(table, names, segs, pr.Syms()) <==>
      && (exists i: nat :: Answers(table, names.entry, 0, segs, Prot(false, false, true), i)
                           && pr.entry == table.symbols[i].value)
      && IsVariable(table, names.call, 16, segs, pr.callVar) && IsVariable(table, names.ret, 16, segs, pr.retVar)
      && IsVariable(table, names.mmapBase, 8, segs, pr.baseVar)
      && IsVariable(table, names.mmapTop, 8, segs, pr.topVar)
  {
    FindsExactly(table, names.entry, 0, segs, PROT_EXEC, p, pr.entry);
    FindsExactly(table, names.call, 16, segs, PROT_READ_WRITE, p, pr.callVar);
    FindsExactly(table, names.ret, 16, segs, PROT_READ_WRITE, p, pr.retVar);
    FindsExactly(table, names.mmapBase, 8, segs, PROT_READ_WRITE, p, pr.baseVar);
    FindsExactly(table, names.mmapTop, 8, segs, PROT_READ_WRITE, p, pr.topVar);
  }

  lemma LoadedRangeFree(input: ElfInput, names: SymbolNames, length: nat, p: nat, lowest: nat, table: Table,
                        start: Start, pr: Prepared)
    requires p > 0 && CanLoad(input, names, length, p, lowest, table, start)
    requires IsHull(Loads(input.phs, p), AnySegment, pr.hull)
    ensures RangeFree(pr.Reserved(length), lowest, table)
  {
    LoadsHull(input.phs, p, AnySegment, pr.hull);
  }

  // The file's segments have been placed and mapped: image is memory at that moment.
  ghost predicate Placed(before: Memory, image: Memory, pr: Prepared, input: ElfInput, length: nat, p: nat) {
    && p > 0 && pr.hull.base < pr.hull.top && pr.hull.base + length < TWO64
    && GoodHeaders(input.phs) && IsHull(Loads(input.phs, p), AnySegment, pr.hull)
    && SetUp(before, image, Loads(input.phs, p), input.file, pr.hull, length, p)
    && pr.stackTop == PartsOf(pr.hull, length, STACK_SIZE, p).stack.top
    && pr.window == PartsOf(pr.hull, length, STACK_SIZE, p).window
  }

  ghost predicate VariablesIn(m: Memory, pr: Prepared) {
    && VariableIn(m, pr.hull, pr.callVar, 16) && VariableIn(m, pr.hull, pr.retVar, 16)
    && VariableIn(m, pr.hull, pr.baseVar, 8) && VariableIn(m, pr.hull, pr.topVar, 8)
  }

  // The auxiliary values are the file's, and the page size.
  ghost predicate AuxOf(aux: AuxValues, input: ElfInput, p: nat)
    requires p > 0
  {
    && aux.phnum == input.ehdr.phnum && aux.phent == input.ehdr.phentsize && aux.pagesz == p
    && IsPhdrAddress(Loads(input.phs, p), input.ehdr, aux.phdr)
  }

  // Code is in the segments.
  ghost predicate Runnable(pr: Prepared, input: ElfInput, p: nat)
    requires p > 0
  {
    && IsHull(Loads(input.phs, p), Executable, pr.executable) && pr.executable.base < pr.executable.top
    && pr.entry < TWO64 && pr.start == input.ehdr.entry
  }

  // The initial stack is complete.
  ghost predicate StackFilled(m: Memory, pr: Prepared, start: Start) {
    && pr.sp == start.FinalSp(pr.stackTop) && pr.sp % 16 == 0 && pr.stackTop - STACK_SIZE / 2 <= pr.sp < pr.stackTop
    && Started(m, pr.sp, pr.stackTop, start.args, start.env, start.random, pr.aux)
  }

  // Setting the top comes last, so it holds even if the two variables overlap.
  ghost predicate WindowSet(m: Memory, window: Range, baseVar: nat, topVar: nat) {
    && Accessible(m, baseVar, 8) && Accessible(m, topVar, 8)
    && Word(m, topVar) == window.top
    && (Disjoint(baseVar, 8, topVar, 8) ==> Word(m, baseVar) == window.base)
  }

  predicate Disjoint(a: nat, n: nat, b: nat, k: nat) {
    a + n <= b || b + k <= a
  }

  // From the image m to the memory now, only the upper half of the stack and the two mmap variables
  // change.
  ghost predicate FilledFrame(m: Memory, now: Memory, hull: Range, stackTop: nat, baseVar: nat, topVar: nat) {
    && (forall a: nat {:trigger SameAt(m, now, a)} ::
          a < stackTop - STACK_SIZE / 2 && !(baseVar <= a < baseVar + 8) && !(topVar <= a < topVar + 8) ==>
            SameAt(m, now, a))
    && SameOutside(m, now, hull.base, stackTop)
    && m.Keys <= now.Keys
  }

  // A compartment has been placed and filled; now is memory at this moment.
  ghost predicate PreparedFrom(before: Memory, image: Memory, now: Memory, pr: Prepared, input: ElfInput,
                               length: nat, p: nat, start: Start)
  {
    && Placed(before, image, pr, input, length, p) && Runnable(pr, input, p) && AuxOf(pr.aux, input, p)
    && VariablesIn(now, pr)
    && FilledFrame(image, now, pr.hull, pr.stackTop, pr.baseVar, pr.topVar)
    && WindowSet(now, pr.window, pr.baseVar, pr.topVar)
    && StackFilled(now, pr, start)
  }

  class Loader {
    const space: AddressSpace
    const lowest: nat

    constructor (space: AddressSpace, lowest: nat)
      ensures this.space == space && this.lowest == lowest
    {
      this.space, this.lowest := space, lowest;
    }

    // Reads and checks the file; None is exit(1).
    method ReadElf(input: ElfInput, length: nat) returns (res: Option<StaticElfExecutable>)
      requires IsPageSize(space.pageSize) && ConformingInput(input, space.pageSize)
      requires RoomFor(input, length, space.pageSize)
      ensures res.Some? <==> FileAccepted(input, space.pageSize)
      ensures res.Some? ==> fresh(res.value) && Describes(res.value, input, length, space.pageSize)
    {
      var p := space.pageSize;
      var elf := new StaticElfExecutable(p, input.file, input.ehdr);
      var ok := elf.Read(input.headerOk, input.phs, input.symbols);
      assert [] + Loads(input.phs, p) == Loads(input.phs, p);
      LoadsHull(input.phs, p, Executable, elf.executableRange);
      LoadsHull(input.phs, p, AnySegment, elf.totalRange);
      if !ok {
        return None;
      }
      ReadPlaceable(input, elf.totalRange, elf.executableRange, length, p);
      res := Some(elf);
    }

    // GetElfDataSymbol: a writable variable of exactly the given size; None is exit(1).
    method FindVariable(elf: StaticElfExecutable, name: seq<byte>, size: nat) returns (res: Option<nat>)
      requires elf.initialized
      ensures res.Some? <==> HasSymbol(elf.symtab, name, size, elf.loadSegments, PROT_READ_WRITE)
      ensures res.Some? ==> Finds(elf.symtab, name, size, elf.loadSegments, PROT_READ_WRITE, res.value)
    {
      var addr := elf.FindSymbol(name, size, PROT_READ_WRITE);
      res := if addr == 0 then None else Some(addr);
    }

    // The five special symbols; None is exit(1).
    method FindSymbols(elf: StaticElfExecutable, names: SymbolNames) returns (res: Option<Symbols>)
      requires elf.initialized
      ensures res.Some? <==> HasSymbols(elf.symtab, names, elf.loadSegments)
      ensures res.Some? ==> SymbolsFound(elf.symtab, names, elf.loadSegments, res.value)
    {
      var entry := elf.FindSymbol(names.entry, 0, PROT_EXEC);
      assert entry != 0 <==> HasSymbol(elf.symtab, names.entry, 0, elf.loadSegments, PROT_EXEC);
      var callVar := FindVariable(elf, names.call, 16);
      var retVar := FindVariable(elf, names.ret, 16);
      var baseVar := FindVariable(elf, names.mmapBase, 8);
      var topVar := FindVariable(elf, names.mmapTop, 8);
      if entry == 0 || callVar.None? || retVar.None? || baseVar.None? || topVar.None? {
        return None;
      }
      res := Some(Symbols(entry, callVar.value, retVar.value, baseVar.value, topVar.value));
    }

    // The auxiliary values that come from the file, and the page size.
    method AuxValuesOf(elf: StaticElfExecutable) returns (aux: AuxValues)
      requires elf.pageSize == space.pageSize && IsPageSize(space.pageSize)
      requires forall i :: 0 <= i < |elf.loadSegments| ==> Mappable(elf.loadSegments[i], elf.pageSize)
      ensures aux.phnum == elf.ehdr.phnum && aux.phent == elf.ehdr.phentsize && aux.pagesz == space.pageSize
      ensures IsPhdrAddress(elf.loadSegments, elf.ehdr, aux.phdr)
    {
      var phdr := elf.GetAuxPhdr();
      PhdrAddressFits(elf.loadSegments, elf.ehdr, elf.pageSize, phdr);
      aux := AuxValues(elf.ehdr.phnum, elf.ehdr.phentsize, phdr, elf.pageSize);
    }

    // The initial stack; None is exit(1) for lack of stack space, or a fault.
    method FillStack(pr: Prepared, start: Start) returns (res: Option<Prepared>)
      requires STACK_SIZE <= pr.stackTop < TWO64 && start.Valid()
      requires Writable(space.mem, pr.stackTop - STACK_SIZE / 2, STACK_SIZE / 2)
      modifies space`mem
      ensures SameOutside(old(space.mem), space.mem, pr.stackTop - STACK_SIZE / 2, pr.stackTop)
      ensures old(space.mem).Keys <= space.mem.Keys
      ensures res.Some? <==> StackFits(pr.stackTop, start)
      ensures res.Some? ==> res.value == pr.(sp := res.value.sp) && StackFilled(space.mem, res.value, start)
    {
      ghost var m := space.mem;
      var stack := new StackBuilder(space, pr.stackTop, STACK_SIZE);
      var ok := stack.SetupCompartmentStack(start.args, start.env, start.random, pr.aux);
      KeysKept(m, space.mem, pr.stackTop - STACK_SIZE / 2, pr.stackTop);
      FinalSpAligned(pr.stackTop, start.args, start.env);
      FinalSpBelowTop(pr.stackTop, start.args, start.env);
      res := if ok then Some(pr.(sp := stack.sp)) else None;
    }

    // *mmap_range_base_sym and *mmap_range_top_sym.
    method SetMmapRange(baseVar: nat, topVar: nat, window: Range)
      requires Accessible(space.mem, baseVar, 8) && Accessible(space.mem, topVar, 8)
      requires window.base < TWO64 && window.top < TWO64
      modifies space`mem
      ensures WindowStored(old(space.mem), space.mem, baseVar, topVar, window)
    {
      StoredAccessible(space.mem, baseVar, Encode(window.base, 8), topVar, 8);
      space.Store(baseVar, Encode(window.base, 8));
      space.Store(topVar, Encode(window.top, 8));
    }

    // Fills the stack of a mapped compartment and sets its two mmap variables.
    method FillMapped(pr: Prepared, start: Start) returns (res: Option<Prepared>)
      requires Fillable(space.mem, pr) && start.Valid()
      modifies space`mem
      ensures res.Some? <==> StackFits(pr.stackTop, start)
      ensures res.Some? ==>
        && res.value == pr.(sp := res.value.sp)
        && FilledFrame(old(space.mem), space.mem, pr.hull, pr.stackTop, pr.baseVar, pr.topVar)
        && WindowSet(space.mem, pr.window, pr.baseVar, pr.topVar)
        && StackFilled(space.mem, res.value, start)
    {
      ghost var image := space.mem;
      res := FillStack(pr, start);
      if res.None? {
        return;
      }
      SetWindow(res.value, start, image);
    }

    // From the filled stack to the two variables; image is memory before either.
    method SetWindow(pr: Prepared, ghost start: Start, ghost image: Memory)
      requires Fillable(image, pr) && StackFilled(space.mem, pr, start)
      requires SameOutside(image, space.mem, pr.stackTop - STACK_SIZE / 2, pr.stackTop) && image.Keys <= space.mem.Keys
      modifies space`mem
      ensures FilledFrame(image, space.mem, pr.hull, pr.stackTop, pr.baseVar, pr.topVar)
      ensures WindowSet(space.mem, pr.window, pr.baseVar, pr.topVar) && StackFilled(space.mem, pr, start)
    {
      ghost var m := space.mem;
      StillAccessible(image, m, pr.stackTop - STACK_SIZE / 2, pr.stackTop, pr.baseVar, 8);
      StillAccessible(image, m, pr.stackTop - STACK_SIZE / 2, pr.stackTop, pr.topVar, 8);
      SetMmapRange(pr.baseVar, pr.topVar, pr.window);
      FilledAfter(image, m, space.mem, pr, start);
    }

    // Places and maps a compartment that has been read; its stack is still empty.
    method Place(elf: StaticElfExecutable, syms: Symbols, ghost input: ElfInput, ghost names: SymbolNames,
                 table: Table, length: nat)
      returns (res: Option<Prepared>)
      requires IsPageSize(space.pageSize) && Describes(elf, input, length, space.pageSize)
      requires SymbolsFound(elf.symtab, names, elf.loadSegments, syms) && NoSymbolWraps(elf.symtab)
      modifies space
      ensures res.Some? ==>
        && Placed(old(space.mem), space.mem, res.value, input, length, space.pageSize)
        && Runnable(res.value, input, space.pageSize) && AuxOf(res.value.aux, input, space.pageSize)
        && Fillable(space.mem, res.value) && res.value.Syms() == syms
        && res.value.stackTop == HullOf(Loads(input.phs, space.pageSize), AnySegment).base + length - space.pageSize
      ensures res.Some? ==> CanPlace(input, length, space.pageSize, lowest, table)
      ensures res.None? ==>
        !CanPlace(input, length, space.pageSize, lowest, table) || space.refusals > old(space.refusals)
    {
      ghost var before := space.mem;
      var aux := AuxValuesOf(elf);
      var placed := SetupMappings(elf, length, lowest, table, space);
      if placed.None? {
        return None;
      }
      var pr := Prepared(elf.totalRange, elf.executableRange, placed.value.0, 0, placed.value.1,
                         syms.entry, elf.ehdr.entry, syms.callVar, syms.retVar, syms.baseVar, syms.topVar, aux);
      PlacedFillable(before, space.mem, pr, input, length, space.pageSize, elf.symtab, names);
      res := Some(pr);
    }

    // Fills a compartment that has been placed; before is memory before that.
    method FillPlaced(pr: Prepared, ghost before: Memory, ghost input: ElfInput, ghost length: nat, start: Start)
      returns (res: Option<Prepared>)
      requires Placed(before, space.mem, pr, input, length, space.pageSize) && Runnable(pr, input, space.pageSize)
      requires AuxOf(pr.aux, input, space.pageSize) && Fillable(space.mem, pr) && start.Valid()
      modifies space`mem
      ensures res.Some? <==> StackFits(pr.stackTop, start)
      ensures res.Some? ==>
        && res.value == pr.(sp := res.value.sp)
        && PreparedFrom(before, old(space.mem), space.mem, res.value, input, length, space.pageSize, start)
    {
      ghost var image := space.mem;
      res := FillMapped(pr, start);
      if res.Some? {
        VariablesKept(image, space.mem, pr);
      }
    }

    // Places and fills a compartment that has been read.
    method Prepare(elf: StaticElfExecutable, syms: Symbols, ghost input: ElfInput, ghost names: SymbolNames,
                   table: Table, length: nat, start: Start)
      returns (res: Option<Prepared>, ghost image: Memory)
      requires IsPageSize(space.pageSize) && Describes(elf, input, length, space.pageSize)
      requires SymbolsFound(elf.symtab, names, elf.loadSegments, syms) && NoSymbolWraps(elf.symtab) && start.Valid()
      modifies space
      ensures res.Some? ==>
        && PreparedFrom(old(space.mem), image, space.mem, res.value, input, length, space.pageSize, start)
        && res.value.Syms() == syms
      ensures res.Some? ==> HasRoom(input, length, space.pageSize, lowest, table, start)
      ensures res.None? ==>
        !HasRoom(input, length, space.pageSize, lowest, table, start) || space.refusals > old(space.refusals)
    {
      ghost var before := space.mem;
      var placed := Place(elf, syms, input, names, table, length);
      image := space.mem;
      if placed.None? {
        return None, image;
      }
      RoomIfStackFits(input, length, space.pageSize, lowest, table, start, placed.value.stackTop);
      res := FillPlaced(placed.value, before, input, length, start);
    }

    // Step 1 of CompartmentAdd: read the file and find the special symbols.
    method ReadCompartment(input: ElfInput, names: SymbolNames, length: nat)
      returns (res: Option<(StaticElfExecutable, Symbols)>)
      requires IsPageSize(space.pageSize) && ConformingInput(input, space.pageSize)
      requires RoomFor(input, length, space.pageSize)
      ensures res.Some? <==>
        FileAccepted(input, space.pageSize) && HasSymbols(input.symbols.value, names, Loads(input.phs, space.pageSize))
      ensures res.Some? ==>
        && fresh(res.value.0) && Describes(res.value.0, input, length, space.pageSize)
        && SymbolsFound(res.value.0.symtab, names, res.value.0.loadSegments, res.value.1)
    {
      var elf := ReadElf(input, length);
      if elf.None? {
        return None;
      }
      var syms := FindSymbols(elf.value, names);
      res := if syms.None? then None else Some((elf.value, syms.value));
    }

    // Steps 1 and 2: read the file, find the special symbols, place and fill.
    method Load(input: ElfInput, names: SymbolNames, table: Table, length: nat, start: Start)
      returns (res: Option<Prepared>, ghost image: Memory)
      requires IsPageSize(space.pageSize) && ConformingInput(input, space.pageSize)
      requires RoomFor(input, length, space.pageSize) && start.Valid()
      modifies space
      ensures res.Some? ==>
        && CanLoad(input, names, length, space.pageSize, lowest, table, start)
        && PreparedFrom(old(space.mem), image, space.mem, res.value, input, length, space.pageSize, start)
        && SymbolsFound(input.symbols.value, names, Loads(input.phs, space.pageSize), res.value.Syms())
      ensures res.None? ==>
        !CanLoad(input, names, length, space.pageSize, lowest, table, start) || space.refusals > old(space.refusals)
    {
      image := space.mem;
      var read := ReadCompartment(input, names, length);
      if read.None? {
        return None, image;
      }
      var elf := read.value.0;
      res, image := Prepare(elf, read.value.1, input, names, table, length, start);
    }

    // A store by the manager; storing to memory that is not writable ends the process.
    method StoreOrFault(addr: nat, data: seq<byte>) returns (ok: bool)
      modifies space`mem
      ensures ok <==> Writable(old(space.mem), addr, |data|)
      ensures space.mem == if ok then Stored(old(space.mem), addr, data) else old(space.mem)
    {
      ok := Writable(space.mem, addr, |data|);
      if ok {
        space.Store(addr, data);
      }
    }
  }

  // elf is what Read() makes of the input.
  ghost predicate Describes(elf: StaticElfExecutable, input: ElfInput, length: nat, p: nat)
    requires p > 0
    reads elf
  {
    && elf.initialized && elf.pageSize == p && elf.file == input.file && elf.ehdr == input.ehdr
    && input.symbols == Some(elf.symtab) && GoodHeaders(input.phs)
    && elf.totalRange == HullOf(Loads(input.phs, p), AnySegment)
    && elf.loadSegments == Loads(input.phs, p) && Placeable(Loads(input.phs, p), elf.totalRange, length, p)
    && IsHull(Loads(input.phs, p), Executable, elf.executableRange)
    && elf.executableRange.base < elf.executableRange.top
  }

  lemma HullsNested(segs: seq<Segment>, total: Range, exec: Range)
    requires IsHull(segs, AnySegment, total) && IsHull(segs, Executable, exec) && exec.base < exec.top
    ensures segs != [] && total.base <= exec.base && exec.top <= total.top
    ensures exists i, j :: 0 <= i < |segs| && 0 <= j < |segs|
                           && segs[i].memRange.base == total.base && segs[j].memRange.top == total.top
  {
    var i :| 0 <= i < |segs| && Executable(segs[i]) && segs[i].memRange.base == exec.base;
    var j :| 0 <= j < |segs| && Executable(segs[j]) && segs[j].memRange.top == exec.top;
    assert AnySegment(segs[i]) && AnySegment(segs[j]);
    assert total.ContainsRange(segs[i].memRange) && total.ContainsRange(segs[j].memRange);
  }

  lemma ReadPlaceable(input: ElfInput, total: Range, exec: Range, length: nat, p: nat)
    requires IsPageSize(p) && ConformingInput(input, p) && RoomFor(input, length, p)
    requires GoodHeaders(input.phs) && HullFree(Loads(input.phs, p))
    requires IsHull(Loads(input.phs, p), AnySegment, total) && IsHull(Loads(input.phs, p), Executable, exec)
    requires exec.base < exec.top
    ensures Placeable(Loads(input.phs, p), total, length, p)
  {
    AcceptedMayBeMapped(input.phs, p);
    HullsNested(Loads(input.phs, p), total, exec);
  }

  lemma PhdrOffsetInSegment(seg: Segment, ehdr: Ehdr)
    requires HoldsPhdrs(seg, ehdr)
    ensures seg.fileOffset <= ehdr.phoff <= seg.fileOffset + seg.fileMappedSize
  {
    var size: nat := ehdr.phnum * ehdr.phentsize;
    assert ehdr.phoff + size <= seg.fileOffset + seg.fileMappedSize;
  }

  lemma PhdrAddressFits(segs: seq<Segment>, ehdr: Ehdr, p: nat, addr: nat)
    requires p > 0 && forall i :: 0 <= i < |segs| ==> Mappable(segs[i], p)
    requires IsPhdrAddress(segs, ehdr, addr)
    ensures addr < TWO64
  {
    if addr != 0 {
      var i: nat :| FirstHolder(segs, ehdr, i) && addr == segs[i].memRange.base + (ehdr.phoff - segs[i].fileOffset);
      assert Mappable(segs[i], p);
      PhdrOffsetInSegment(segs[i], ehdr);
    }
  }

  // --- From placed to filled -------------------------------------------------------------------

  // Memory in which a compartment has been placed, with its variables and its stack.
  ghost predicate Fillable(m: Memory, pr: Prepared) {
    && STACK_SIZE <= pr.stackTop < TWO64 && pr.hull.base <= pr.hull.top <= pr.stackTop - STACK_SIZE
    && Writable(m, pr.stackTop - STACK_SIZE / 2, STACK_SIZE / 2)
    && VariablesIn(m, pr)
    && pr.window.base < TWO64 && pr.window.top < TWO64
  }

  lemma FoundVariablesIn(m: Memory, segs: seq<Segment>, file: seq<byte>, pr: Prepared, table: SymbolTable,
                         names: SymbolNames)
    requires SymbolsFound(table, names, segs, pr.Syms()) && NoSymbolWraps(table)
    requires forall i :: 0 <= i < |segs| ==> Imaged(m, segs[i], file)
    requires IsHull(segs, AnySegment, pr.hull)
    ensures VariablesIn(m, pr)
  {
    VariableInHull(m, segs, file, pr.hull, table, names.call, 16, pr.callVar);
    VariableInHull(m, segs, file, pr.hull, table, names.ret, 16, pr.retVar);
    VariableInHull(m, segs, file, pr.hull, table, names.mmapBase, 8, pr.baseVar);
    VariableInHull(m, segs, file, pr.hull, table, names.mmapTop, 8, pr.topVar);
  }

  lemma PlacedFillable(before: Memory, image: Memory, pr: Prepared, input: ElfInput, length: nat, p: nat,
                       symtab: SymbolTable, names: SymbolNames)
    requires IsPageSize(p) && Placed(before, image, pr, input, length, p)
    requires SymbolsFound(symtab, names, Loads(input.phs, p), pr.Syms()) && NoSymbolWraps(symtab)
    ensures Fillable(image, pr)
  {
    FoundVariablesIn(image, Loads(input.phs, p), input.file, pr, symtab, names);
    StackWritable(image, Loads(input.phs, p), input.file, pr.hull, length, p);
  }

  lemma StackWritable(m: Memory, segs: seq<Segment>, file: seq<byte>, hull: Range, length: nat, p: nat)
    requires p > 0 && STACK_SIZE + 2 * p <= hull.base + length
    requires Arranged(m, segs, file, PartsOf(hull, length, STACK_SIZE, p), p)
    ensures var top := PartsOf(hull, length, STACK_SIZE, p).stack.top;
      Writable(m, top - STACK_SIZE / 2, STACK_SIZE / 2)
  {
  }

  lemma StillAccessible(m: Memory, m': Memory, lo: nat, hi: nat, addr: nat, size: nat)
    requires SameOutside(m, m', lo, hi) && Accessible(m, addr, size) && addr + size <= lo
    ensures Accessible(m', addr, size)
  {
    forall a | addr <= a < addr + size
      ensures a in m' && m'[a].prot.read && m'[a].prot.write
    {
      assert SameAt(m, m', a);
    }
  }

  lemma KeysKept(m: Memory, m': Memory, lo: nat, hi: nat)
    requires lo <= hi && SameOutside(m, m', lo, hi) && Writable(m', lo, hi - lo)
    ensures m.Keys <= m'.Keys
  {
    forall a | a in m
      ensures a in m'
    {
      assert lo <= a < hi || SameAt(m, m', a);
    }
  }

  ghost predicate WindowStored(m: Memory, now: Memory, baseVar: nat, topVar: nat, window: Range) {
    && Writable(m, baseVar, 8)
    && var m' := Stored(m, baseVar, Encode(window.base, 8));
    && Writable(m', topVar, 8) && now == Stored(m', topVar, Encode(window.top, 8))
  }

  lemma WindowSetAfter(m: Memory, now: Memory, baseVar: nat, topVar: nat, window: Range)
    requires WindowStored(m, now, baseVar, topVar, window) && window.base < TWO64 && window.top < TWO64
    requires Accessible(m, baseVar, 8) && Accessible(m, topVar, 8)
    ensures WindowSet(now, window, baseVar, topVar)
  {
    var m' := Stored(m, baseVar, Encode(window.base, 8));
    WordStored(m, baseVar, window.base);
    StoredAccessible(m, baseVar, Encode(window.base, 8), topVar, 8);
    WordStored(m', topVar, window.top);
    StoredAccessible(m', topVar, Encode(window.top, 8), baseVar, 8);
    if Disjoint(baseVar, 8, topVar, 8) {
      WordKept(m', now, topVar, topVar + 8, baseVar);
    }
  }

  lemma WindowStoredFrame(m: Memory, now: Memory, baseVar: nat, topVar: nat, window: Range)
    requires WindowStored(m, now, baseVar, topVar, window)
    ensures m.Keys == now.Keys
    ensures forall a: nat {:trigger SameAt(m, now, a)} ::
      !(baseVar <= a < baseVar + 8) && !(topVar <= a < topVar + 8) ==> SameAt(m, now, a)
  {
    var m' := Stored(m, baseVar, Encode(window.base, 8));
    StoredBytes(m, baseVar, Encode(window.base, 8));
    StoredBytes(m', topVar, Encode(window.top, 8));
    forall a: nat | !(baseVar <= a < baseVar + 8) && !(topVar <= a < topVar + 8)
      ensures SameAt(m, now, a)
    {
      assert SameAt(m, m', a) && SameAt(m', now, a);
    }
  }

  lemma FilledAfter(image: Memory, m: Memory, now: Memory, pr: Prepared, start: Start)
    requires Fillable(image, pr) && StackFilled(m, pr, start)
    requires SameOutside(image, m, pr.stackTop - STACK_SIZE / 2, pr.stackTop) && image.Keys <= m.Keys
    requires Accessible(m, pr.baseVar, 8) && Accessible(m, pr.topVar, 8)
    requires WindowStored(m, now, pr.baseVar, pr.topVar, pr.window)
    ensures FilledFrame(image, now, pr.hull, pr.stackTop, pr.baseVar, pr.topVar)
    ensures WindowSet(now, pr.window, pr.baseVar, pr.topVar) && StackFilled(now, pr, start)
  {
    WindowSetAfter(m, now, pr.baseVar, pr.topVar, pr.window);
    WindowStoredFrame(m, now, pr.baseVar, pr.topVar, pr.window);
    FilledFrameAfter(image, m, now, pr);
    assert SameOutside(m, now, pr.hull.base, pr.sp);
    StartedKept(m, now, pr.hull.base, pr.sp, pr.stackTop, start.args, start.env, start.random, pr.aux);
  }

  lemma FilledFrameAfter(image: Memory, m: Memory, now: Memory, pr: Prepared)
    requires pr.hull.base <= pr.hull.top <= pr.stackTop - STACK_SIZE
    requires pr.hull.base <= pr.baseVar && pr.baseVar + 8 <= pr.hull.top
    requires pr.hull.base <= pr.topVar && pr.topVar + 8 <= pr.hull.top
    requires SameOutside(image, m, pr.stackTop - STACK_SIZE / 2, pr.stackTop) && image.Keys <= m.Keys == now.Keys
    requires forall a: nat {:trigger SameAt(m, now, a)} ::
      !(pr.baseVar <= a < pr.baseVar + 8) && !(pr.topVar <= a < pr.topVar + 8) ==> SameAt(m, now, a)
    ensures FilledFrame(image, now, pr.hull, pr.stackTop, pr.baseVar, pr.topVar)
  {
    forall a: nat | !(pr.baseVar <= a < pr.baseVar + 8) && !(pr.topVar <= a < pr.topVar + 8)
                    && !(pr.stackTop - STACK_SIZE / 2 <= a < pr.stackTop)
      ensures SameAt(image, now, a)
    {
      assert SameAt(image, m, a) && SameAt(m, now, a);
    }
  }

  // All special variables stay accessible.
  lemma VariablesKept(image: Memory, now: Memory, pr: Prepared)
    requires Fillable(image, pr) && FilledFrame(image, now, pr.hull, pr.stackTop, pr.baseVar, pr.topVar)
    requires WindowSet(now, pr.window, pr.baseVar, pr.topVar)
    ensures VariablesIn(now, pr)
  {
    AccessKept(image, now, pr, pr.callVar, 16);
    AccessKept(image, now, pr, pr.retVar, 16);
  }

  lemma AccessKept(image: Memory, now: Memory, pr: Prepared, addr: nat, size: nat)
    requires FilledFrame(image, now, pr.hull, pr.stackTop, pr.baseVar, pr.topVar)
    requires WindowSet(now, pr.window, pr.baseVar, pr.topVar)
    requires Accessible(image, addr, size) && addr + size <= pr.stackTop - STACK_SIZE / 2
    ensures Accessible(now, addr, size)
  {
    forall a | addr <= a < addr + size
      ensures a in now && now[a].prot.read && now[a].prot.write
    {
      if !(pr.baseVar <= a < pr.baseVar + 8) && !(pr.topVar <= a < pr.topVar + 8) {
        assert SameAt(image, now, a);
      }
    }
  }

  // --- The first entry -------------------------------------------------------------------------

  // One of the variables that the manager sets before the compartment is entered.
  predicate InVariables(pr: Prepared, a: nat) {
    pr.baseVar <= a < pr.baseVar + 8 || pr.topVar <= a < pr.topVar + 8 || pr.retVar <= a < pr.retVar + 16
  }

  // The three variables do not overlap; that is up to the file.
  predicate VariablesApart(pr: Prepared) {
    && Disjoint(pr.baseVar, 8, pr.topVar, 8)
    && Disjoint(pr.baseVar, 8, pr.retVar, 16) && Disjoint(pr.topVar, 8, pr.retVar, 16)
  }

  ghost predicate VariablesSet(now: Memory, pr: Prepared, retCap: seq<byte>) {
    && VariablesIn(now, pr)
    && BytesAt(now, pr.retVar, retCap)
    && (VariablesApart(pr) ==> Word(now, pr.baseVar) == pr.window.base && Word(now, pr.topVar) == pr.window.top)
  }

  ghost predicate EnteredFrame(before: Memory, image: Memory, now: Memory, pr: Prepared, length: nat) {
    && (forall a: nat {:trigger SameAt(image, now, a)} ::
          a < pr.stackTop - STACK_SIZE / 2 && !InVariables(pr, a) ==> SameAt(image, now, a))
    && SameOutside(before, now, pr.hull.base, pr.hull.base + length)
    && image.Keys <= now.Keys
  }

  // Memory when the compartment is entered for the first time: the image, with the stack contents
  // and the variables set.
  ghost predicate EnteredWith(before: Memory, image: Memory, now: Memory, pr: Prepared, input: ElfInput,
                              length: nat, p: nat, start: Start, retCap: seq<byte>)
  {
    && Placed(before, image, pr, input, length, p) && Runnable(pr, input, p) && AuxOf(pr.aux, input, p)
    && pr.executable.top < TWO64 && pr.stackTop < TWO64
    && EnteredFrame(before, image, now, pr, length)
    && VariablesSet(now, pr, retCap)
    && StackFilled(now, pr, start)
  }

  lemma PreparedBounds(before: Memory, image: Memory, pr: Prepared, input: ElfInput, length: nat, p: nat)
    requires Placed(before, image, pr, input, length, p) && Runnable(pr, input, p)
    ensures pr.executable.top <= pr.hull.top && pr.hull.top + STACK_SIZE <= pr.stackTop <= pr.hull.base + length
  {
    HullsNested(Loads(input.phs, p), pr.hull, pr.executable);
  }

  lemma EnteredAfter(before: Memory, image: Memory, filled: Memory, now: Memory, pr: Prepared, input: ElfInput,
                     length: nat, p: nat, start: Start, retCap: seq<byte>)
    requires PreparedFrom(before, image, filled, pr, input, length, p, start)
    requires |retCap| == 16 && now == Stored(filled, pr.retVar, retCap)
    ensures EnteredWith(before, image, now, pr, input, length, p, start, retCap)
  {
    PreparedBounds(before, image, pr, input, length, p);
    StoredBytes(filled, pr.retVar, retCap);
    EnteredFrameAfter(before, image, filled, now, pr, length);
    VariablesSetAfter(filled, now, pr, retCap);
    SameOutsideWider(filled, now, pr.retVar, pr.retVar + 16, pr.hull.base, pr.sp);
    StartedKept(filled, now, pr.hull.base, pr.sp, pr.stackTop, start.args, start.env, start.random, pr.aux);
  }

  lemma VariablesSetAfter(filled: Memory, now: Memory, pr: Prepared, retCap: seq<byte>)
    requires WindowSet(filled, pr.window, pr.baseVar, pr.topVar) && VariablesIn(filled, pr)
    requires |retCap| == 16 && now == Stored(filled, pr.retVar, retCap)
    ensures VariablesSet(now, pr, retCap)
  {
    StoredBytes(filled, pr.retVar, retCap);
    StoredAccessible(filled, pr.retVar, retCap, pr.callVar, 16);
    StoredAccessible(filled, pr.retVar, retCap, pr.retVar, 16);
    StoredAccessible(filled, pr.retVar, retCap, pr.baseVar, 8);
    StoredAccessible(filled, pr.retVar, retCap, pr.topVar, 8);
    if VariablesApart(pr) {
      WordKept(filled, now, pr.retVar, pr.retVar + 16, pr.baseVar);
      WordKept(filled, now, pr.retVar, pr.retVar + 16, pr.topVar);
    }
  }

  lemma EnteredFrameAfter(before: Memory, image: Memory, filled: Memory, now: Memory, pr: Prepared, length: nat)
    requires SameOutside(before, image, pr.hull.base, pr.hull.base + length)
    requires FilledFrame(image, filled, pr.hull, pr.stackTop, pr.baseVar, pr.topVar)
    requires SameOutside(filled, now, pr.retVar, pr.retVar + 16) && filled.Keys <= now.Keys
    requires pr.hull.base <= pr.retVar && pr.retVar + 16 <= pr.hull.top <= pr.stackTop <= pr.hull.base + length
    ensures EnteredFrame(before, image, now, pr, length)
  {
    var base, end := pr.hull.base, pr.hull.base + length;
    SameOutsideWider(filled, now, pr.retVar, pr.retVar + 16, base, end);
    SameOutsideWider(image, filled, base, pr.stackTop, base, end);
    SameOutsideTrans(before, image, filled, base, end);
    SameOutsideTrans(before, filled, now, base, end);
    forall a: nat | a < pr.stackTop - STACK_SIZE / 2 && !InVariables(pr, a)
      ensures SameAt(image, now, a)
    {
      assert SameAt(image, filled, a) && SameAt(filled, now, a);
    }
  }

  // What a compartment finds at its first entry is the gABI image of every PT_LOAD header of its
  // file, but for the variables that the manager has set.
  lemma EnteredIsGabi(before: Memory, image: Memory, now: Memory, pr: Prepared, input: ElfInput, length: nat, p: nat,
                      start: Start, retCap: seq<byte>, i: nat, a: nat)
    requires EnteredWith(before, image, now, pr, input, length, p, start, retCap)
    requires ConformingInput(input, p) && i < |input.phs| && IsLoad(input.phs[i])
    requires var ph := input.phs[i].value; ph.vaddr <= a < ph.vaddr + ph.memsz
    requires !InVariables(pr, a)
    ensures var ph := input.phs[i].value;
      a in now && now[a] == Cell(ph.flags, GabiByte(ph, input.file, a - ph.vaddr))
  {
    ImageIsGabi(image, input, p, i, a);
    LoadInHull(input.phs, p, i, pr.hull, a);
    assert SameAt(image, now, a);
  }

  lemma ImageIsGabi(image: Memory, input: ElfInput, p: nat, i: nat, a: nat)
    requires p > 0 && ConformingInput(input, p) && GoodHeaders(input.phs) && i < |input.phs| && IsLoad(input.phs[i])
    requires forall k :: 0 <= k < |Loads(input.phs, p)| ==> Imaged(image, Loads(input.phs, p)[k], input.file)
    requires var ph := input.phs[i].value; ph.vaddr <= a < ph.vaddr + ph.memsz
    ensures var ph := input.phs[i].value;
      a in image && image[a] == Cell(ph.flags, GabiByte(ph, input.file, a - ph.vaddr))
  {
    MappedIsGabi(image, input.phs, input.file, p, i);
    assert GabiImage(image, input.phs[i].value, input.file);
  }

  lemma LoadInHull(phs: seq<Option<Phdr>>, p: nat, i: nat, hull: Range, a: nat)
    requires p > 0 && ConformingFile(phs, p) && GoodHeaders(phs) && IsHull(Loads(phs, p), AnySegment, hull)
    requires i < |phs| && IsLoad(phs[i]) && a < phs[i].value.vaddr + phs[i].value.memsz
    ensures a < hull.top
  {
    ConformingLoads(phs, p);
    ConformingMappable(phs[i].value, p);
    var k :| 0 <= k < |Loads(phs, p)| && Loads(phs, p)[k] == SegmentOf(phs[i].value, p);
    assert AnySegment(Loads(phs, p)[k]);
  }

  // --- What libc finds at the first entry ------------------------------------------------------

  // getauxval(AT_PHDR) on the initial stack leads to the file's program header table, byte by byte,
  // away from the variables that the manager has set; AT_PHNUM and AT_PHENT give its shape, AT_PAGESZ
  // the page size, AT_SECURE is 0, and AT_RANDOM leads to the random bytes.
  lemma HeadersFound(before: Memory, image: Memory, now: Memory, pr: Prepared, input: ElfInput, length: nat, p: nat,
                     start: Start, retCap: seq<byte>, i: nat) returns (found: Startup, addr: nat)
    requires EnteredWith(before, image, now, pr, input, length, p, start, retCap) && ConformingInput(input, p)
    requires exists k: nat :: k < |Loads(input.phs, p)| && Covers(Loads(input.phs, p), k, input.ehdr)
    requires i < input.ehdr.phnum * input.ehdr.phentsize && input.ehdr.phoff + i < |input.file|
    ensures ReadStartup(now, pr.sp, pr.stackTop) == Some(found)
    ensures GetAuxval(found.auxv, 5) == input.ehdr.phnum && GetAuxval(found.auxv, 4) == input.ehdr.phentsize
    ensures GetAuxval(found.auxv, 6) == p && GetAuxval(found.auxv, 23) == 0
    ensures BytesAt(now, GetAuxval(found.auxv, 25), start.random)
    ensures addr == GetAuxval(found.auxv, 3) + i
    ensures !InVariables(pr, addr) ==> addr in now && now[addr].value == input.file[input.ehdr.phoff + i]
  {
    found := AuxvFound(now, pr, start);
    addr := HeadersMapped(image, pr, input, p, i);
    KeptAtEntry(before, image, now, pr, length, addr, input.file[input.ehdr.phoff + i]);
  }

  lemma KeptAtEntry(before: Memory, image: Memory, now: Memory, pr: Prepared, length: nat, a: nat, b: byte)
    requires EnteredFrame(before, image, now, pr, length) && a < pr.stackTop - STACK_SIZE / 2
    requires a in image && image[a].value == b
    ensures !InVariables(pr, a) ==> a in now && now[a].value == b
  {
    if !InVariables(pr, a) {
      assert SameAt(image, now, a);
    }
  }

  lemma AuxvFound(now: Memory, pr: Prepared, start: Start) returns (found: Startup)
    requires StackFilled(now, pr, start)
    ensures ReadStartup(now, pr.sp, pr.stackTop) == Some(found)
    ensures GetAuxval(found.auxv, 3) == pr.aux.phdr
    ensures GetAuxval(found.auxv, 4) == pr.aux.phent && GetAuxval(found.auxv, 5) == pr.aux.phnum
    ensures GetAuxval(found.auxv, 6) == pr.aux.pagesz && GetAuxval(found.auxv, 23) == 0
    ensures found.args == CutAll(start.args)
    ensures BytesAt(now, GetAuxval(found.auxv, 25), start.random)
  {
    var r := StartedReadsBack(now, pr.sp, pr.stackTop, start.args, start.env, start.random, pr.aux);
    found := Startup(CutAll(start.args), CutAll(Reverse(start.env)), Auxv(pr.aux, r));
    AuxvalsOf(pr.aux, r);
  }

  lemma HeadersMapped(image: Memory, pr: Prepared, input: ElfInput, p: nat, i: nat) returns (addr: nat)
    requires p > 0 && ConformingInput(input, p) && GoodHeaders(input.phs) && AuxOf(pr.aux, input, p)
    requires IsHull(Loads(input.phs, p), AnySegment, pr.hull)
    requires forall k :: 0 <= k < |Loads(input.phs, p)| ==> Imaged(image, Loads(input.phs, p)[k], input.file)
    requires exists k: nat :: k < |Loads(input.phs, p)| && Covers(Loads(input.phs, p), k, input.ehdr)
    requires i < input.ehdr.phnum * input.ehdr.phentsize && input.ehdr.phoff + i < |input.file|
    ensures addr == pr.aux.phdr + i && addr < pr.hull.top
    ensures addr in image && image[addr].value == input.file[input.ehdr.phoff + i]
  {
    ConformingLoads(input.phs, p);
    addr := PhdrMapped(image, Loads(input.phs, p), input.file, input.ehdr, p, pr.aux.phdr, pr.hull, i);
  }

  lemma PhdrMapped(m: Memory, segs: seq<Segment>, file: seq<byte>, ehdr: Ehdr, p: nat, phdr: nat, hull: Range, i: nat)
    returns (addr: nat)
    requires p > 0 && forall k :: 0 <= k < |segs| ==> Mappable(segs[k], p) && Imaged(m, segs[k], file)
    requires IsHull(segs, AnySegment, hull) && IsPhdrAddress(segs, ehdr, phdr)
    requires exists k: nat :: k < |segs| && Covers(segs, k, ehdr)
    requires i < ehdr.phnum * ehdr.phentsize && ehdr.phoff + i < |file|
    ensures addr == phdr + i && addr < hull.top && addr in m && m[addr].value == file[ehdr.phoff + i]
  {
    addr := phdr + i;
    var k := PhdrHolder(segs, ehdr, phdr);
    PhdrByte(m, segs[k], file, ehdr, p, i, addr);
    SegmentInHull(segs, hull, k, addr);
  }

  lemma SegmentInHull(segs: seq<Segment>, hull: Range, k: nat, a: nat)
    requires k < |segs| && IsHull(segs, AnySegment, hull) && segs[k].memRange.Contains(a)
    ensures hull.Contains(a)
  {
    assert AnySegment(segs[k]);
    assert hull.ContainsRange(segs[k].memRange);
  }

  // --- Where the entry points lie --------------------------------------------------------------

  // Unless it is an empty symbol, a compartment's entry point lies in code, and so in the bounds of
  // its entry capability.
  lemma EntryInCode(table: SymbolTable, name: seq<byte>, segs: seq<Segment>, entry: nat, executable: Range)
    returns (i: nat)
    requires Finds(table, name, 0, segs, PROT_EXEC, entry) && NoSymbolWraps(table)
    requires IsHull(segs, Executable, executable)
    ensures FirstMatch(table, name, i) && entry == table.symbols[i].value
    ensures table.symbols[i].size > 0 ==> InCode(segs, entry) && executable.Contains(entry)
  {
    i :| FirstMatch(table, name, i) && entry == Settle(table.symbols[i], 0, segs, PROT_EXEC);
    if table.symbols[i].size > 0 {
      SettledInCode(table.symbols[i], segs, executable);
    }
  }

  lemma SettledInCode(sym: Symbol, segs: seq<Segment>, executable: Range)
    requires Settle(sym, 0, segs, PROT_EXEC) != 0 && sym.size > 0 && sym.value + sym.size < TWO64
    requires IsHull(segs, Executable, executable)
    ensures InCode(segs, sym.value) && executable.Contains(sym.value)
  {
    CodeInHull(segs, SymbolRange(sym), executable);
  }

  // So does the address at which it starts, unless the instruction there wraps around.
  lemma StartInCode(input: ElfInput, p: nat, pr: Prepared)
    requires p > 0 && FileAccepted(input, p) && Runnable(pr, input, p) && input.ehdr.entry + 4 < TWO64
    ensures InCode(Loads(input.phs, p), pr.start) && pr.executable.Contains(pr.start)
  {
    CodeInHull(Loads(input.phs, p), Range(input.ehdr.entry, Add64(input.ehdr.entry, 4)), pr.executable);
  }

  lemma CodeInHull(segs: seq<Segment>, r: Range, hull: Range)
    requires FirstAllows(segs, r, PROT_EXEC) && r.base < r.top && IsHull(segs, Executable, hull)
    ensures InCode(segs, r.base) && hull.Contains(r.base)
  {
    var i :| 0 <= i < |segs| && segs[i].memRange.ContainsRange(r) && Allows(segs[i].prot, PROT_EXEC);
    assert Executable(segs[i]);
    assert segs[i].memRange.Contains(r.base) && hull.ContainsRange(segs[i].memRange);
  }
}
