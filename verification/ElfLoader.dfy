/** The static ELF executable being loaded (src/utils/elf_util.cpp). */
module ElfLoader {
  import opened Wrappers
  import opened Words
  import opened Ranges
  import opened AddressSpaces
  import opened ElfFormat
  import opened ElfHull
  import opened ElfImage
  import opened ElfSearch

  class StaticElfExecutable {
    const pageSize: nat
    const file: seq<byte>
    const ehdr: Ehdr
    var initialized: bool
    var loadSegments: seq<Segment>
    var totalRange: Range
    var executableRange: Range
    var symtab: SymbolTable

    constructor (pageSize: nat, file: seq<byte>, ehdr: Ehdr)
      ensures !initialized && loadSegments == []
      ensures this.pageSize == pageSize && this.file == file && this.ehdr == ehdr
    {
      this.pageSize, this.file, this.ehdr := pageSize, file, ehdr;
      initialized, loadSegments, totalRange, executableRange := false, [], EMPTY, EMPTY;
      symtab := SymbolTable([], 0, []);
    }

    // None in phs is a header that pread() failed to deliver.  The ranges are recomputed from
    // nothing, but segments are appended to whatever an earlier, failed call left behind.
    method ReadProgramHeaders(phs: seq<Option<Phdr>>) returns (ok: bool)
      requires pageSize > 0
      modifies `loadSegments, `totalRange, `executableRange
      ensures ok <==> GoodHeaders(phs) && HullFree(Loads(phs, pageSize))
      ensures ok ==> loadSegments == old(loadSegments) + Loads(phs, pageSize)
      ensures ok ==> IsHull(Loads(phs, pageSize), AnySegment, totalRange)
      ensures ok ==> IsHull(Loads(phs, pageSize), Executable, executableRange)
      ensures !ok ==> LeftBehind(phs, pageSize, old(loadSegments), loadSegments, totalRange, executableRange)
    {
      totalRange := EMPTY;
      executableRange := totalRange;
      assert phs[..0] == [] && loadSegments == old(loadSegments) + [];
      var i := 0;
      while i < |phs|
        invariant 0 <= i <= |phs|
        invariant Progressed(phs, i, old(loadSegments))
      {
        ok := ProcessHeader(phs, i, old(loadSegments));
        if !ok {
          return;
        }
        i := i + 1;
      }
      assert phs[..|phs|] == phs;
      return true;
    }

    // After i headers.
    ghost predicate Progressed(phs: seq<Option<Phdr>>, i: nat, before: seq<Segment>)
      requires pageSize > 0 && i <= |phs|
      reads this
    {
      && loadSegments == before + Loads(phs[..i], pageSize)
      && Progress(phs, i, pageSize, Loads(phs[..i], pageSize), totalRange, executableRange)
    }

    // One iteration of the loop of ReadProgramHeaders().
    method ProcessHeader(phs: seq<Option<Phdr>>, i: nat, ghost before: seq<Segment>) returns (ok: bool)
      requires pageSize > 0 && i < |phs| && Progressed(phs, i, before)
      modifies `loadSegments, `totalRange, `executableRange
      ensures ok ==> Progressed(phs, i + 1, before)
      ensures !ok ==> !GoodHeader(phs[i]) || !HullFree(Loads(phs, pageSize))
      ensures !ok ==> LeftBehind(phs, pageSize, before, loadSegments, totalRange, executableRange)
    {
      ProgressStep(phs, i, pageSize, Loads(phs[..i], pageSize), totalRange, executableRange, before);
      if phs[i].None? {
        return false;
      }
      var ph := phs[i].value;
      if ph.kind != PT_LOAD {
        return ph.kind != PT_DYNAMIC && ph.kind != PT_INTERP;
      }
      if ph.filesz > ph.memsz {
        return false;
      } else if ph.filesz < ph.memsz && !ph.flags.write {
        return false;
      }
      var info := SegmentOf(ph, pageSize);
      if totalRange.Intersects(info.memRange) {
        return false;
      }
      totalRange := totalRange.Enlarge(info.memRange);
      if ph.flags.exec {
        executableRange := executableRange.Enlarge(info.memRange);
      }
      loadSegments := loadSegments + [info];
      return true;
    }

    // One iteration of the loop of Map().
    method MapSegment(seg: Segment, space: AddressSpace) returns (ok: bool)
      requires pageSize > 0 && space.pageSize == pageSize
      requires Mappable(seg, pageSize)
      modifies space
      ensures ok ==> Imaged(space.mem, seg, file)
      ensures SameOutside(old(space.mem), space.mem, seg.memRange.base, RoundUp(seg.memRange.top, pageSize))
      ensures old(space.mem).Keys <= space.mem.Keys
      ensures ok <==> seg.fileMappedSize > 0 && space.refusals == old(space.refusals)
      ensures old(space.refusals) <= space.refusals
    {
      FilePages(seg, pageSize);
      ghost var lo, hi := seg.memRange.base, RoundUp(seg.memRange.top, pageSize);
      ghost var m := space.mem;
      MappedOutside(m, lo, seg.fileMappedSize, pageSize, seg.prot, File(file, seg.fileOffset));
      ok := space.Mmap(seg.memRange.base, seg.fileMappedSize, seg.prot, File(file, seg.fileOffset));
      if ok {
        ghost var m1 := space.mem;
        SameOutsideWider(m, m1, lo, RoundUp(lo + seg.fileMappedSize, pageSize), lo, hi);
        var zeroFillSize := Sub64(seg.memRange.Size(), seg.fileMappedSize);
        if zeroFillSize != 0 {
          ok := ZeroFillTail(seg, zeroFillSize, space);
          SameOutsideTrans(m, m1, space.mem, lo, hi);
        }
      }
    }

    // The end of the last file page is zeroed, the rest of the range becomes fresh pages.
    method ZeroFillTail(seg: Segment, size: nat, space: AddressSpace) returns (ok: bool)
      requires pageSize > 0 && space.pageSize == pageSize
      requires Mappable(seg, pageSize) && size > 0 && size == seg.memRange.Size() - seg.fileMappedSize
      requires FileImaged(space.mem, seg, file, pageSize)
      modifies space
      ensures ok ==> Imaged(space.mem, seg, file)
      ensures SameOutside(old(space.mem), space.mem, seg.memRange.base, RoundUp(seg.memRange.top, pageSize))
      ensures old(space.mem).Keys <= space.mem.Keys
      ensures ok <==> space.refusals == old(space.refusals)
      ensures old(space.refusals) <= space.refusals
    {
      var zeroFillStart := seg.memRange.base + seg.fileMappedSize;
      AlignUp64Exact(zeroFillStart, pageSize);
      var zeroPagesStart := AlignUp64(zeroFillStart, pageSize);
      var memsetSize := if zeroPagesStart - zeroFillStart < size then zeroPagesStart - zeroFillStart else size;
      ClearFilePage(seg, zeroPagesStart, memsetSize, space);
      var left := size - memsetSize;
      ok := true;
      if left != 0 {
        ghost var m := space.mem;
        ok := MapZeroPages(seg, zeroPagesStart, left, space);
        SameOutsideTrans(old(space.mem), m, space.mem, seg.memRange.base, RoundUp(seg.memRange.top, pageSize));
      }
    }

    // memset(); the segment is writable, as ReadProgramHeaders has checked.
    method ClearFilePage(seg: Segment, zeroPagesStart: nat, n: nat, space: AddressSpace)
      requires pageSize > 0 && Mappable(seg, pageSize) && FileImaged(space.mem, seg, file, pageSize)
      requires zeroPagesStart == RoundUp(seg.memRange.base + seg.fileMappedSize, pageSize)
      requires seg.fileMappedSize < seg.memRange.Size() && seg.fileMappedSize + n <= seg.memRange.Size()
      requires seg.memRange.base + seg.fileMappedSize + n <= zeroPagesStart
      modifies space`mem
      ensures ImagedBelow(space.mem, seg, file, seg.memRange.base + seg.fileMappedSize + n)
      ensures SameOutside(old(space.mem), space.mem, seg.memRange.base, RoundUp(seg.memRange.top, pageSize))
      ensures space.mem.Keys == old(space.mem).Keys
    {
      FilePages(seg, pageSize);
      ghost var m := space.mem;
      space.ZeroFill(seg.memRange.base + seg.fileMappedSize, n);
      FillImage(m, space.mem, seg, file, zeroPagesStart, n);
      SameOutsideWider(m, space.mem, seg.memRange.base, zeroPagesStart,
                       seg.memRange.base, RoundUp(seg.memRange.top, pageSize));
    }

    method MapZeroPages(seg: Segment, zeroPagesStart: nat, left: nat, space: AddressSpace) returns (ok: bool)
      requires pageSize > 0 && space.pageSize == pageSize && Mappable(seg, pageSize)
      requires zeroPagesStart == RoundUp(seg.memRange.base + seg.fileMappedSize, pageSize)
      requires left > 0 && zeroPagesStart + left == seg.memRange.top
      requires ImagedBelow(space.mem, seg, file, zeroPagesStart)
      modifies space
      ensures ok ==> Imaged(space.mem, seg, file)
      ensures SameOutside(old(space.mem), space.mem, seg.memRange.base, RoundUp(seg.memRange.top, pageSize))
      ensures old(space.mem).Keys <= space.mem.Keys
      ensures ok <==> space.refusals == old(space.refusals)
      ensures old(space.refusals) <= space.refusals
    {
      ghost var m, hi := space.mem, RoundUp(seg.memRange.top, pageSize);
      RoundUpLeast(seg.memRange.base + seg.fileMappedSize, pageSize);
      RoundUpShift(zeroPagesStart, left, pageSize);
      ok := space.Mmap(zeroPagesStart, left, seg.prot, Anonymous);
      if ok {
        FreshImage(m, space.mem, seg, file, zeroPagesStart, hi, pageSize);
        SameOutsideWider(m, space.mem, zeroPagesStart, hi, seg.memRange.base, hi);
      }
    }

    method Map(space: AddressSpace) returns (ok: bool)
      requires pageSize > 0 && space.pageSize == pageSize
      requires forall i :: 0 <= i < |loadSegments| ==> Mappable(loadSegments[i], pageSize)
      requires PagesDisjoint(loadSegments, pageSize)
      modifies space
      ensures ok ==> initialized
      ensures ok ==> forall i :: 0 <= i < |loadSegments| ==> Imaged(space.mem, loadSegments[i], file)
      ensures forall a: nat :: !InSomePage(loadSegments, pageSize, a) ==> SameAt(old(space.mem), space.mem, a)
      ensures old(space.mem).Keys <= space.mem.Keys
      ensures ok <==> initialized && HaveFileParts(loadSegments) && space.refusals == old(space.refusals)
      ensures old(space.refusals) <= space.refusals
    {
      if !initialized {
        return false;
      }
      var i := 0;
      while i < |loadSegments|
        invariant 0 <= i <= |loadSegments|
        invariant forall j :: 0 <= j < i ==> Imaged(space.mem, loadSegments[j], file)
        invariant forall a: nat :: !InSomePage(loadSegments, pageSize, a) ==> SameAt(old(space.mem), space.mem, a)
        invariant old(space.mem).Keys <= space.mem.Keys
        invariant space.refusals == old(space.refusals)
        invariant forall j :: 0 <= j < i ==> loadSegments[j].fileMappedSize > 0
      {
        ghost var before := space.mem;
        ok := MapSegment(loadSegments[i], space);
        forall a: nat | !InSomePage(loadSegments, pageSize, a)
          ensures SameAt(old(space.mem), space.mem, a)
        {
          assert SameAt(before, space.mem, a);
        }
        if !ok {
          return;
        }
        forall j | 0 <= j < i
          ensures Imaged(space.mem, loadSegments[j], file)
        {
          assert PagesApart(loadSegments[j], loadSegments[i], pageSize);
          ImageKept(before, space.mem, loadSegments[j], loadSegments[i], file, pageSize);
        }
        i := i + 1;
      }
      return true;
    }

    // GetAuxval(AT_PHDR); AT_PHENT and AT_PHNUM are read off the ELF header.
    method GetAuxPhdr() returns (addr: nat)
      ensures IsPhdrAddress(loadSegments, ehdr, addr)
    {
      var i := 0;
      while i < |loadSegments|
        invariant 0 <= i <= |loadSegments|
        invariant forall j :: 0 <= j < i ==> !HoldsPhdrs(loadSegments[j], ehdr)
      {
        var seg := loadSegments[i];
        var segmentTopOffset := seg.fileOffset + seg.fileMappedSize;
        if seg.fileOffset <= ehdr.phoff && ehdr.phoff + ehdr.phnum * ehdr.phentsize <= segmentTopOffset {
          assert FirstHolder(loadSegments, ehdr, i);
          return seg.memRange.base + ehdr.phoff - seg.fileOffset;
        }
        i := i + 1;
      }
      return 0;
    }

    // Whether the first segment that contains the entry instruction is executable.
    method CheckEntryPoint() returns (ok: bool)
      ensures ok <==> FirstAllows(loadSegments, EntryRange(), PROT_EXEC)
    {
      var i := 0;
      while i < |loadSegments|
        invariant 0 <= i <= |loadSegments|
        invariant forall j :: 0 <= j < i ==> !loadSegments[j].memRange.ContainsRange(EntryRange())
      {
        if loadSegments[i].memRange.ContainsRange(EntryRange()) {
          return loadSegments[i].prot.exec;
        }
        i := i + 1;
      }
      return false;
    }

    // One instruction at the entry point.
    function EntryRange(): Range {
      Range(ehdr.entry, Add64(ehdr.entry, 4))
    }

    // headerOk stands for the checks of the ELF header, symbols for what the section headers give.
    method Read(headerOk: bool, phs: seq<Option<Phdr>>, symbols: Option<SymbolTable>) returns (ok: bool)
      requires pageSize > 0
      modifies this
      ensures initialized <==> ok || old(initialized)
      ensures ok ==> !old(initialized)
      ensures ok <==>
        && !old(initialized) && headerOk && symbols.Some?
        && GoodHeaders(phs) && HullFree(Loads(phs, pageSize))
        && executableRange.base < executableRange.top
        && FirstAllows(old(loadSegments) + Loads(phs, pageSize), EntryRange(), PROT_EXEC)
      ensures ok ==> symbols == Some(symtab)
      ensures ok ==> loadSegments == old(loadSegments) + Loads(phs, pageSize)
      ensures ok ==> (loadSegments == Loads(phs, pageSize) <==> old(loadSegments) == [])
      ensures !ok ==>
        if old(initialized) || !headerOk then loadSegments == old(loadSegments)
        else if GoodHeaders(phs) && HullFree(Loads(phs, pageSize))
        then loadSegments == old(loadSegments) + Loads(phs, pageSize)
        else LeftBehind(phs, pageSize, old(loadSegments), loadSegments, totalRange, executableRange)
      ensures !old(initialized) && headerOk && GoodHeaders(phs) && HullFree(Loads(phs, pageSize)) ==>
        && IsHull(Loads(phs, pageSize), AnySegment, totalRange)
        && IsHull(Loads(phs, pageSize), Executable, executableRange)
      ensures ok ==> FirstAllows(loadSegments, EntryRange(), PROT_EXEC)
    {
      if initialized || !headerOk {
        return false;
      }
      ok := ReadProgramHeaders(phs);
      if !ok || executableRange.Size() == 0 {
        return false;
      }
      ok := CheckEntryPoint();
      if !ok || symbols.None? {
        return false;
      }
      symtab := symbols.value;
      initialized := true;
    }

    method FindSymbol(name: seq<byte>, size: nat, want: Prot) returns (addr: nat)
      ensures !initialized ==> addr == 0
      ensures forall i: nat :: initialized && FirstMatch(symtab, name, i) ==>
        addr == Settle(symtab.symbols[i], size, loadSegments, want)
      ensures addr != 0 ==> exists i: nat ::
        FirstMatch(symtab, name, i) && addr == Settle(symtab.symbols[i], size, loadSegments, want)
      ensures initialized && (forall i :: symtab.globalIndex <= i < |symtab.symbols| ==> !Matches(symtab, i, name)) ==>
        addr == 0
      ensures addr != 0 ==> Finds(symtab, name, size, loadSegments, want, addr)
      ensures initialized && addr == 0 ==> forall a: nat :: !Finds(symtab, name, size, loadSegments, want, a)
    {
      if !initialized {
        return 0;
      }
      var i := symtab.globalIndex;
      while i < |symtab.symbols|
        invariant symtab.globalIndex <= i
        invariant forall j :: symtab.globalIndex <= j < i && j < |symtab.symbols| ==> !Matches(symtab, j, name)
      {
        var sym := symtab.symbols[i];
        if sym.kind == STT_OTHER || sym.name >= |symtab.strtab| || !StrncmpEqual(symtab.strtab, sym.name, name) {
          i := i + 1;
          continue;
        }
        assert FirstMatch(symtab, name, i);
        if size == 0 || sym.size == size {
          var k := 0;
          while k < |loadSegments|
            invariant 0 <= k <= |loadSegments|
            invariant forall j :: 0 <= j < k ==> !loadSegments[j].memRange.ContainsRange(SymbolRange(sym))
          {
            if loadSegments[k].memRange.ContainsRange(SymbolRange(sym)) {
              if Allows(loadSegments[k].prot, want) {
                return sym.value;
              }
              break;
            }
            k := k + 1;
          }
        }
        return 0;
      }
      return 0;
    }
  }

  // One page of code, and a header that is not loaded.
  const CODE_HEADER := Phdr(PT_LOAD, Prot(true, false, true), 0, 0, 16, 16)
  const NOTE_HEADER := Phdr(PT_OTHER, Prot(true, false, false), 0, 0, 16, 16)
  const CODE_SEGMENT := Segment(Range(0, 16), 0, 16, Prot(true, false, true))

  lemma CodeLoads(rest: Option<Phdr>)
    requires !IsLoad(rest)
    ensures Loads([Some(CODE_HEADER), rest], 16) == Loads([Some(CODE_HEADER), rest][..1], 16) == [CODE_SEGMENT]
    ensures HullFree([CODE_SEGMENT])
  {
    var phs := [Some(CODE_HEADER), rest];
    assert phs[..1] == [Some(CODE_HEADER)] && phs[..1][..0] == [];
    assert Loads(phs[..1], 16) == Loads(phs[..1][..0], 16) + [SegmentOf(CODE_HEADER, 16)];
  }

  lemma CodeRunnable(exec: Range)
    requires IsHull([CODE_SEGMENT], Executable, exec)
    ensures exec.base < exec.top
    ensures FirstAllows([CODE_SEGMENT] + [CODE_SEGMENT], Range(0, Add64(0, 4)), PROT_EXEC)
  {
    var segs := [CODE_SEGMENT];
    assert Executable(segs[0]) && exec.ContainsRange(segs[0].memRange);
    assert ([CODE_SEGMENT] + [CODE_SEGMENT])[0] == CODE_SEGMENT;
  }

  lemma StopsAtMissing(phs: seq<Option<Phdr>>, p: nat, before: seq<Segment>, segs: seq<Segment>,
                       total: Range, exec: Range)
    requires p > 0 && LeftBehind(phs, p, before, segs, total, exec)
    requires |phs| == 2 && GoodHeader(phs[0]) && HullFree(Loads(phs[..1], p))
    ensures segs == before + Loads(phs[..1], p)
  {
    var i: nat :| StopsAt(phs, i, p) && segs == before + Loads(phs[..i], p);
    assert phs[..0 + 1] == phs[..1];
  }

  // A Read() that fails because the second header cannot be read, and a second one that succeeds on
  // the same object: the segment is in the table twice.
  method ReadAgain(file: seq<byte>, symtab: SymbolTable) returns (elf: StaticElfExecutable, first: bool, second: bool)
    ensures !first && second && elf.initialized
    ensures elf.loadSegments == [CODE_SEGMENT] + [CODE_SEGMENT]
    ensures elf.loadSegments != Loads([Some(CODE_HEADER), Some(NOTE_HEADER)], 16)
  {
    elf := new StaticElfExecutable(16, file, Ehdr(0, 0, 2, 56));
    ghost var phs := [Some(CODE_HEADER), None];
    CodeLoads(None);
    assert !GoodHeader(phs[1]);
    first := elf.Read(true, [Some(CODE_HEADER), None], Some(symtab));
    StopsAtMissing(phs, 16, [], elf.loadSegments, elf.totalRange, elf.executableRange);
    CodeLoads(Some(NOTE_HEADER));
    second := ReadGoodHeaders(elf, symtab);
  }

  method ReadGoodHeaders(elf: StaticElfExecutable, symtab: SymbolTable) returns (ok: bool)
    requires elf.pageSize == 16 && elf.ehdr.entry == 0 && !elf.initialized && elf.loadSegments == [CODE_SEGMENT]
    modifies elf
    ensures ok && elf.initialized && elf.loadSegments == [CODE_SEGMENT] + [CODE_SEGMENT]
  {
    ghost var phs := [Some(CODE_HEADER), Some(NOTE_HEADER)];
    CodeLoads(Some(NOTE_HEADER));
    assert GoodHeader(phs[0]) && GoodHeader(phs[1]);
    ok := elf.Read(true, [Some(CODE_HEADER), Some(NOTE_HEADER)], Some(symtab));
    CodeRunnable(elf.executableRange);
  }
}
