/** The parts of an ELF file that the loader looks at, and the segment table it builds
    (src/utils/elf_util.h, src/utils/elf_util.cpp). */
module ElfFormat {
  import opened Wrappers
  import opened Words
  import opened Ranges
  import opened AddressSpaces

  datatype PhdrType = PT_LOAD | PT_DYNAMIC | PT_INTERP | PT_OTHER

  datatype Phdr = Phdr(kind: PhdrType, flags: Prot, offset: u64, vaddr: u64, filesz: u64, memsz: u64)

  // LoadSegmentInfo
  datatype Segment = Segment(memRange: Range, fileOffset: nat, fileMappedSize: nat, prot: Prot)

  datatype Ehdr = Ehdr(entry: u64, phoff: u64, phnum: u16, phentsize: u16)

  function SegmentOf(ph: Phdr, p: nat): Segment
    requires p > 0
  {
    Segment(Range(AlignDown(ph.vaddr, p), Add64(ph.vaddr, ph.memsz)),
            AlignDown(ph.offset, p),
            Add64(ph.filesz, LowBits(ph.offset, p)),
            ph.flags)
  }

  predicate IsLoad(oph: Option<Phdr>) {
    oph.Some? && oph.value.kind == PT_LOAD
  }

  // The segments of the PT_LOAD headers, in file order.
  function Loads(phs: seq<Option<Phdr>>, p: nat): seq<Segment>
    requires p > 0
  {
    if phs == [] then []
    else
      var n := |phs| - 1;
      Loads(phs[..n], p) + (if IsLoad(phs[n]) then [SegmentOf(phs[n].value, p)] else [])
  }

  // The table has one segment for each PT_LOAD header, in order, with page-aligned start and file
  // offset and 64-bit ends.
  lemma LoadsSnoc(phs: seq<Option<Phdr>>, oph: Option<Phdr>, p: nat)
    requires p > 0
    ensures Loads([], p) == []
    ensures oph.Some? && oph.value.kind == PT_LOAD ==>
      var ph, limit := oph.value, 0x1_0000_0000_0000_0000;
      Loads(phs + [oph], p) == Loads(phs, p) +
        [Segment(Range(ph.vaddr - ph.vaddr % p, (ph.vaddr + ph.memsz) % limit), ph.offset - ph.offset % p,
                 (ph.filesz + ph.offset % p) % limit, ph.flags)]
    ensures oph.None? || oph.value.kind != PT_LOAD ==> Loads(phs + [oph], p) == Loads(phs, p)
  {
    var all := phs + [oph];
    assert all[..|all| - 1] == phs;
    if oph.Some? {
      LowBitsIsRemainder(oph.value.vaddr, p);
      LowBitsIsRemainder(oph.value.offset, p);
    }
  }

  // A header that does not by itself make ReadProgramHeaders give up.
  predicate GoodHeader(oph: Option<Phdr>) {
    && oph.Some?
    && var ph := oph.value;
    && ph.kind != PT_DYNAMIC && ph.kind != PT_INTERP
    && (ph.kind == PT_LOAD ==> ph.filesz <= ph.memsz && (ph.filesz < ph.memsz ==> ph.flags.write))
  }

  ghost predicate GoodHeaders(phs: seq<Option<Phdr>>) {
    forall i :: 0 <= i < |phs| ==> GoodHeader(phs[i])
  }

  // Two segments that share no page, even after rounding to whole pages.
  predicate PagesApart(s: Segment, t: Segment, p: nat)
    requires p > 0
  {
    RoundUp(s.memRange.top, p) <= t.memRange.base || RoundUp(t.memRange.top, p) <= s.memRange.base
  }

  ghost predicate PagesDisjoint(segs: seq<Segment>, p: nat)
    requires p > 0
  {
    forall i, j :: 0 <= i < j < |segs| ==> PagesApart(segs[i], segs[j], p)
  }

  // The assumptions of the System V gABI, chapter 5, on a PT_LOAD header: offset and address are
  // congruent modulo the page size, and the segment fits in the address space.
  predicate Conforming(ph: Phdr, p: nat)
    requires p > 0
  {
    LowBits(ph.vaddr, p) == LowBits(ph.offset, p) && ph.vaddr + ph.memsz + p < TWO64
  }

  ghost predicate ConformingFile(phs: seq<Option<Phdr>>, p: nat)
    requires p > 0
  {
    forall i :: 0 <= i < |phs| && IsLoad(phs[i]) ==> Conforming(phs[i].value, p)
  }

  // Every segment has some bytes of the file mapped; mmap() refuses an empty mapping.
  ghost predicate HaveFileParts(segs: seq<Segment>) {
    forall i :: 0 <= i < |segs| ==> segs[i].fileMappedSize > 0
  }

  // What Map() needs of a segment.
  predicate Mappable(seg: Segment, p: nat)
    requires p > 0
  {
    && Aligned(seg.memRange.base, p) && Aligned(seg.fileOffset, p)
    && seg.memRange.base <= seg.memRange.top && seg.memRange.top + p < TWO64
    && seg.fileMappedSize <= seg.memRange.Size()
    && (seg.fileMappedSize < seg.memRange.Size() ==> seg.prot.write)
  }
}
