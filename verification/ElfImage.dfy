/** The memory image of a loaded file: file bytes, then zeros, per segment
    (src/utils/elf_util.cpp, Map and GetAuxval; System V gABI chapter 5, "Program Loading"). */
module ElfImage {
  import opened Wrappers
  import opened Words
  import opened AddressSpaces
  import opened ElfFormat
  import opened ElfHull

  // The reference image of a segment: file bytes, then zeros.
  function ImageByte(seg: Segment, file: seq<byte>, a: nat): byte
    requires seg.memRange.Contains(a)
  {
    var i := a - seg.memRange.base;
    if i < seg.fileMappedSize then FileByte(file, seg.fileOffset + i) else 0
  }

  ghost predicate Imaged(m: Memory, seg: Segment, file: seq<byte>) {
    forall a: nat :: seg.memRange.Contains(a) ==> a in m && m[a] == Cell(seg.prot, ImageByte(seg, file, a))
  }

  // The whole pages of the file part hold the file's bytes.
  ghost predicate FileImaged(m: Memory, seg: Segment, file: seq<byte>, p: nat)
    requires p > 0
  {
    forall a: nat :: seg.memRange.base <= a < RoundUp(seg.memRange.base + seg.fileMappedSize, p) ==>
      a in m && m[a] == FreshCell(seg.prot, File(file, seg.fileOffset), seg.memRange.base, a)
  }

  // The image up to an address.
  ghost predicate ImagedBelow(m: Memory, seg: Segment, file: seq<byte>, limit: nat) {
    forall a: nat :: seg.memRange.Contains(a) && a < limit ==> a in m && m[a] == Cell(seg.prot, ImageByte(seg, file, a))
  }

  // memset() of the end of the last file page.
  lemma FillImage(m: Memory, m': Memory, seg: Segment, file: seq<byte>, pages: nat, n: nat)
    requires seg.memRange.base + seg.fileMappedSize + n <= pages
    requires forall a: nat :: seg.memRange.base <= a < pages ==>
      a in m && m[a] == FreshCell(seg.prot, File(file, seg.fileOffset), seg.memRange.base, a)
    requires var from := seg.memRange.base + seg.fileMappedSize;
      m' == m + map a: nat | from <= a < from + n :: m[a].(value := 0)
    ensures ImagedBelow(m', seg, file, seg.memRange.base + seg.fileMappedSize + n)
    ensures SameOutside(m, m', seg.memRange.base, pages)
  {
  }

  // Anonymous pages for the rest of the range.
  lemma FreshImage(m: Memory, m': Memory, seg: Segment, file: seq<byte>, pages: nat, end: nat, p: nat)
    requires p > 0 && seg.memRange.base + seg.fileMappedSize <= pages <= seg.memRange.top <= end
    requires ImagedBelow(m, seg, file, pages)
    requires pages + RoundUp(seg.memRange.top - pages, p) == end
    requires m' == Mapped(m, pages, seg.memRange.top - pages, p, seg.prot, Anonymous)
    ensures Imaged(m', seg, file)
    ensures SameOutside(m, m', pages, end)
  {
  }

  lemma FilePages(seg: Segment, p: nat)
    requires p > 0 && Mappable(seg, p)
    ensures seg.memRange.base + RoundUp(seg.fileMappedSize, p) == RoundUp(seg.memRange.base + seg.fileMappedSize, p)
    ensures RoundUp(seg.memRange.base + seg.fileMappedSize, p) <= RoundUp(seg.memRange.top, p) < TWO64
  {
    RoundUpShift(seg.memRange.base, seg.fileMappedSize, p);
    RoundUpMonotone(seg.memRange.base + seg.fileMappedSize, seg.memRange.top, p);
  }

  // Some segment owns the page that holds a.
  ghost predicate InSomePage(segs: seq<Segment>, p: nat, a: nat)
    requires p > 0
  {
    exists i :: 0 <= i < |segs| && segs[i].memRange.base <= a < RoundUp(segs[i].memRange.top, p)
  }

  // The file region mapped for seg covers the whole program header table.
  predicate HoldsPhdrs(seg: Segment, ehdr: Ehdr) {
    seg.fileOffset <= ehdr.phoff && ehdr.phoff + ehdr.phnum * ehdr.phentsize <= seg.fileOffset + seg.fileMappedSize
  }

  // The value for AT_PHDR: where the first segment that covers the program headers puts them, or 0.
  ghost predicate IsPhdrAddress(segs: seq<Segment>, ehdr: Ehdr, addr: nat) {
    || (addr == 0 && forall i :: 0 <= i < |segs| ==> !HoldsPhdrs(segs[i], ehdr))
    || exists i: nat :: FirstHolder(segs, ehdr, i) && addr == segs[i].memRange.base + (ehdr.phoff - segs[i].fileOffset)
  }

  predicate FirstHolder(segs: seq<Segment>, ehdr: Ehdr, i: nat) {
    i < |segs| && HoldsPhdrs(segs[i], ehdr) && forall j :: 0 <= j < i ==> !HoldsPhdrs(segs[j], ehdr)
  }

  // The file's bytes from phoff on, as many as the table takes, lie in what is mapped for segment k.
  predicate Covers(segs: seq<Segment>, k: nat, ehdr: Ehdr)
    requires k < |segs|
  {
    && segs[k].fileOffset <= ehdr.phoff
    && ehdr.phoff + ehdr.phnum * ehdr.phentsize <= segs[k].fileOffset + segs[k].fileMappedSize
  }

  // The address is where the first segment that covers the table puts it, and 0 if there is none.
  lemma PhdrAddressExactly(segs: seq<Segment>, ehdr: Ehdr, addr: nat)
    requires IsPhdrAddress(segs, ehdr, addr)
    ensures (forall k: nat :: k < |segs| ==> !Covers(segs, k, ehdr)) ==> addr == 0
    ensures forall k: nat ::
      k < |segs| && Covers(segs, k, ehdr) && (forall j: nat :: j < k ==> !Covers(segs, j, ehdr)) ==>
        addr == segs[k].memRange.base + (ehdr.phoff - segs[k].fileOffset)
  {
    CoversExactly(segs, ehdr);
  }

  lemma CoversExactly(segs: seq<Segment>, ehdr: Ehdr)
    ensures forall k: nat :: k < |segs| ==> (Covers(segs, k, ehdr) <==> HoldsPhdrs(segs[k], ehdr))
  {
  }

  lemma PhdrHolder(segs: seq<Segment>, ehdr: Ehdr, addr: nat) returns (k: nat)
    requires IsPhdrAddress(segs, ehdr, addr) && exists k: nat :: k < |segs| && Covers(segs, k, ehdr)
    ensures k < |segs| && HoldsPhdrs(segs[k], ehdr)
    ensures addr == segs[k].memRange.base + (ehdr.phoff - segs[k].fileOffset)
  {
    CoversExactly(segs, ehdr);
    k :| FirstHolder(segs, ehdr, k) && addr == segs[k].memRange.base + (ehdr.phoff - segs[k].fileOffset);
  }

  lemma PhdrByte(m: Memory, seg: Segment, file: seq<byte>, ehdr: Ehdr, p: nat, i: nat, a: nat)
    requires p > 0 && Mappable(seg, p) && Imaged(m, seg, file) && HoldsPhdrs(seg, ehdr)
    requires i < ehdr.phnum * ehdr.phentsize && ehdr.phoff + i < |file|
    requires a == seg.memRange.base + (ehdr.phoff - seg.fileOffset) + i
    ensures seg.memRange.Contains(a) && a in m && m[a].value == file[ehdr.phoff + i]
  {
  }

  // AT_PHDR agrees with the image: if some segment covers the program header table, the file's table
  // is what is found at that address, byte by byte.
  lemma PhdrImage(m: Memory, segs: seq<Segment>, file: seq<byte>, ehdr: Ehdr, p: nat, addr: nat, i: nat)
    requires p > 0 && forall k :: 0 <= k < |segs| ==> Mappable(segs[k], p) && Imaged(m, segs[k], file)
    requires IsPhdrAddress(segs, ehdr, addr) && exists k: nat :: k < |segs| && Covers(segs, k, ehdr)
    requires i < ehdr.phnum * ehdr.phentsize && ehdr.phoff + i < |file|
    ensures addr + i in m && m[addr + i].value == file[ehdr.phoff + i]
  {
    var k := PhdrHolder(segs, ehdr, addr);
    PhdrByte(m, segs[k], file, ehdr, p, i, addr + i);
  }

  lemma ImageKept(m: Memory, m': Memory, s: Segment, t: Segment, file: seq<byte>, p: nat)
    requires p > 0 && PagesApart(s, t, p) && Imaged(m, s, file)
    requires SameOutside(m, m', t.memRange.base, RoundUp(t.memRange.top, p))
    ensures Imaged(m', s, file)
  {
    RoundUpLeast(s.memRange.top, p);
    forall a: nat | s.memRange.Contains(a)
      ensures a in m' && m'[a] == Cell(s.prot, ImageByte(s, file, a))
    {
      assert SameAt(m, m', a);
    }
  }

  lemma ConformingMappable(ph: Phdr, p: nat)
    requires p > 0 && ph.kind == PT_LOAD && GoodHeader(Some(ph)) && Conforming(ph, p)
    ensures Mappable(SegmentOf(ph, p), p)
    ensures SegmentOf(ph, p).memRange.top == ph.vaddr + ph.memsz
    ensures SegmentOf(ph, p).fileMappedSize == ph.filesz + LowBits(ph.offset, p)
  {
    AlignDownAligned(ph.vaddr, p);
    AlignDownAligned(ph.offset, p);
  }

  lemma {:induction false} ConformingLoads(phs: seq<Option<Phdr>>, p: nat)
    requires p > 0 && ConformingFile(phs, p) && GoodHeaders(phs)
    ensures forall i :: 0 <= i < |Loads(phs, p)| ==> Mappable(Loads(phs, p)[i], p)
    ensures forall i :: 0 <= i < |phs| && IsLoad(phs[i]) ==> SegmentOf(phs[i].value, p) in Loads(phs, p)
  {
    if phs != [] {
      var n := |phs| - 1;
      ConformingLoads(phs[..n], p);
      assert GoodHeader(phs[n]);
      if phs[n].value.kind == PT_LOAD {
        ConformingMappable(phs[n].value, p);
      }
      forall i | 0 <= i < |phs| && IsLoad(phs[i])
        ensures SegmentOf(phs[i].value, p) in Loads(phs, p)
      {
        if i < n {
          assert phs[..n][i] == phs[i];
        }
      }
    }
  }

  // Byte i of a segment: the file's byte up to p_filesz, then zero.
  function GabiByte(ph: Phdr, file: seq<byte>, i: nat): byte {
    if i < ph.filesz then FileByte(file, ph.offset + i) else 0
  }

  // The gABI image of one PT_LOAD header, byte by byte.
  ghost predicate GabiImage(m: Memory, ph: Phdr, file: seq<byte>) {
    forall a: nat :: ph.vaddr <= a < ph.vaddr + ph.memsz ==>
      a in m && m[a] == Cell(ph.flags, GabiByte(ph, file, a - ph.vaddr))
  }

  lemma ImagedIsGabi(m: Memory, ph: Phdr, file: seq<byte>, p: nat)
    requires p > 0 && ph.kind == PT_LOAD && GoodHeader(Some(ph)) && Conforming(ph, p)
    requires Imaged(m, SegmentOf(ph, p), file)
    ensures GabiImage(m, ph, file)
  {
    var seg := SegmentOf(ph, p);
    ConformingMappable(ph, p);
    forall a: nat | ph.vaddr <= a < ph.vaddr + ph.memsz
      ensures a in m && m[a] == Cell(ph.flags, GabiByte(ph, file, a - ph.vaddr))
    {
      assert seg.memRange.Contains(a);
    }
  }

  // Everything ReadProgramHeaders accepts from a conforming file may be given to Map(), and what
  // Map() then leaves in memory is the reference image of every PT_LOAD header.
  lemma AcceptedMayBeMapped(phs: seq<Option<Phdr>>, p: nat)
    requires p > 0 && ConformingFile(phs, p)
    requires GoodHeaders(phs) && HullFree(Loads(phs, p))
    ensures forall i :: 0 <= i < |Loads(phs, p)| ==> Mappable(Loads(phs, p)[i], p)
    ensures PagesDisjoint(Loads(phs, p), p)
  {
    ConformingLoads(phs, p);
    forall i | 0 <= i < |Loads(phs, p)|
      ensures Aligned(Loads(phs, p)[i].memRange.base, p)
    {
      assert Mappable(Loads(phs, p)[i], p);
    }
    AcceptedPagesDisjoint(Loads(phs, p), p);
  }

  lemma MappedIsGabi(m: Memory, phs: seq<Option<Phdr>>, file: seq<byte>, p: nat, i: nat)
    requires p > 0 && ConformingFile(phs, p) && GoodHeaders(phs)
    requires forall j :: 0 <= j < |Loads(phs, p)| ==> Imaged(m, Loads(phs, p)[j], file)
    requires i < |phs| && IsLoad(phs[i])
    ensures GabiImage(m, phs[i].value, file)
  {
    ConformingLoads(phs, p);
    var seg := SegmentOf(phs[i].value, p);
    var k :| 0 <= k < |Loads(phs, p)| && Loads(phs, p)[k] == seg;
    assert Imaged(m, Loads(phs, p)[k], file);
    ImagedIsGabi(m, phs[i].value, file, p);
  }

  // --- Headers that are not congruent ----------------------------------------------------------

  // What mapping the file part of a segment gives.
  function FilePartMapped(m: Memory, seg: Segment, file: seq<byte>, p: nat): Memory
    requires p > 0
  {
    Mapped(m, seg.memRange.base, seg.fileMappedSize, p, seg.prot, File(file, seg.fileOffset))
  }

  // The header's bytes of the file are where the header wants them.
  ghost predicate FilePartRight(m: Memory, ph: Phdr, file: seq<byte>) {
    forall a: nat :: ph.vaddr <= a < ph.vaddr + ph.filesz ==>
      a in m && m[a].value == FileByte(file, ph.offset + (a - ph.vaddr))
  }

  lemma FilePartByte(m: Memory, seg: Segment, file: seq<byte>, p: nat, a: nat)
    requires p > 0 && seg.memRange.base <= a < seg.memRange.base + RoundUp(seg.fileMappedSize, p)
    ensures var m' := FilePartMapped(m, seg, file, p);
      a in m' && m'[a].value == FileByte(file, seg.fileOffset + (a - seg.memRange.base))
  {
    var m' := FilePartMapped(m, seg, file, p);
    assert m'[a] == FreshCell(seg.prot, File(file, seg.fileOffset), seg.memRange.base, a);
  }

  lemma CongruentIsRight(m: Memory, ph: Phdr, file: seq<byte>, p: nat)
    requires p > 0 && ph.filesz + p < TWO64 && LowBits(ph.vaddr, p) == LowBits(ph.offset, p)
    ensures FilePartRight(FilePartMapped(m, SegmentOf(ph, p), file, p), ph, file)
  {
    var m' := FilePartMapped(m, SegmentOf(ph, p), file, p);
    forall a: nat | ph.vaddr <= a < ph.vaddr + ph.filesz
      ensures a in m' && m'[a].value == FileByte(file, ph.offset + (a - ph.vaddr))
    {
      FilePartByte(m, SegmentOf(ph, p), file, p, a);
    }
  }

  lemma IncongruentIsWrong(m: Memory, ph: Phdr, p: nat) returns (file: seq<byte>)
    requires p > 0 && 0 < ph.filesz && ph.filesz + p < TWO64 && LowBits(ph.vaddr, p) != LowBits(ph.offset, p)
    ensures !FilePartRight(FilePartMapped(m, SegmentOf(ph, p), file, p), ph, file)
  {
    file := MarkedFile(ph.offset);
    var seg := SegmentOf(ph, p);
    RoundUpLeast(seg.fileMappedSize, p);
    AlignedGap(0, RoundUp(seg.fileMappedSize, p), p);
    FilePartByte(m, seg, file, p, ph.vaddr);
    assert FileByte(file, ph.offset) == 1 && FileByte(file, seg.fileOffset + LowBits(ph.vaddr, p)) == 0;
  }

  // Nothing checks that offset and address of a header are congruent modulo the page size, on which
  // it depends whether the bytes of the file end up where the header says.
  lemma CongruentExactly(m: Memory, ph: Phdr, p: nat)
    requires p > 0 && 0 < ph.filesz && ph.filesz + p < TWO64
    ensures LowBits(ph.vaddr, p) == LowBits(ph.offset, p) <==>
            forall file :: FilePartRight(FilePartMapped(m, SegmentOf(ph, p), file, p), ph, file)
  {
    if LowBits(ph.vaddr, p) == LowBits(ph.offset, p) {
      forall file
        ensures FilePartRight(FilePartMapped(m, SegmentOf(ph, p), file, p), ph, file)
      {
        CongruentIsRight(m, ph, file, p);
      }
    } else {
      var file := IncongruentIsWrong(m, ph, p);
    }
  }

  // A file whose only byte other than 0 is the last, at the given offset.
  function MarkedFile(at: nat): (file: seq<byte>)
    ensures forall i: nat :: FileByte(file, i) == if i == at then 1 else 0
  {
    seq<byte>(at, i => 0) + [1]
  }

  // --- Segments that cannot be mapped ----------------------------------------------------------

  // A header without bytes in the file, at a page boundary of the file.
  predicate NoFilePart(ph: Phdr, p: nat)
    requires p > 0
  {
    ph.filesz == 0 && Aligned(ph.offset, p)
  }

  lemma NoFilePartExactly(ph: Phdr, p: nat)
    requires p > 0 && ph.kind == PT_LOAD && GoodHeader(Some(ph)) && Conforming(ph, p)
    ensures SegmentOf(ph, p).fileMappedSize == 0 <==> NoFilePart(ph, p)
  {
    ConformingMappable(ph, p);
  }

  lemma FilePartsSnoc(segs: seq<Segment>, seg: Segment)
    ensures HaveFileParts(segs + [seg]) <==> HaveFileParts(segs) && seg.fileMappedSize > 0
  {
    var all := segs + [seg];
    assert all[|segs|] == seg && forall i :: 0 <= i < |segs| ==> all[i] == segs[i];
  }

  ghost predicate NoEmptyParts(phs: seq<Option<Phdr>>, p: nat)
    requires p > 0
  {
    forall i :: 0 <= i < |phs| && IsLoad(phs[i]) ==> !NoFilePart(phs[i].value, p)
  }

  // Map() begins every segment by mapping its file part, and mmap() refuses an empty one.  Of a
  // conforming file, no part is empty exactly if no header is NoFilePart.
  lemma {:induction false} FilePartsExactly(phs: seq<Option<Phdr>>, p: nat)
    requires p > 0 && ConformingFile(phs, p) && GoodHeaders(phs)
    ensures HaveFileParts(Loads(phs, p)) <==> NoEmptyParts(phs, p)
  {
    if phs != [] {
      var n := |phs| - 1;
      assert forall i :: 0 <= i < n ==> phs[..n][i] == phs[i];
      FilePartsExactly(phs[..n], p);
      assert NoEmptyParts(phs, p) <==> NoEmptyParts(phs[..n], p) && (IsLoad(phs[n]) ==> !NoFilePart(phs[n].value, p));
      if IsLoad(phs[n]) {
        assert GoodHeader(phs[n]);
        NoFilePartExactly(phs[n].value, p);
        FilePartsSnoc(Loads(phs[..n], p), SegmentOf(phs[n].value, p));
      } else {
        assert Loads(phs, p) == Loads(phs[..n], p);
      }
    }
  }

  lemma TwoLoads(first: Phdr, second: Phdr, p: nat)
    requires p > 0 && first.kind == PT_LOAD && second.kind == PT_LOAD
    ensures Loads([Some(first), Some(second)], p) == [SegmentOf(first, p), SegmentOf(second, p)]
  {
    var phs := [Some(first), Some(second)];
    assert phs[..1] == [Some(first)] && phs[..1][..0] == [];
    assert Loads(phs[..1], p) == [SegmentOf(first, p)];
  }

  // Code, and zeros in a segment of their own that starts on a page: such a file conforms to the
  // gABI and is accepted, but cannot be mapped.
  lemma PureBssNotMapped(code: Phdr, bss: Phdr, p: nat)
    requires p > 0 && code.kind == PT_LOAD && bss.kind == PT_LOAD && bss.filesz == 0 < bss.memsz && bss.flags.write
    requires code.filesz == code.memsz && Conforming(code, p) && Conforming(bss, p) && Aligned(bss.vaddr, p)
    requires code.vaddr + code.memsz <= bss.vaddr
    ensures var phs := [Some(code), Some(bss)];
      && GoodHeaders(phs) && ConformingFile(phs, p) && HullFree(Loads(phs, p))
      && !HaveFileParts(Loads(phs, p))
  {
    var phs := [Some(code), Some(bss)];
    TwoLoads(code, bss, p);
    AlignDownAligned(bss.vaddr, p);
    AscendingAccepted([SegmentOf(code, p), SegmentOf(bss, p)]);
    FilePartsExactly(phs, p);
    assert IsLoad(phs[1]) && NoFilePart(bss, p);
  }

  // For example, 4 KiB of code at 16 MiB, and 8 KiB of zeros behind it.
  lemma PureBssExample()
    ensures var phs := [Some(Phdr(PT_LOAD, Prot(true, false, true), 0, 0x100_0000, 0x1000, 0x1000)),
                        Some(Phdr(PT_LOAD, PROT_READ_WRITE, 0x1000, 0x100_1000, 0, 0x2000))];
      && GoodHeaders(phs) && ConformingFile(phs, 0x1000) && HullFree(Loads(phs, 0x1000))
      && !HaveFileParts(Loads(phs, 0x1000))
  {
    LowBitsIsRemainder(0, 0x1000);
    LowBitsIsRemainder(0x1000, 0x1000);
    LowBitsIsRemainder(0x100_0000, 0x1000);
    LowBitsIsRemainder(0x100_1000, 0x1000);
    PureBssNotMapped(Phdr(PT_LOAD, Prot(true, false, true), 0, 0x100_0000, 0x1000, 0x1000),
                     Phdr(PT_LOAD, PROT_READ_WRITE, 0x1000, 0x100_1000, 0, 0x2000), 0x1000);
  }
}
