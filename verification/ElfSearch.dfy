/** Searching the segments for a range, and the symbol table for a name (src/utils/elf_util.cpp,
    CheckEntryPoint and FindSymbol).

    Both searches stop at the first segment that contains the range, whatever its protection. */
module ElfSearch {
  import opened Words
  import opened Ranges
  import opened AddressSpaces
  import opened ElfFormat
  import opened ElfHull

  datatype SymbolKind = STT_OBJECT | STT_FUNC | STT_OTHER

  datatype Symbol = Symbol(name: nat, kind: SymbolKind, value: u64, size: u64)

  // The symbol table, the index of its first global symbol and its string table.
  datatype SymbolTable = SymbolTable(symbols: seq<Symbol>, globalIndex: nat, strtab: seq<byte>)

  // (have & want) == want
  predicate Allows(have: Prot, want: Prot) {
    (want.read ==> have.read) && (want.write ==> have.write) && (want.exec ==> have.exec)
  }

  // The first segment that contains r has the wanted protection: what the code looks for.
  predicate FirstAllows(segs: seq<Segment>, r: Range, want: Prot) {
    exists i :: 0 <= i < |segs| && segs[i].memRange.ContainsRange(r) && Allows(segs[i].prot, want)
                && forall j :: 0 <= j < i ==> !segs[j].memRange.ContainsRange(r)
  }

  // Some segment contains r and has the wanted protection: what the code should look for.
  predicate SomeAllows(segs: seq<Segment>, r: Range, want: Prot) {
    exists i :: 0 <= i < |segs| && segs[i].memRange.ContainsRange(r) && Allows(segs[i].prot, want)
  }

  // A segment table that ReadProgramHeaders can produce from a conforming file.
  ghost predicate Accepted(segs: seq<Segment>, p: nat)
    requires p > 0
  {
    HullFree(segs) && forall i :: 0 <= i < |segs| ==> Mappable(segs[i], p)
  }

  // The range ends above the start of the page that holds its base.  Every non-empty range does;
  // an empty one unless it sits at a page boundary; one whose top wrapped around usually does not.
  predicate EndsInOrAfterPage(r: Range, p: nat)
    requires p > 0
  {
    AlignDown(r.base, p) < r.top
  }

  lemma BailOutLosesNothing(segs: seq<Segment>, r: Range, want: Prot, p: nat)
    requires p > 0 && Accepted(segs, p) && EndsInOrAfterPage(r, p)
    ensures FirstAllows(segs, r, want) <==> SomeAllows(segs, r, want)
  {
    if SomeAllows(segs, r, want) {
      var i :| 0 <= i < |segs| && segs[i].memRange.ContainsRange(r) && Allows(segs[i].prot, want);
      AcceptedPagesDisjoint(segs, p);
      forall j | 0 <= j < i
        ensures !segs[j].memRange.ContainsRange(r)
      {
        assert PagesApart(segs[j], segs[i], p);
        if segs[j].memRange.ContainsRange(r) {
          OnePageBoundary(segs[j], segs[i], r, p);
        }
      }
    }
  }

  lemma OnePageBoundary(s: Segment, t: Segment, r: Range, p: nat)
    requires p > 0 && Mappable(s, p) && Mappable(t, p) && PagesApart(s, t, p)
    requires s.memRange.ContainsRange(r) && t.memRange.ContainsRange(r)
    ensures !EndsInOrAfterPage(r, p)
  {
    var x := AlignDown(r.base, p);
    AlignDownAligned(r.base, p);
    if s.memRange.base > x {
      AlignedGap(x, s.memRange.base, p);
    }
    if t.memRange.base > x {
      AlignedGap(x, t.memRange.base, p);
    }
  }

  // The bail-out agrees with an exhaustive search on every accepted segment table exactly for the
  // ranges that end above the start of their first page.
  lemma BailOutExact(r: Range, want: Prot, p: nat)
    requires p > 0 && r.base + 2 * p < TWO64 && want != PROT_NONE
    ensures EndsInOrAfterPage(r, p) <==>
            forall segs :: Accepted(segs, p) ==> (FirstAllows(segs, r, want) <==> SomeAllows(segs, r, want))
  {
    if EndsInOrAfterPage(r, p) {
      forall segs | Accepted(segs, p)
        ensures FirstAllows(segs, r, want) <==> SomeAllows(segs, r, want)
      {
        BailOutLosesNothing(segs, r, want, p);
      }
    } else {
      var segs := AbuttingSegments(r, want, p);
      assert Accepted(segs, p) && !FirstAllows(segs, r, want) && SomeAllows(segs, r, want);
    }
  }

  // Two segments that meet at a page boundary between r.top and r.base, the lower one without the
  // wanted protection.
  lemma AbuttingSegments(r: Range, want: Prot, p: nat) returns (segs: seq<Segment>)
    requires p > 0 && r.base + 2 * p < TWO64 && want != PROT_NONE && !EndsInOrAfterPage(r, p)
    ensures Accepted(segs, p) && !FirstAllows(segs, r, want) && SomeAllows(segs, r, want)
  {
    var x := AlignDown(r.base, p);
    AlignDownAligned(r.base, p);
    if x != 0 {
      AlignedGap(0, x, p);
      AlignedAdd(x, p, p);
    }
    var low := Range(if x == 0 then 0 else x - p, x);
    var lower := Segment(low, 0, low.Size(), PROT_NONE);
    var upper := Segment(Range(x, x + p), 0, p, want);
    segs := [lower, upper];
    forall k | 0 <= k < 2
      ensures !MeetsHull(segs, k) && Mappable(segs[k], p)
    {
    }
    assert segs[1].memRange.ContainsRange(r);
    assert segs[0].memRange.ContainsRange(r);
  }

  // The header promises that a returned address points into a segment.  Containment of the
  // symbol's range delivers that exactly when the range is not empty (and did not wrap around).
  lemma PointsIntoSegment(r: Range)
    ensures r.base < r.top <==> forall s: Range :: s.ContainsRange(r) ==> s.Contains(r.base)
  {
    if r.top <= r.base {
      var s := Range(0, r.base);
      assert s.ContainsRange(r) && !s.Contains(r.base);
    }
  }

  // --- Symbol names ----------------------------------------------------------------------------

  function NameByte(name: seq<byte>, k: nat): byte {
    if k < |name| then name[k] else 0
  }

  // strncmp(&strtab[at], name, strtab_size - at) == 0, for a name without NUL.
  predicate StrncmpEqual(strtab: seq<byte>, at: nat, name: seq<byte>) {
    forall k :: 0 <= k < |strtab| - at && k <= |name| ==> strtab[at + k] == NameByte(name, k)
  }

  // The NUL-terminated string at offset at is name.
  predicate CStringIs(strtab: seq<byte>, at: nat, name: seq<byte>) {
    at + |name| < |strtab| && strtab[at..at + |name|] == name && strtab[at + |name|] == 0
  }

  // A string table whose last byte is NUL, as the gABI demands, makes the bounded comparison an
  // exact one.
  lemma StrncmpExact(strtab: seq<byte>, at: nat, name: seq<byte>)
    requires at < |strtab| && strtab[|strtab| - 1] == 0 && 0 !in name
    ensures StrncmpEqual(strtab, at, name) <==> CStringIs(strtab, at, name)
  {
    var last := |strtab| - 1 - at;
    if last < |name| {
      assert name[last] in name;
      assert strtab[at + last] != NameByte(name, last);
    } else if StrncmpEqual(strtab, at, name) {
      assert strtab[at + |name|] == NameByte(name, |name|);
      forall k | 0 <= k < |name|
        ensures strtab[at..at + |name|][k] == name[k]
      {
        assert strtab[at + k] == NameByte(name, k);
      }
    }
  }

  predicate Matches(table: SymbolTable, i: nat, name: seq<byte>)
    requires i < |table.symbols|
  {
    && !table.symbols[i].kind.STT_OTHER?
    && table.symbols[i].name < |table.strtab|
    && StrncmpEqual(table.strtab, table.symbols[i].name, name)
  }

  function SymbolRange(sym: Symbol): Range {
    Range(sym.value, Add64(sym.value, sym.size))
  }

  // The outcome of a search that settles on symbol i; 0 is the null pointer.
  function Settle(sym: Symbol, size: nat, segs: seq<Segment>, want: Prot): nat {
    if (size == 0 || sym.size == size) && FirstAllows(segs, SymbolRange(sym), want) then sym.value else 0
  }

  // i is the first global symbol that matches.
  predicate FirstMatch(table: SymbolTable, name: seq<byte>, i: nat) {
    && table.globalIndex <= i < |table.symbols|
    && Matches(table, i, name)
    && forall j :: table.globalIndex <= j < i ==> !Matches(table, j, name)
  }

  // The search for a name settles on addr.
  ghost predicate Finds(table: SymbolTable, name: seq<byte>, size: nat, segs: seq<Segment>, want: Prot, addr: nat) {
    addr != 0 && exists i: nat :: FirstMatch(table, name, i) && addr == Settle(table.symbols[i], size, segs, want)
  }

  // --- What the search should find -------------------------------------------------------------

  // Symbol i is a global variable or function of that name.
  predicate Named(table: SymbolTable, name: seq<byte>, i: nat) {
    && table.globalIndex <= i < |table.symbols|
    && (table.symbols[i].kind == STT_OBJECT || table.symbols[i].kind == STT_FUNC)
    && CStringIs(table.strtab, table.symbols[i].name, name)
  }

  // It has the size, unless any will do, and some segment with the protection holds all of its bytes.
  predicate Serves(sym: Symbol, size: nat, segs: seq<Segment>, want: Prot) {
    && sym.value != 0 && (size == 0 || sym.size == size)
    && exists k :: 0 <= k < |segs|
                   && segs[k].memRange.base <= sym.value && sym.value + sym.size <= segs[k].memRange.top
                   && (want.read ==> segs[k].prot.read) && (want.write ==> segs[k].prot.write)
                   && (want.exec ==> segs[k].prot.exec)
  }

  // Symbol i is the first of that name, and its value is the answer.
  predicate Answers(table: SymbolTable, name: seq<byte>, size: nat, segs: seq<Segment>, want: Prot, i: nat) {
    && Named(table, name, i) && (forall j: nat :: j < i ==> !Named(table, name, j))
    && Serves(table.symbols[i], size, segs, want)
  }

  // The gABI's string table, and a proper name.
  predicate Searchable(table: SymbolTable, name: seq<byte>) {
    table.strtab != [] && table.strtab[|table.strtab| - 1] == 0 && 0 !in name
  }

  lemma MatchesExactly(table: SymbolTable, name: seq<byte>, i: nat)
    requires Searchable(table, name) && table.globalIndex <= i < |table.symbols|
    ensures Matches(table, i, name) <==> Named(table, name, i)
  {
    if table.symbols[i].name < |table.strtab| {
      StrncmpExact(table.strtab, table.symbols[i].name, name);
    }
  }

  lemma FirstMatchExactly(table: SymbolTable, name: seq<byte>, i: nat)
    requires Searchable(table, name)
    ensures FirstMatch(table, name, i) <==> Named(table, name, i) && forall j: nat :: j < i ==> !Named(table, name, j)
  {
    forall j: nat | table.globalIndex <= j < |table.symbols|
      ensures Matches(table, j, name) <==> Named(table, name, j)
    {
      MatchesExactly(table, name, j);
    }
  }

  // A symbol that does not wrap around the address space and is not empty at a page boundary.
  predicate ProperSymbol(sym: Symbol, p: nat)
    requires p > 0
  {
    sym.value + sym.size < TWO64 && (sym.size == 0 ==> sym.value % p != 0)
  }

  // The name can be searched for, and what it names is proper.
  ghost predicate ProperName(table: SymbolTable, name: seq<byte>, p: nat)
    requires p > 0
  {
    Searchable(table, name) && forall i: nat :: Named(table, name, i) ==> ProperSymbol(table.symbols[i], p)
  }

  // For such a symbol, the search in the segments is exact.
  lemma SettleExactly(sym: Symbol, size: nat, segs: seq<Segment>, want: Prot, p: nat)
    requires p > 0 && Accepted(segs, p) && ProperSymbol(sym, p)
    ensures Settle(sym, size, segs, want) == if Serves(sym, size, segs, want) then sym.value else 0
  {
    var r := Range(sym.value, sym.value + sym.size);
    assert SymbolRange(sym) == r;
    LowBitsIsRemainder(sym.value, p);
    BailOutLosesNothing(segs, r, want, p);
    if Serves(sym, size, segs, want) {
      var k :| 0 <= k < |segs| && segs[k].memRange.base <= sym.value && r.top <= segs[k].memRange.top
               && (want.read ==> segs[k].prot.read) && (want.write ==> segs[k].prot.write)
               && (want.exec ==> segs[k].prot.exec);
      assert segs[k].memRange.ContainsRange(r) && Allows(segs[k].prot, want);
    }
  }

  // The search finds the first global variable or function of the name, exactly if it has the size
  // and all its bytes lie in a segment with the protection.
  lemma FindsExactly(table: SymbolTable, name: seq<byte>, size: nat, segs: seq<Segment>, want: Prot, p: nat, addr: nat)
    requires p > 0 && Accepted(segs, p) && ProperName(table, name, p)
    ensures Finds(table, name, size, segs, want, addr) <==>
            exists i: nat :: Answers(table, name, size, segs, want, i) && addr == table.symbols[i].value
  {
    forall i: nat
      ensures FirstMatch(table, name, i) <==> Named(table, name, i) && forall j: nat :: j < i ==> !Named(table, name, j)
    {
      FirstMatchExactly(table, name, i);
    }
    forall i: nat | Named(table, name, i)
      ensures Settle(table.symbols[i], size, segs, want)
           == if Serves(table.symbols[i], size, segs, want) then table.symbols[i].value else 0
    {
      SettleExactly(table.symbols[i], size, segs, want, p);
    }
    if Finds(table, name, size, segs, want, addr) {
      var i: nat :| FirstMatch(table, name, i) && addr == Settle(table.symbols[i], size, segs, want);
      assert Answers(table, name, size, segs, want, i);
    }
    if exists i: nat :: Answers(table, name, size, segs, want, i) && addr == table.symbols[i].value {
      var i: nat :| Answers(table, name, size, segs, want, i) && addr == table.symbols[i].value;
      assert FirstMatch(table, name, i) && addr == Settle(table.symbols[i], size, segs, want);
    }
  }

  // A found symbol has the requested size, and its bytes all lie in one accepted segment with the
  // requested protection; in particular its address points into that segment.
  lemma FoundSymbolIsUsable(sym: Symbol, size: nat, segs: seq<Segment>, want: Prot)
    requires Settle(sym, size, segs, want) != 0 && sym.size > 0 && sym.value + sym.size < TWO64
    ensures size != 0 ==> sym.size == size
    ensures exists i :: 0 <= i < |segs| && Allows(segs[i].prot, want)
                        && forall a: nat :: sym.value <= a < sym.value + sym.size ==> segs[i].memRange.Contains(a)
  {
    var i :| 0 <= i < |segs| && segs[i].memRange.ContainsRange(SymbolRange(sym)) && Allows(segs[i].prot, want);
    assert forall a: nat :: sym.value <= a < sym.value + sym.size ==> segs[i].memRange.Contains(a);
  }

  // Some executable segment holds the address.
  predicate InCode(segs: seq<Segment>, a: nat) {
    exists i :: 0 <= i < |segs| && segs[i].prot.exec && segs[i].memRange.Contains(a)
  }

  // A function that is found lies in an executable segment, for every accepted segment table, exactly
  // if its size is positive: an empty symbol may be found at the end of a segment.
  lemma FoundFunctionInCodeExactly(sym: Symbol, p: nat)
    requires p > 0 && 0 < sym.value && sym.value + sym.size < TWO64 && sym.value + p < TWO64
    ensures sym.size > 0 <==>
            forall segs :: Accepted(segs, p) && Settle(sym, 0, segs, PROT_EXEC) != 0 ==> InCode(segs, sym.value)
  {
    if sym.size > 0 {
      forall segs | Accepted(segs, p) && Settle(sym, 0, segs, PROT_EXEC) != 0
        ensures InCode(segs, sym.value)
      {
        FoundSymbolIsUsable(sym, 0, segs, PROT_EXEC);
      }
    } else {
      var segs := CodeEndingAt(sym, p);
      assert Accepted(segs, p) && Settle(sym, 0, segs, PROT_EXEC) != 0 && !InCode(segs, sym.value);
    }
  }

  // One segment of code that ends where the empty symbol is.
  lemma CodeEndingAt(sym: Symbol, p: nat) returns (segs: seq<Segment>)
    requires p > 0 && 0 < sym.value && sym.size == 0 && sym.value + p < TWO64
    ensures Accepted(segs, p) && Settle(sym, 0, segs, PROT_EXEC) != 0 && !InCode(segs, sym.value)
  {
    var code := Range(AlignDown(sym.value - 1, p), sym.value);
    AlignDownAligned(sym.value - 1, p);
    segs := [Segment(code, 0, code.Size(), PROT_EXEC)];
    assert segs[0].memRange.ContainsRange(SymbolRange(sym));
    assert !MeetsHull(segs, 0);
  }
}
