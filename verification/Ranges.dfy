/** Address ranges [base, top) (src/utils/elf_util.h). */
module Ranges {
  import opened Words

  datatype Range = Range(base: nat, top: nat) {
    function Size(): nat {
      if top > base then top - base else 0
    }

    predicate Intersects(other: Range) {
      base < other.top && other.base < top
    }

    predicate ContainsRange(other: Range) {
      base <= other.base && other.top <= top
    }

    predicate Contains(addr: nat) {
      base <= addr < top
    }

    function Enlarge(other: Range): Range {
      Range(if other.base < base then other.base else base,
            if other.top > top then other.top else top)
    }
  }

  // Contains nothing, intersects nothing and is the unit of Enlarge on 64-bit ranges.
  const EMPTY := Range(TWO64 - 1, 0)

  // On non-empty ranges, Intersects means sharing an address.
  lemma IntersectsMeansShared(r: Range, s: Range)
    requires r.base < r.top && s.base < s.top
    ensures r.Intersects(s) <==> exists a: nat :: r.Contains(a) && s.Contains(a)
  {
    if r.Intersects(s) {
      var a := if r.base < s.base then s.base else r.base;
      assert r.Contains(a) && s.Contains(a);
    }
  }

  // ContainsRange means inclusion of addresses, on a non-empty inner range.
  lemma ContainsRangeMeansSubset(r: Range, s: Range)
    requires s.base < s.top
    ensures r.ContainsRange(s) <==> forall a: nat :: s.Contains(a) ==> r.Contains(a)
  {
    if forall a: nat :: s.Contains(a) ==> r.Contains(a) {
      assert s.Contains(s.base) && s.Contains(s.top - 1);
    }
  }
}
