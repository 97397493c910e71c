/** Machine integers and page arithmetic.

    Addresses and sizes are 64-bit; the sources' wrap-around is written out with Add64, Sub64 and
    AlignUp64.  align_down/align_up mask off low bits, which for a power of two is the arithmetic
    below. */
module Words {
  const TWO32: nat := 0x1_0000_0000
  const TWO64: nat := 0x1_0000_0000_0000_0000

  // kCompartmentStackSize
  const STACK_SIZE: nat := 0x10_0000

  type byte = b: int | 0 <= b < 256
  type u16 = x: int | 0 <= x < 0x1_0000
  type u64 = x: int | 0 <= x < 0x1_0000_0000_0000_0000

  // x & (p - 1) for a power of two p, as repeated subtraction: this keeps page arithmetic linear.
  function LowBits(x: nat, p: nat): (r: nat)
    requires p > 0
    ensures r < p
  {
    if x < p then x else LowBits(x - p, p)
  }

  predicate Aligned(x: nat, p: nat)
    requires p > 0
  {
    LowBits(x, p) == 0
  }

  // The divisors of 2^20 that are multiples of 16: the powers of two from 16 bytes to 1 MiB.
  predicate IsPageSize(p: nat) {
    p > 0 && p % 16 == 0 && p <= STACK_SIZE && Aligned(STACK_SIZE, p)
  }

  function Add64(x: nat, y: nat): u64 {
    (x + y) % TWO64
  }

  function Sub64(x: nat, y: nat): u64 {
    (x - y) % TWO64
  }

  // Both wrap around at 2^64.
  lemma WrapsExactly(x: u64, y: u64)
    ensures Add64(x, y) == if x + y < 0x1_0000_0000_0000_0000 then x + y else x + y - 0x1_0000_0000_0000_0000
    ensures Sub64(x, y) == if y <= x then x - y else x - y + 0x1_0000_0000_0000_0000
  {
  }

  function AlignDown(x: nat, p: nat): (r: nat)
    requires p > 0
    ensures r <= x < r + p
  {
    LowBitsAtMost(x, p);
    x - LowBits(x, p)
  }

  // Rounding up without wrap-around, as the kernel does on lengths it accepts.
  function RoundUp(x: nat, p: nat): (r: nat)
    requires p > 0
    ensures x <= r < x + p
  {
    AlignDown(x + p - 1, p)
  }

  // align_up() on a 64-bit value.
  function AlignUp64(x: nat, p: nat): nat
    requires p > 0
  {
    AlignDown(Add64(x, p - 1), p)
  }

  lemma {:induction false} LowBitsIsRemainder(x: nat, p: nat)
    requires p > 0
    ensures LowBits(x, p) == x % p
  {
    if x >= p {
      LowBitsIsRemainder(x - p, p);
      var q := (x - p) / p;
      assert x - p == p * q + (x - p) % p;
      assert x == p * (q + 1) + (x - p) % p;
      SameRemainder(x, p, q + 1, (x - p) % p);
    } else {
      SameRemainder(x, p, 0, x);
    }
  }

  lemma SameRemainder(x: nat, p: nat, q: nat, r: nat)
    requires p > 0 && x == p * q + r && r < p
    ensures x % p == r
  {
    var q', r' := x / p, x % p;
    assert x == p * q' + r';
    if q' > q {
      ProductGap(p, q, q');
    } else if q' < q {
      ProductGap(p, q', q);
    }
  }

  lemma {:induction false} ProductGap(p: nat, a: nat, b: nat)
    requires a < b
    ensures p * a + p <= p * b
  {
    assert p * b == p * (b - 1) + p;
    if a < b - 1 {
      ProductGap(p, a, b - 1);
    }
  }

  lemma {:induction false} LowBitsAtMost(x: nat, p: nat)
    requires p > 0
    ensures LowBits(x, p) <= x
  {
    if x >= p {
      LowBitsAtMost(x - p, p);
    }
  }

  // Adding a multiple of p does not change the low bits.
  lemma {:induction false} LowBitsShift(a: nat, x: nat, p: nat)
    requires p > 0 && Aligned(a, p)
    ensures LowBits(a + x, p) == LowBits(x, p)
  {
    if a >= p {
      LowBitsShift(a - p, x, p);
    }
  }

  lemma AlignedAdd(a: nat, b: nat, p: nat)
    requires p > 0 && Aligned(a, p) && Aligned(b, p)
    ensures Aligned(a + b, p)
    ensures b <= a ==> Aligned(a - b, p)
  {
    LowBitsShift(a, b, p);
    if b <= a {
      LowBitsShift(b, a - b, p);
    }
  }

  // Distinct multiples of p are at least p apart.
  lemma AlignedGap(a: nat, b: nat, p: nat)
    requires p > 0 && Aligned(a, p) && Aligned(b, p) && a < b
    ensures a + p <= b
  {
    AlignedAdd(b, a, p);
  }

  lemma {:induction false} AlignDownAligned(x: nat, p: nat)
    requires p > 0
    ensures Aligned(AlignDown(x, p), p)
    ensures Aligned(x, p) ==> AlignDown(x, p) == x
  {
    if x >= p {
      AlignDownAligned(x - p, p);
      assert AlignDown(x, p) == AlignDown(x - p, p) + p;
    }
  }

  // RoundUp is the least multiple of p that is not below x.
  lemma RoundUpLeast(x: nat, p: nat)
    requires p > 0
    ensures Aligned(RoundUp(x, p), p)
    ensures forall y: nat :: Aligned(y, p) && x <= y ==> RoundUp(x, p) <= y
    ensures Aligned(x, p) ==> RoundUp(x, p) == x
  {
    AlignDownAligned(x + p - 1, p);
    forall y: nat | Aligned(y, p) && x <= y
      ensures RoundUp(x, p) <= y
    {
      if y < RoundUp(x, p) {
        AlignedGap(y, RoundUp(x, p), p);
      }
    }
  }

  lemma AlignedFits(x: nat, y: nat, p: nat)
    requires p > 0 && Aligned(x, p) && x <= y
    ensures x <= AlignDown(y, p)
  {
    AlignDownAligned(y, p);
    if AlignDown(y, p) < x {
      AlignedGap(AlignDown(y, p), x, p);
    }
  }

  lemma RoundUpMonotone(x: nat, y: nat, p: nat)
    requires p > 0 && x <= y
    ensures RoundUp(x, p) <= RoundUp(y, p)
  {
    RoundUpLeast(x, p);
    RoundUpLeast(y, p);
  }

  // Adding a multiple of p moves the rounding along.
  lemma RoundUpShift(a: nat, x: nat, p: nat)
    requires p > 0 && Aligned(a, p)
    ensures RoundUp(a + x, p) == a + RoundUp(x, p)
  {
    LowBitsShift(a, x + p - 1, p);
  }

  // The 64-bit align_up agrees with exact rounding until x + p - 1 wraps, and then gives 0.
  lemma AlignUp64Exact(x: nat, p: nat)
    requires 0 < p && x < TWO64 && p <= TWO64
    ensures x + p - 1 < TWO64 ==> AlignUp64(x, p) == RoundUp(x, p)
    ensures x + p - 1 >= TWO64 ==> AlignUp64(x, p) == 0
  {
    if x + p - 1 >= TWO64 {
      assert Add64(x, p - 1) == x + p - 1 - TWO64;
    }
  }
}
