/** The enclave's arithmetic in wrapping 32-bit words (src/compartments/enclave.cpp). */
module Enclave {
  import opened Wrappers
  import opened Words

  type u32 = x: int | 0 <= x < 0x1_0000_0000

  function Mul32(x: nat, y: nat): u32 {
    (x * y) % 0x1_0000_0000
  }

  function Pow(a: nat, b: nat): nat {
    if b == 0 then 1 else a * Pow(a, b - 1)
  }

  // modulo()'s loop from a state (x, y, b) on.
  function Loop(x: nat, y: nat, b: nat, n: nat): (r: nat)
    requires n > 0
    ensures r < n
    decreases b
  {
    if b == 0 then x % n
    else Loop(if b % 2 == 1 then Mul32(x, y) % n else x, Mul32(y, y) % n, b / 2, n)
  }

  function Modulo(a: u32, b: u32, n: u32): nat
    requires n > 0
  {
    Loop(1, a, b, n)
  }

  // Square-and-multiply.  n == 0 would divide by zero.
  method ComputeModulo(a: u32, b: u32, n: u32) returns (r: u32)
    requires n > 0
    ensures r == Modulo(a, b, n) && r < n
    ensures Lossless(a, n) ==> r == Pow(a, b) % n
  {
    var x: u32, y: u32, e: u32 := 1, a, b;
    while e > 0
      invariant Loop(x, y, e, n) == Modulo(a, b, n)
      decreases e
    {
      if e % 2 == 1 {
        x := Mul32(x, y) % n;
      }
      y := Mul32(y, y) % n;
      e := e / 2;
    }
    r := x % n;
    if Lossless(a, n) {
      LoopExact(1, a, b, n);
    }
  }

  // --- Remainders ------------------------------------------------------------------------------

  lemma ModUnique(x: nat, n: nat, q: nat, r: nat)
    requires n > 0 && x == n * q + r && r < n
    ensures x % n == r
  {
    SameRemainder(x, n, q, r);
  }

  lemma ModPlusMultiple(x: nat, k: nat, n: nat)
    requires n > 0
    ensures (x + n * k) % n == x % n
  {
    assert x + n * k == n * (x / n + k) + x % n;
    ModUnique(x + n * k, n, x / n + k, x % n);
  }

  // Reducing a factor does not change the product's remainder.
  lemma ModMul(x: nat, y: nat, n: nat)
    requires n > 0
    ensures ((x % n) * y) % n == (x * y) % n
  {
    var q, r := x / n, x % n;
    assert x == n * q + r;
    assert x * y == r * y + n * (q * y);
    ModPlusMultiple(r * y, q * y, n);
  }

  lemma ModMulBoth(x: nat, y: nat, n: nat)
    requires n > 0
    ensures ((x % n) * (y % n)) % n == (x * y) % n
  {
    ModMul(x, y % n, n);
    ModMul(y, x, n);
    assert (x * (y % n)) == (y % n) * x && x * y == y * x;
  }

  lemma {:induction false} PowMod(a: nat, b: nat, n: nat)
    requires n > 0
    ensures Pow(a % n, b) % n == Pow(a, b) % n
  {
    if b > 0 {
      PowMod(a, b - 1, n);
      var p, p' := Pow(a, b - 1), Pow(a % n, b - 1);
      ModMulBoth(a, p, n);
      ModMulBoth(a % n, p', n);
      ModUnique(a % n, n, 0, a % n);
    }
  }

  lemma {:induction false} PowSquare(y: nat, h: nat)
    ensures Pow(y * y, h) == Pow(y, 2 * h)
  {
    if h > 0 {
      PowSquare(y, h - 1);
      var p := Pow(y, 2 * (h - 1));
      assert Pow(y, 2 * h) == y * Pow(y, 2 * h - 1) == y * (y * p);
      assert (y * y) * p == y * (y * p);
    }
  }

  // No product that the loop forms from factors up to y or below n loses information modulo n:
  // either none reaches 2^32, or n divides 2^32 and wrapping is harmless.
  predicate Lossless(y: nat, n: nat)
    requires n > 0
  {
    (n <= 0x1_0000 && y <= 0xFFFF) || TWO32 % n == 0
  }

  lemma ProductBound(x: nat, y: nat, k: nat)
    requires x <= k && y <= k
    ensures x * y <= k * k
  {
    assert k * k - x * y == k * (k - y) + y * (k - x);
    assert k * (k - y) >= 0 && y * (k - x) >= 0;
  }

  lemma MulLossless(x: nat, y: nat, n: nat)
    requires n > 0 && Lossless(x, n) && Lossless(y, n)
    ensures Mul32(x, y) % n == (x * y) % n
  {
    if TWO32 % n == 0 {
      ModOfMod(x * y, TWO32, n);
    } else {
      ProductBound(x, y, 0xFFFF);
    }
  }

  lemma ModOfMod(z: nat, m: nat, n: nat)
    requires m > 0 && n > 0 && m % n == 0
    ensures (z % m) % n == z % n
  {
    Divided(m, n);
    Divided(z, m);
    ModPlusMultiples(z % m, m, m / n, z / m, n);
  }

  lemma Divided(x: nat, n: nat)
    requires n > 0
    ensures x == n * (x / n) + x % n
  {
  }

  lemma ModPlusMultiples(r: nat, m: nat, k: nat, w: nat, n: nat)
    requires n > 0 && m == n * k
    ensures (m * w + r) % n == r % n
  {
    assert m * w == n * (k * w);
    ModPlusMultiple(r, k * w, n);
  }

  lemma MulAssociates(x: nat, y: nat, z: nat)
    ensures (x * y) * z == x * (y * z)
  {
  }

  // Without loss, the loop computes x * y^b mod n.
  lemma {:induction false} LoopExact(x: nat, y: nat, b: nat, n: nat)
    requires n > 0 && Lossless(x, n) && Lossless(y, n)
    ensures Loop(x, y, b, n) == (x * Pow(y, b)) % n
    decreases b
  {
    if b > 0 {
      MulLossless(x, y, n);
      MulLossless(y, y, n);
      var h := b / 2;
      var x', y' := if b % 2 == 1 then (x * y) % n else x, (y * y) % n;
      LoopExact(x', y', h, n);
      PowMod(y * y, h, n);
      PowSquare(y, h);
      ModMulBoth(x', Pow(y', h), n);
      ModMulBoth(x', Pow(y * y, h), n);
      if b % 2 == 1 {
        ModMul(x * y, Pow(y, 2 * h), n);
        assert Pow(y, b) == y * Pow(y, 2 * h);
        MulAssociates(x, y, Pow(y, 2 * h));
      }
    }
  }

  // A modulus with which no product of reduced factors loses information: up to 2^16 none reaches
  // 2^32, and for a divisor of 2^32 wrapping is harmless.
  predicate SafeModulus(n: nat)
    requires n > 0
  {
    n <= 0x1_0000 || TWO32 % n == 0
  }

  lemma LoopSquareWraps(n: nat)
    requires n > 0
    ensures Loop(1, 0x1_0000, 2, n) == 0 && Pow(0x1_0000, 2) == TWO32
  {
    assert Loop(1, 0x1_0000, 2, n) == Loop(1, 0, 1, n) == Loop(0, 0, 0, n) == 0;
    assert Pow(0x1_0000, 2) == 0x1_0000 * Pow(0x1_0000, 1) == 0x1_0000 * (0x1_0000 * Pow(0x1_0000, 0));
  }

  // Of the bases and exponents that the enclave passes, base 256 and exponent 4 is enough to go wrong.
  lemma LoopFourthWraps(n: nat)
    requires n > 0x1_0000
    ensures Loop(1, 0x100, 4, n) == 0
  {
    assert Mul32(0x100, 0x100) == 0x1_0000;
    ModUnique(0x1_0000, n, 0, 0x1_0000);
    LoopSquareWraps(n);
  }

  lemma FourthPower()
    ensures Pow(0x100, 4) == TWO32
  {
    PowSquare(0x100, 2);
    LoopSquareWraps(1);
  }

  // modulo() is right for all bases and exponents that the enclave can pass exactly if the modulus is
  // safe.
  lemma ModuloRightExactly(n: u32)
    requires n > 0
    ensures (forall a: u32, b: u32 :: a < MULTIPLIER && b < MULTIPLIER ==> Modulo(a, b, n) == Pow(a, b) % n)
            <==> SafeModulus(n)
  {
    if SafeModulus(n) {
      forall a: u32, b: u32 | a < MULTIPLIER && b < MULTIPLIER
        ensures Modulo(a, b, n) == Pow(a, b) % n
      {
        LoopExact(1, a, b, n);
      }
    } else {
      LoopFourthWraps(n);
      FourthPower();
      assert Modulo(0x100, 4, n) != Pow(0x100, 4) % n;
    }
  }

  // The same condition makes it right for every reduced base and every exponent.
  lemma ReducedRightExactly(n: u32)
    requires n > 0
    ensures (forall a: u32, b: u32 :: a < n ==> Modulo(a, b, n) == Pow(a, b) % n) <==> SafeModulus(n)
  {
    if SafeModulus(n) {
      forall a: u32, b: u32 | a < n
        ensures Modulo(a, b, n) == Pow(a, b) % n
      {
        LoopExact(1, a, b, n);
      }
    } else {
      LoopSquareWraps(n);
      assert Modulo(0x1_0000, 2, n) != Pow(0x1_0000, 2) % n;
    }
  }

  // A base that is not reduced is squared before it ever is: for every base and every exponent,
  // modulo() is right exactly if n divides 2^32.
  lemma UnreducedRightExactly(n: u32)
    requires n > 0
    ensures (forall a: u32, b: u32 :: Modulo(a, b, n) == Pow(a, b) % n) <==> TWO32 % n == 0
  {
    if TWO32 % n == 0 {
      forall a: u32, b: u32
        ensures Modulo(a, b, n) == Pow(a, b) % n
      {
        LoopExact(1, a, b, n);
      }
    } else {
      LoopSquareWraps(n);
      assert Modulo(0x1_0000, 2, n) != Pow(0x1_0000, 2) % n;
    }
  }

  // --- The commitment --------------------------------------------------------------------------

  // p1 and q1 are below this.
  const MULTIPLIER: nat := 1000

  lemma ScaledRemainder(p: nat, x: nat, q: nat)
    requires p > 0 && q > 0
    ensures p * q > 0 && (p * x) % (p * q) == p * (x % q)
  {
    ProductGap(p, 0, q);
    var k, r := x / q, x % q;
    assert x == q * k + r;
    assert p * x == (p * q) * k + p * r;
    ProductGap(p, r, q);
    ModUnique(p * x, p * q, k, p * r);
  }

  // The multiplier c of the commitment.
  function Multiplier(p1: u32, q1: u32): nat
    requires Mul32(p1, q1) > 0
  {
    Modulo(p1, q1, Mul32(p1, q1))
  }

  // With a safe modulus p1 * q1, c is p1 times the remainder of a power modulo q1.
  lemma MultiplierExact(p1: u32, q1: u32)
    requires 1 <= p1 < MULTIPLIER && 1 <= q1 < MULTIPLIER
    requires p1 * q1 > 0 && SafeModulus(p1 * q1)
    ensures Mul32(p1, q1) == p1 * q1
    ensures Multiplier(p1, q1) == p1 * (Pow(p1, q1 - 1) % q1)
  {
    var n := p1 * q1;
    ProductBound(p1, q1, MULTIPLIER);
    SmallProduct(p1, q1, n);
    MultiplierLoop(p1, q1, n);
    ScaledRemainder(p1, Pow(p1, q1 - 1), q1);
  }

  lemma SmallProduct(x: nat, y: nat, n: nat)
    requires n == x * y && n < TWO32
    ensures Mul32(x, y) == n
  {
  }

  lemma MultiplierLoop(p1: u32, q1: u32, n: nat)
    requires 1 <= p1 < MULTIPLIER && 1 <= q1 && n > 0 && SafeModulus(n)
    ensures Loop(1, p1, q1, n) == (p1 * Pow(p1, q1 - 1)) % n
  {
    LoopExact(1, p1, q1, n);
  }

  // The request then divides by zero exactly if q1 divides a power of p1; for q1 = 1 always.
  lemma MultiplierZeroExactly(p1: u32, q1: u32)
    requires 1 <= p1 < MULTIPLIER && 1 <= q1 < MULTIPLIER
    requires p1 * q1 > 0 && SafeModulus(p1 * q1)
    ensures Mul32(p1, q1) > 0
    ensures Multiplier(p1, q1) == 0 <==> Pow(p1, q1 - 1) % q1 == 0
    ensures q1 == 1 ==> Multiplier(p1, q1) == 0
  {
    MultiplierExact(p1, q1);
    if Pow(p1, q1 - 1) % q1 > 0 {
      ProductGap(p1, 0, Pow(p1, q1 - 1) % q1);
    }
  }

  lemma CancelFactor(a: nat, c: nat, rest: nat, inverse: nat, q: nat)
    requires q > 1 && a % q == 1 && c % q == 0 && a * rest == c * inverse
    ensures rest % q == 0
  {
    ModMul(a, rest, q);
    ModMul(c, inverse, q);
  }

  lemma SwapFactors(x: nat, y: nat, z: nat)
    ensures (x * y) * z == (x * z) * y
  {
  }

  // No power of p1 is divisible by q1 > 1 if p1 has an inverse modulo q1.
  lemma {:induction false} PowerNotDivisible(p1: nat, b: nat, q1: nat, inverse: nat)
    requires q1 > 1 && (p1 * inverse) % q1 == 1
    ensures Pow(p1, b) % q1 != 0
  {
    if b == 0 {
      ModUnique(1, q1, 0, 1);
    } else {
      var rest := Pow(p1, b - 1);
      PowerNotDivisible(p1, b - 1, q1, inverse);
      if (p1 * rest) % q1 == 0 {
        SwapFactors(p1, inverse, rest);
        CancelFactor(p1 * inverse, p1 * rest, rest, inverse, q1);
      }
    }
  }

  // The loop's variables at one moment.
  datatype LoopState = LoopState(x: nat, y: nat, b: nat)

  predicate Iterates(s: LoopState, s': LoopState, n: nat)
    requires n > 0
  {
    && s.b > 0 && s'.b == s.b / 2
    && s'.x == (if s.b % 2 == 1 then Mul32(s.x, s.y) % n else s.x)
    && s'.y == Mul32(s.y, s.y) % n
  }

  // Following a trace of the loop to its end gives its result.
  lemma {:induction false} FollowTrace(trace: seq<LoopState>, n: nat)
    requires n > 0 && trace != [] && trace[|trace| - 1].b == 0
    requires forall i :: 0 <= i < |trace| - 1 ==> Iterates(trace[i], trace[i + 1], n)
    ensures Loop(trace[0].x, trace[0].y, trace[0].b, n) == trace[|trace| - 1].x % n
    decreases |trace|
  {
    if |trace| > 1 {
      assert Iterates(trace[0], trace[1], n);
      FollowTrace(trace[1..], n);
    }
  }

  lemma WrappingModulus(p1: u32, q1: u32)
    requires p1 == 965 && q1 == 69
    ensures Mul32(p1, q1) == 66585
  {
    assert p1 * q1 == 965 * q1;
  }

  // The loop for p1 = 965, q1 = 69: the second squaring wraps.
  lemma WrappingIterations1()
    ensures Iterates(LoopState(1, 965, 69), LoopState(965, 65620, 34), 66585)
    ensures Iterates(LoopState(965, 65620, 34), LoopState(965, 30579, 17), 66585)
  {
  }

  lemma WrappingIterations2()
    ensures Iterates(LoopState(965, 30579, 17), LoopState(11580, 22086, 8), 66585)
  {
  }

  lemma WrappingIterations3()
    ensures Iterates(LoopState(11580, 22086, 8), LoopState(11580, 56271, 4), 66585)
    ensures Iterates(LoopState(11580, 56271, 4), LoopState(11580, 42351, 2), 66585)
    ensures Iterates(LoopState(11580, 42351, 2), LoopState(11580, 7056, 1), 66585)
  {
  }

  lemma WrappingIterations4()
    ensures Iterates(LoopState(11580, 7056, 1), LoopState(8685, 48141, 0), 66585)
  {
  }

  lemma WrappingLoop(p1: nat, q1: nat)
    requires p1 == 965 && q1 == 69
    ensures Loop(1, p1, q1, 66585) == 8685
  {
    var trace := [LoopState(1, 965, 69), LoopState(965, 65620, 34), LoopState(965, 30579, 17),
                  LoopState(11580, 22086, 8), LoopState(11580, 56271, 4), LoopState(11580, 42351, 2),
                  LoopState(11580, 7056, 1), LoopState(8685, 48141, 0)];
    forall i | 0 <= i < |trace| - 1
      ensures Iterates(trace[i], trace[i + 1], 66585)
    {
      WrappingIterations1();
      WrappingIterations2();
      WrappingIterations3();
      WrappingIterations4();
    }
    FollowTrace(trace, 66585);
    assert trace[0] == LoopState(1, p1, q1);
  }

  // Beyond that bound it need not be: the products wrap.
  lemma MultiplierWraps(p1: u32, q1: u32)
    requires p1 == 965 && q1 == 69
    ensures Mul32(p1, q1) == 66585 && Multiplier(p1, q1) == 8685
    ensures p1 * (Pow(p1, q1 - 1) % q1) == 965
  {
    WrappingModulus(p1, q1);
    WrappingLoop(p1, q1);
    // 965 is -1 modulo 69, and 68 is even.
    PowerOfMinusOne(p1, 34, q1);
  }

  lemma MinusOneSquared(n: nat)
    requires n > 1
    ensures ((n - 1) * (n - 1)) % n == 1
  {
    assert (n - 1) * (n - 1) == n * (n - 2) + 1;
    ModUnique((n - 1) * (n - 1), n, n - 2, 1);
  }

  // An even power of -1.
  lemma PowerOfMinusOne(a: nat, h: nat, n: nat)
    requires n > 1 && a % n == n - 1
    ensures Pow(a, 2 * h) % n == 1
  {
    PowMod(a, 2 * h, n);
    PowSquare(n - 1, h);
    MinusOneSquared(n);
    PowMod((n - 1) * (n - 1), h, n);
    PowOne(h);
    ModUnique(1, n, 0, 1);
  }

  lemma {:induction false} PowOne(b: nat)
    ensures Pow(1, b) == 1
  {
    if b > 0 {
      PowOne(b - 1);
    }
  }

  // None stands for the divisions by zero, which C++ leaves undefined.
  method DeriveCommitment(p1: u32, q1: u32, input: u32, encrypt: bool) returns (r: Option<u32>)
    ensures r.None? <==> Mul32(p1, q1) == 0 || Multiplier(p1, q1) == 0
    ensures 1 <= p1 < MULTIPLIER && 1 <= q1 < MULTIPLIER && p1 * q1 > 0 && SafeModulus(p1 * q1) ==>
      (r.None? <==> Pow(p1, q1 - 1) % q1 == 0)
    ensures r.Some? ==> r.value == if encrypt then Encrypted(Multiplier(p1, q1), input)
                                   else Decrypted(Multiplier(p1, q1), input)
    ensures r.Some? && encrypt ==> (Multiplier(p1, q1) * input - r.value) % 0x1_0000_0000 == 0
    ensures r.Some? && !encrypt ==> var c := Multiplier(p1, q1); c * r.value <= input < c * r.value + c
  {
    var n := Mul32(p1, q1);
    if 1 <= p1 < MULTIPLIER && 1 <= q1 < MULTIPLIER && p1 * q1 > 0 && SafeModulus(p1 * q1) {
      MultiplierZeroExactly(p1, q1);
    }
    if n == 0 {
      return None;
    }
    var c := ComputeModulo(p1, q1, n);
    if c == 0 {
      return None;
    }
    EncryptedWraps(c, input);
    r := Some(if encrypt then Encrypted(c, input) else Decrypted(c, input));
  }

  function Encrypted(c: nat, input: u32): u32 {
    Mul32(c, input)
  }

  // Encryption loses multiples of 2^32, and nothing else.
  lemma EncryptedWraps(c: nat, input: u32)
    ensures (c * input - Encrypted(c, input)) % 0x1_0000_0000 == 0
  {
    var x := c * input;
    assert x == 0x1_0000_0000 * (x / 0x1_0000_0000) + Encrypted(c, input);
  }

  function Decrypted(c: nat, input: u32): (r: u32)
    requires c > 0
    ensures c * r <= input < c * r + c
  {
    QuotientAtMost(input, c);
    input / c
  }

  lemma QuotientAtMost(x: nat, c: nat)
    requires c > 0
    ensures c * (x / c) <= x < c * (x / c) + c && x / c <= x
  {
    assert x == c * (x / c) + x % c;
    ProductGap(x / c, 0, c);
  }

  // Decryption under the same multiplier undoes encryption exactly if the product does not wrap.
  lemma DecryptUndoesEncryptExactly(c: u32, input: u32)
    requires c > 0
    ensures Decrypted(c, Encrypted(c, input)) == input <==> c * input < TWO32
  {
    var e, w := Encrypted(c, input), (c * input) / TWO32;
    assert c * input == TWO32 * w + e;
    var d := Decrypted(c, e);
    if w == 0 {
      QuotientUnique(c, d, input, e);
    } else {
      SmallerFactor(c, d, input);
    }
  }

  lemma SmallerFactor(c: nat, d: nat, x: nat)
    requires c * d < c * x
    ensures d < x
  {
    if x < d {
      ProductGap(c, x, d);
    }
  }

  lemma QuotientUnique(c: nat, d: nat, q: nat, e: nat)
    requires c > 0 && e == c * q && c * d <= e < c * d + c
    ensures d == q
  {
    if d < q {
      ProductGap(c, d, q);
    } else if q < d {
      ProductGap(c, q, d);
    }
  }

  // The two requests together, for p1 and q1 with a safe modulus: both divide by zero exactly if q1
  // divides p1^(q1-1), never if p1 has an inverse modulo q1 > 1, and always if q1 is 1.  Otherwise
  // the second returns what the first was given exactly if the product with c does not wrap.
  lemma CommitmentExactly(p1: u32, q1: u32, input: u32, inverse: nat)
    requires 1 <= p1 < MULTIPLIER && 1 <= q1 < MULTIPLIER
    requires p1 * q1 > 0 && SafeModulus(p1 * q1)
    ensures Mul32(p1, q1) > 0
    ensures Multiplier(p1, q1) == 0 <==> Pow(p1, q1 - 1) % q1 == 0
    ensures q1 == 1 ==> Multiplier(p1, q1) == 0
    ensures q1 > 1 && (p1 * inverse) % q1 == 1 ==> Multiplier(p1, q1) > 0
    ensures var c := Multiplier(p1, q1);
      c > 0 ==> (Decrypted(c, Encrypted(c, input)) == input <==> p1 * (Pow(p1, q1 - 1) % q1) * input < TWO32)
  {
    MultiplierZeroExactly(p1, q1);
    MultiplierExact(p1, q1);
    if q1 > 1 && (p1 * inverse) % q1 == 1 {
      PowerNotDivisible(p1, q1 - 1, q1, inverse);
    }
    if Multiplier(p1, q1) > 0 {
      DecryptUndoesEncryptExactly(Multiplier(p1, q1), input);
    }
  }
}
