/** Setting up a compartment's initial stack (src/compartment-manager/compartment_manager.cpp,
    SetupCompartmentStack). */
module InitialStack {
  import opened Wrappers
  import opened Words
  import opened AddressSpaces
  import opened MemoryWords
  import opened StackReader

  // --- Contents in memory ----------------------------------------------------------------------

  function EncodeAll(vs: seq<nat>): (bs: seq<byte>)
    ensures |bs| == 8 * |vs|
  {
    if vs == [] then [] else Encode(vs[0], 8) + EncodeAll(vs[1..])
  }

  function Reverse<T>(s: seq<T>): (r: seq<T>)
    ensures |r| == |s|
  {
    if s == [] then [] else [s[|s| - 1]] + Reverse(s[..|s| - 1])
  }

  lemma {:induction false} ReverseAt<T>(s: seq<T>, i: nat)
    requires i < |s|
    ensures Reverse(s)[i] == s[|s| - 1 - i]
  {
    if i > 0 {
      ReverseAt(s[..|s| - 1], i - 1);
    }
  }

  lemma BytesSplit(m: Memory, a: nat, x: seq<byte>, y: seq<byte>)
    requires BytesAt(m, a, x + y)
    ensures BytesAt(m, a, x) && BytesAt(m, a + |x|, y)
  {
    forall i | 0 <= i < |x|
      ensures ByteIs(m, a + i, x[i])
    {
      assert ByteIs(m, a + i, (x + y)[i]);
    }
    forall i | 0 <= i < |y|
      ensures ByteIs(m, a + |x| + i, y[i])
    {
      assert ByteIs(m, a + (|x| + i), (x + y)[|x| + i]);
    }
  }

  lemma {:induction false} EncodedWords(m: Memory, a: nat, vs: seq<nat>)
    requires BytesAt(m, a, EncodeAll(vs)) && forall i :: 0 <= i < |vs| ==> vs[i] < TWO64
    ensures WordsAt(m, a, vs)
    decreases |vs|
  {
    if vs != [] {
      BytesSplit(m, a, Encode(vs[0], 8), EncodeAll(vs[1..]));
      ReadWordAt(m, a, vs[0]);
      EncodedWords(m, a + 8, vs[1..]);
      forall i | 0 <= i < |vs|
        ensures ReadWord(m, a + 8 * i) == Some(vs[i])
      {
        if i > 0 {
          assert ReadWord(m, a + 8 + 8 * (i - 1)) == Some(vs[1..][i - 1]);
        }
      }
    }
  }

  lemma WordsKept(m: Memory, m': Memory, lo: int, hi: int, a: nat, ws: seq<nat>)
    requires SameOutside(m, m', lo, hi) && hi <= a && WordsAt(m, a, ws)
    ensures WordsAt(m', a, ws)
  {
    forall i | 0 <= i < |ws|
      ensures ReadWord(m', a + 8 * i) == Some(ws[i])
    {
      assert ReadWord(m, a + 8 * i) == Some(ws[i]);
      ReadWordKept(m, m', lo, hi, a + 8 * i);
    }
  }

  lemma WordsJoin(m: Memory, a: nat, x: seq<nat>, y: seq<nat>)
    requires WordsAt(m, a, x) && WordsAt(m, a + 8 * |x|, y)
    ensures WordsAt(m, a, x + y)
  {
    forall i | 0 <= i < |x + y|
      ensures ReadWord(m, a + 8 * i) == Some((x + y)[i])
    {
      if i >= |x| {
        assert ReadWord(m, a + 8 * |x| + 8 * (i - |x|)) == Some(y[i - |x|]);
      }
    }
  }

  lemma BytesKept(m: Memory, m': Memory, lo: int, hi: int, a: nat, bs: seq<byte>)
    requires SameOutside(m, m', lo, hi) && hi <= a && BytesAt(m, a, bs)
    ensures BytesAt(m', a, bs)
  {
    forall i | 0 <= i < |bs|
      ensures ByteIs(m', a + i, bs[i])
    {
      assert ByteIs(m, a + i, bs[i]) && SameAt(m, m', a + i);
    }
  }

  // Strings at or above hi survive changes below hi.
  lemma StringsKept(m: Memory, m': Memory, lo: int, hi: nat, ptrs: seq<nat>, ss: seq<seq<byte>>, end: nat)
    requires SameOutside(m, m', lo, hi) && StringsAt(m, ptrs, ss, hi, end)
    ensures forall low: nat, top: nat :: low <= hi && end <= top ==> StringsAt(m', ptrs, ss, low, top)
  {
    forall i | 0 <= i < |ptrs|
      ensures BytesAt(m', ptrs[i], ss[i] + [0])
    {
      BytesKept(m, m', lo, hi, ptrs[i], ss[i] + [0]);
    }
  }

  lemma StringsSnoc(m: Memory, ptrs: seq<nat>, ss: seq<seq<byte>>, lo: nat, end: nat, ptr: nat, s: seq<byte>)
    requires StringsAt(m, ptrs, ss, lo, end)
    requires lo <= ptr && ptr + |s| < end && BytesAt(m, ptr, s + [0])
    ensures StringsAt(m, ptrs + [ptr], ss + [s], lo, end)
  {
  }

  lemma StringsReversed(m: Memory, ptrs: seq<nat>, ss: seq<seq<byte>>, lo: nat, end: nat)
    requires StringsAt(m, ptrs, ss, lo, end)
    ensures StringsAt(m, Reverse(ptrs), Reverse(ss), lo, end)
  {
    forall i | 0 <= i < |ptrs|
      ensures Reverse(ptrs)[i] == ptrs[|ptrs| - 1 - i] && Reverse(ss)[i] == ss[|ptrs| - 1 - i]
    {
      ReverseAt(ptrs, i);
      ReverseAt(ss, i);
    }
  }

  // --- Where the stack pointer ends up ---------------------------------------------------------

  function StringBytes(ss: seq<seq<byte>>): nat {
    if ss == [] then 0 else StringBytes(ss[..|ss| - 1]) + |ss[|ss| - 1]| + 1
  }

  const AUX_BYTES: nat := 112

  // The pointers of argv and envp, their NULLs and argc.
  function PointerBytes(args: nat, env: nat): nat {
    8 * (env + 1 + args + 1 + 1)
  }

  // After the strings and 16 random bytes, sp is lowered so that it ends up 16-byte aligned.
  function FinalSp(top: int, args: seq<seq<byte>>, env: seq<seq<byte>>): int {
    var sp := top - StringBytes(args) - StringBytes(env) - 16;
    sp - (sp - PointerBytes(|args|, |env|)) % 16 - AUX_BYTES - PointerBytes(|args|, |env|)
  }

  // AAPCS64: the stack pointer is 16-byte aligned at a public interface.
  lemma FinalSpAligned(top: int, args: seq<seq<byte>>, env: seq<seq<byte>>)
    ensures FinalSp(top, args, env) % 16 == 0
  {
    var sp := top - StringBytes(args) - StringBytes(env) - 16;
    var n := sp - PointerBytes(|args|, |env|);
    assert FinalSp(top, args, env) == n - n % 16 - AUX_BYTES;
  }

  // A string takes its length and a NUL.
  lemma StringBytesSnoc(ss: seq<seq<byte>>, s: seq<byte>)
    ensures StringBytes([]) == 0 && StringBytes(ss + [s]) == StringBytes(ss) + |s| + 1
  {
    assert (ss + [s])[..|ss|] == ss;
  }

  lemma AlignedBelow(n: int, sp: int)
    ensures sp == n - n % 16 - 7 * 16 <==> sp % 16 == 0 && sp <= n - 7 * 16 < sp + 16
  {
  }

  // The final SP is the greatest multiple of 16 that leaves room for the strings, 16 random bytes,
  // seven auxiliary entries of 16 bytes, the pointers, two NULLs and argc.
  lemma FinalSpExactly(top: int, args: seq<seq<byte>>, env: seq<seq<byte>>, sp: int)
    ensures sp == FinalSp(top, args, env) <==>
      var room := StringBytes(args) + StringBytes(env) + 16 + 7 * 16 + 8 * (|args| + |env| + 3);
      sp % 16 == 0 && sp + room <= top < sp + room + 16
  {
    AlignedBelow(top - StringBytes(args) - StringBytes(env) - 16 - PointerBytes(|args|, |env|), sp);
  }

  lemma FinalSpBelowTop(top: int, args: seq<seq<byte>>, env: seq<seq<byte>>)
    ensures FinalSp(top, args, env) < top
  {
  }

  datatype AuxValues = AuxValues(phnum: u64, phent: u64, phdr: u64, pagesz: u64)

  function ElfAuxv(aux: AuxValues): seq<AuxEntry> {
    [AuxEntry(AT_PAGESZ, aux.pagesz), AuxEntry(AT_PHDR, aux.phdr),
     AuxEntry(AT_PHENT, aux.phent), AuxEntry(AT_PHNUM, aux.phnum)]
  }

  function Auxv(aux: AuxValues, random: nat): seq<AuxEntry> {
    ElfAuxv(aux) + [AuxEntry(AT_SECURE, 0), AuxEntry(AT_RANDOM, random), AuxEntry(AT_NULL, 0)]
  }

  // What getauxval() answers, by the numbers that elf.h gives to AT_PHDR, AT_PHENT, AT_PHNUM,
  // AT_PAGESZ, AT_SECURE and AT_RANDOM; the last entry, and no other, is AT_NULL.
  lemma AuxvalsOf(aux: AuxValues, random: nat)
    ensures GetAuxval(Auxv(aux, random), 3) == aux.phdr
    ensures GetAuxval(Auxv(aux, random), 4) == aux.phent
    ensures GetAuxval(Auxv(aux, random), 5) == aux.phnum
    ensures GetAuxval(Auxv(aux, random), 6) == aux.pagesz
    ensures GetAuxval(Auxv(aux, random), 23) == 0
    ensures GetAuxval(Auxv(aux, random), 25) == random
    ensures |Auxv(aux, random)| == 7 && Auxv(aux, random)[6] == AuxEntry(0, 0)
    ensures forall k :: 0 <= k < 6 ==> Auxv(aux, random)[k].kind in {3, 4, 5, 6, 23, 25}
  {
    var auxv := Auxv(aux, random);
    FirstOfKind(auxv, 0);
    FirstOfKind(auxv, 1);
    FirstOfKind(auxv, 2);
    FirstOfKind(auxv, 3);
    FirstOfKind(auxv, 4);
    FirstOfKind(auxv, 5);
  }

  predicate AllShorter(ss: seq<seq<byte>>, limit: nat) {
    forall i :: 0 <= i < |ss| ==> |ss[i]| < limit
  }

  // Some string is at least as long as limit; no string is as long as 2^63 bytes.
  predicate SomeLong(ss: seq<seq<byte>>, limit: nat) {
    exists i :: 0 <= i < |ss| && limit <= |ss[i]| < TWO64 / 2
  }

  lemma AllShorterSnoc(ss: seq<seq<byte>>, s: seq<byte>, limit: nat)
    ensures AllShorter(ss + [s], limit) <==> AllShorter(ss, limit) && |s| < limit
  {
    var all := ss + [s];
    assert all[|ss|] == s && forall i :: 0 <= i < |ss| ==> all[i] == ss[i];
  }

  lemma SomeLongSnoc(ss: seq<seq<byte>>, s: seq<byte>, limit: nat)
    ensures SomeLong(ss + [s], limit) <==> SomeLong(ss, limit) || limit <= |s| < TWO64 / 2
  {
    var all := ss + [s];
    assert all[|ss|] == s && forall i :: 0 <= i < |ss| ==> all[i] == ss[i];
  }

  class StackBuilder {
    const space: AddressSpace
    const top: nat
    const lowerLimit: nat
    var sp: nat
    var overflow: bool
    var faulted: bool  // the process is dead

    constructor (space: AddressSpace, top: nat, stackSize: nat)
      requires stackSize / 2 + 64 <= top < TWO64
      requires Writable(space.mem, top - stackSize / 2, stackSize / 2)
      ensures this.space == space && this.top == top && lowerLimit == top - stackSize / 2
      ensures Valid() && sp == top && !overflow && !faulted
    {
      this.space, this.top, this.lowerLimit := space, top, top - stackSize / 2;
      sp, overflow, faulted := top, false, false;
    }

    ghost predicate Valid()
      reads this, space
    {
      && 64 <= lowerLimit <= top < TWO64 && lowerLimit <= sp + 30 && sp <= top
      && Writable(space.mem, lowerLimit, top - lowerLimit)
      && (faulted ==> overflow)
    }

    // e is where sp would be if nothing had overflowed; an overflow means that it does not fit.
    ghost predicate Tracks(e: int)
      reads this
    {
      if overflow then e < lowerLimit else sp == e
    }

    // The check is on 64-bit pointers: a size beyond sp wraps around and passes it, and then the
    // copy runs past the end of the address space.
    method Push(data: seq<byte>, ghost e: int)
      requires Valid() && Tracks(e)
      modifies this, space`mem
      ensures Valid() && Tracks(e - |data|)
      ensures old(overflow) ==> overflow
      ensures faulted <==> old(faulted) || (|data| > old(sp) && Sub64(old(sp), |data|) >= lowerLimit)
      ensures sp == old(sp) || lowerLimit <= sp
      ensures !overflow ==> old(sp) == sp + |data| && BytesAt(space.mem, sp, data) && lowerLimit <= sp
      ensures SameOutside(old(space.mem), space.mem, lowerLimit, old(sp))
      ensures sp <= old(sp)
    {
      if faulted {
        return;
      }
      if Sub64(sp, |data|) < lowerLimit {
        overflow := true;
        return;
      }
      if |data| > sp {
        // Nothing is claimed of the stack of a dead process.
        overflow, faulted := true, true;
        return;
      }
      sp := sp - |data|;
      StoredBytes(space.mem, sp, data);
      SameOutsideWider(space.mem, Stored(space.mem, sp, data), sp, sp + |data|, lowerLimit, sp + |data|);
      space.Store(sp, data);
    }

    method PushWords(vs: seq<nat>, ghost ws: seq<nat>, ghost e: int)
      requires Valid() && Tracks(e) && |vs| <= 2 && forall i :: 0 <= i < |vs| ==> vs[i] < TWO64
      requires !overflow ==> WordsAt(space.mem, sp, ws)
      modifies this, space`mem
      ensures Valid() && Tracks(e - 8 * |vs|)
      ensures (old(overflow) ==> overflow) && faulted == old(faulted)
      ensures !overflow ==> WordsAt(space.mem, sp, vs + ws)
      ensures SameOutside(old(space.mem), space.mem, lowerLimit, old(sp))
      ensures sp <= old(sp) && (!overflow && vs != [] ==> lowerLimit <= sp)
    {
      Push(EncodeAll(vs), e);
      if !overflow {
        EncodedWords(space.mem, sp, vs);
        WordsKept(old(space.mem), space.mem, lowerLimit, old(sp), old(sp), ws);
        WordsJoin(space.mem, sp, vs, ws);
      }
    }

    method SetAuxval(kind: nat, val: nat, ghost es: seq<AuxEntry>, ghost e: int)
      requires Valid() && Tracks(e) && kind < TWO64 && val < TWO64
      requires !overflow ==> WordsAt(space.mem, sp, AuxWords(es))
      modifies this, space`mem
      ensures Valid() && Tracks(e - 16)
      ensures (old(overflow) ==> overflow) && faulted == old(faulted)
      ensures !overflow ==> WordsAt(space.mem, sp, AuxWords([AuxEntry(kind, val)] + es))
      ensures SameOutside(old(space.mem), space.mem, lowerLimit, old(sp))
      ensures sp <= old(sp)
    {
      PushWords([kind, val], AuxWords(es), e);
      assert AuxWords([AuxEntry(kind, val)] + es) == [kind, val] + AuxWords(es);
    }

    // One string; done are those before it.
    method PushString(s: seq<byte>, ghost done: seq<seq<byte>>, ghost ptrs: seq<nat>, ghost start: nat, ghost e: int)
      requires Valid() && Tracks(e - StringBytes(done)) && lowerLimit <= sp <= start && |ptrs| == |done|
      requires !overflow ==> StringsAt(space.mem, ptrs, done, sp, start)
      modifies this, space`mem
      ensures Valid() && Tracks(e - StringBytes(done + [s])) && lowerLimit <= sp <= old(sp)
      ensures (old(overflow) ==> overflow) && (old(faulted) ==> faulted)
      ensures |s| < lowerLimit && !old(faulted) ==> !faulted
      ensures top <= |s| < TWO64 / 2 ==> faulted
      ensures !overflow ==> StringsAt(space.mem, ptrs + [sp], done + [s], sp, start)
      ensures SameOutside(old(space.mem), space.mem, lowerLimit, old(sp))
    {
      assert (done + [s])[..|done|] == done;
      Push(s + [0], e - StringBytes(done));
      if !overflow {
        StringsKept(old(space.mem), space.mem, lowerLimit, old(sp), ptrs, done, start);
        StringsSnoc(space.mem, ptrs, done, sp, start, sp, s);
      }
    }

    // A loop that copies strings and records where they went.
    method PushStrings(ss: seq<seq<byte>>, ghost e: int) returns (ptrs: seq<nat>)
      requires Valid() && Tracks(e) && lowerLimit <= sp
      modifies this, space`mem
      ensures Valid() && Tracks(e - StringBytes(ss)) && lowerLimit <= sp <= old(sp)
      ensures (old(overflow) ==> overflow) && (old(faulted) ==> faulted)
      ensures AllShorter(ss, lowerLimit) && !old(faulted) ==> !faulted
      ensures SomeLong(ss, top) ==> faulted
      ensures |ptrs| == |ss| && forall i :: 0 <= i < |ptrs| ==> ptrs[i] < TWO64
      ensures !overflow ==> StringsAt(space.mem, ptrs, ss, sp, old(sp))
      ensures SameOutside(old(space.mem), space.mem, lowerLimit, old(sp))
    {
      ptrs := [];
      var i := 0;
      while i < |ss|
        invariant 0 <= i <= |ss|
        invariant Valid() && Tracks(e - StringBytes(ss[..i])) && lowerLimit <= sp <= old(sp)
        invariant (old(overflow) ==> overflow) && (old(faulted) ==> faulted)
        invariant AllShorter(ss[..i], lowerLimit) && !old(faulted) ==> !faulted
        invariant SomeLong(ss[..i], top) ==> faulted
        invariant |ptrs| == i && forall j :: 0 <= j < i ==> ptrs[j] < TWO64
        invariant !overflow ==> StringsAt(space.mem, ptrs, ss[..i], sp, old(sp))
        invariant SameOutside(old(space.mem), space.mem, lowerLimit, old(sp))
      {
        ghost var m, at := space.mem, sp;
        assert ss[..i + 1] == ss[..i] + [ss[i]];
        AllShorterSnoc(ss[..i], ss[i], lowerLimit);
        SomeLongSnoc(ss[..i], ss[i], top);
        PushString(ss[i], ss[..i], ptrs, old(sp), e);
        SameOutsideThen(old(space.mem), m, space.mem, lowerLimit, old(sp), at);
        ptrs := ptrs + [sp];
        i := i + 1;
      }
      assert ss[..|ss|] == ss;
    }

    // argv entries have to end up in order, so they are pushed from the last one.
    method PushArgv(argv: seq<nat>, ghost ws: seq<nat>, ghost e: int)
      requires Valid() && Tracks(e) && forall i :: 0 <= i < |argv| ==> argv[i] < TWO64
      requires !overflow ==> WordsAt(space.mem, sp, ws)
      modifies this, space`mem
      ensures Valid() && Tracks(e - 8 * |argv|)
      ensures (old(overflow) ==> overflow) && faulted == old(faulted)
      ensures !overflow ==> WordsAt(space.mem, sp, argv + ws)
      ensures SameOutside(old(space.mem), space.mem, lowerLimit, old(sp))
      ensures sp <= old(sp)
    {
      var i := |argv|;
      assert argv[i..] + ws == ws;
      while i > 0
        invariant 0 <= i <= |argv|
        invariant Valid() && Tracks(e - 8 * (|argv| - i))
        invariant (old(overflow) ==> overflow) && faulted == old(faulted)
        invariant !overflow ==> WordsAt(space.mem, sp, argv[i..] + ws)
        invariant SameOutside(old(space.mem), space.mem, lowerLimit, old(sp))
        invariant sp <= old(sp)
      {
        ghost var m, at := space.mem, sp;
        PushWords([argv[i - 1]], argv[i..] + ws, e - 8 * (|argv| - i));
        SameOutsideThen(old(space.mem), m, space.mem, lowerLimit, old(sp), at);
        assert [argv[i - 1]] + (argv[i..] + ws) == argv[i - 1..] + ws;
        i := i - 1;
      }
    }

    // The order of environment variables does not matter, so they end up reversed.
    method PushEnvp(envp: seq<nat>, ghost ws: seq<nat>, ghost e: int)
      requires Valid() && Tracks(e) && forall i :: 0 <= i < |envp| ==> envp[i] < TWO64
      requires !overflow ==> WordsAt(space.mem, sp, ws)
      modifies this, space`mem
      ensures Valid() && Tracks(e - 8 * |envp|)
      ensures (old(overflow) ==> overflow) && faulted == old(faulted)
      ensures !overflow ==> WordsAt(space.mem, sp, Reverse(envp) + ws)
      ensures SameOutside(old(space.mem), space.mem, lowerLimit, old(sp))
      ensures sp <= old(sp)
    {
      var i := 0;
      assert Reverse(envp[..0]) + ws == ws;
      while i < |envp|
        invariant 0 <= i <= |envp|
        invariant Valid() && Tracks(e - 8 * i)
        invariant (old(overflow) ==> overflow) && faulted == old(faulted)
        invariant !overflow ==> WordsAt(space.mem, sp, Reverse(envp[..i]) + ws)
        invariant SameOutside(old(space.mem), space.mem, lowerLimit, old(sp))
        invariant sp <= old(sp)
      {
        ghost var m, at := space.mem, sp;
        PushWords([envp[i]], Reverse(envp[..i]) + ws, e - 8 * i);
        SameOutsideThen(old(space.mem), m, space.mem, lowerLimit, old(sp), at);
        assert envp[..i + 1][..i] == envp[..i];
        assert [envp[i]] + (Reverse(envp[..i]) + ws) == Reverse(envp[..i + 1]) + ws;
        i := i + 1;
      }
      assert envp[..|envp|] == envp;
    }

    method PushAuxv(aux: AuxValues, random: nat, ghost e: int)
      requires Valid() && Tracks(e) && random < TWO64
      modifies this, space`mem
      ensures Valid() && Tracks(e - AUX_BYTES)
      ensures (old(overflow) ==> overflow) && faulted == old(faulted)
      ensures !overflow ==> WordsAt(space.mem, sp, AuxWords(Auxv(aux, random)))
      ensures SameOutside(old(space.mem), space.mem, lowerLimit, old(sp))
      ensures sp <= old(sp)
    {
      ghost var es := Auxv(aux, random);
      ghost var m, at := space.mem, sp;
      SetAuxval(AT_NULL, 0, [], e);
      ghost var m1, at1 := space.mem, sp;
      SetAuxval(AT_RANDOM, random, [AuxEntry(AT_NULL, 0)], e - 16);
      SameOutsideThen(m, m1, space.mem, lowerLimit, at, at1);
      ghost var m2, at2 := space.mem, sp;
      SetAuxval(AT_SECURE, 0, [AuxEntry(AT_RANDOM, random)] + [AuxEntry(AT_NULL, 0)], e - 32);
      SameOutsideThen(m, m2, space.mem, lowerLimit, at, at2);
      ghost var m3, at3 := space.mem, sp;
      assert [AuxEntry(AT_SECURE, 0)] + ([AuxEntry(AT_RANDOM, random)] + [AuxEntry(AT_NULL, 0)]) == es[4..];
      SetElfAuxvals(aux, es[4..], e - 48);
      SameOutsideThen(m, m3, space.mem, lowerLimit, at, at3);
      assert es[..4] + es[4..] == es;
    }

    // The entries that describe the program headers, and the page size.
    method SetElfAuxvals(aux: AuxValues, ghost es: seq<AuxEntry>, ghost e: int)
      requires Valid() && Tracks(e)
      requires !overflow ==> WordsAt(space.mem, sp, AuxWords(es))
      modifies this, space`mem
      ensures Valid() && Tracks(e - 64)
      ensures (old(overflow) ==> overflow) && faulted == old(faulted)
      ensures !overflow ==> WordsAt(space.mem, sp, AuxWords(ElfAuxv(aux) + es))
      ensures SameOutside(old(space.mem), space.mem, lowerLimit, old(sp))
      ensures sp <= old(sp)
    {
      ghost var m, at := space.mem, sp;
      SetAuxval(AT_PHNUM, aux.phnum, es, e);
      ghost var m1, at1, es1 := space.mem, sp, [AuxEntry(AT_PHNUM, aux.phnum)] + es;
      SetAuxval(AT_PHENT, aux.phent, es1, e - 16);
      SameOutsideThen(m, m1, space.mem, lowerLimit, at, at1);
      ghost var m2, at2, es2 := space.mem, sp, [AuxEntry(AT_PHENT, aux.phent)] + es1;
      SetAuxval(AT_PHDR, aux.phdr, es2, e - 32);
      SameOutsideThen(m, m2, space.mem, lowerLimit, at, at2);
      ghost var m3, at3, es3 := space.mem, sp, [AuxEntry(AT_PHDR, aux.phdr)] + es2;
      SetAuxval(AT_PAGESZ, aux.pagesz, es3, e - 48);
      SameOutsideThen(m, m3, space.mem, lowerLimit, at, at3);
      assert [AuxEntry(AT_PAGESZ, aux.pagesz)] + es3 == ElfAuxv(aux) + es;
    }

    // Everything below the strings: auxv, envp, argv and argc.
    method PushTable(argv: seq<nat>, envp: seq<nat>, aux: AuxValues, random: nat, ghost e: int)
      requires Valid() && Tracks(e) && random < TWO64 && |argv| < TWO64
      requires forall i :: 0 <= i < |argv| ==> argv[i] < TWO64
      requires forall i :: 0 <= i < |envp| ==> envp[i] < TWO64
      modifies this, space`mem
      ensures Valid() && Tracks(e - AUX_BYTES - PointerBytes(|argv|, |envp|))
      ensures (old(overflow) ==> overflow) && faulted == old(faulted)
      ensures !overflow ==> lowerLimit <= sp
      ensures !overflow ==> WordsAt(space.mem, sp, StartupWords(argv, Reverse(envp), Auxv(aux, random)))
      ensures SameOutside(old(space.mem), space.mem, lowerLimit, old(sp))
      ensures sp <= old(sp)
    {
      ghost var m, at, words := space.mem, sp, AuxWords(Auxv(aux, random));
      ghost var e1 := e - AUX_BYTES;
      ghost var e2 := e1 - 8 - 8 * |envp|;
      PushAuxv(aux, random, e);
      ghost var m1, at1 := space.mem, sp;
      PushWords([0], words, e1);
      SameOutsideThen(m, m1, space.mem, lowerLimit, at, at1);
      ghost var m2, at2 := space.mem, sp;
      PushEnvp(envp, [0] + words, e1 - 8);
      SameOutsideThen(m, m2, space.mem, lowerLimit, at, at2);
      ghost var m3, at3 := space.mem, sp;
      PushWords([0], Reverse(envp) + ([0] + words), e2);
      SameOutsideThen(m, m3, space.mem, lowerLimit, at, at3);
      ghost var m4, at4 := space.mem, sp;
      PushArgv(argv, [0] + (Reverse(envp) + ([0] + words)), e2 - 8);
      SameOutsideThen(m, m4, space.mem, lowerLimit, at, at4);
      ghost var m5, at5 := space.mem, sp;
      PushWords([|argv|], argv + ([0] + (Reverse(envp) + ([0] + words))), e2 - 8 - 8 * |argv|);
      SameOutsideThen(m, m5, space.mem, lowerLimit, at, at5);
      assert [|argv|] + (argv + ([0] + (Reverse(envp) + ([0] + words))))
          == StartupWords(argv, Reverse(envp), Auxv(aux, random));
    }

    // The strings of argv and envp, then the random bytes.
    method PushContents(args: seq<seq<byte>>, env: seq<seq<byte>>, random: seq<byte>)
      returns (argv: seq<nat>, envp: seq<nat>)
      requires Valid() && sp == top && !overflow && !faulted && |random| == 16
      modifies this, space`mem
      ensures Valid() && Tracks(top - StringBytes(args) - StringBytes(env) - |random|) && lowerLimit <= sp
      ensures |argv| == |args| && forall i :: 0 <= i < |argv| ==> argv[i] < TWO64
      ensures |envp| == |env| && forall i :: 0 <= i < |envp| ==> envp[i] < TWO64
      ensures !overflow ==>
        && StringsAt(space.mem, argv, args, sp, top) && StringsAt(space.mem, envp, env, sp, top)
        && BytesAt(space.mem, sp, random) && sp + |random| <= top
      ensures SameOutside(old(space.mem), space.mem, lowerLimit, top)
      ensures AllShorter(args, lowerLimit) && AllShorter(env, lowerLimit) ==> !faulted
      ensures SomeLong(args, top) || SomeLong(env, top) ==> faulted
    {
      ghost var m := space.mem;
      argv := PushStrings(args, top);
      ghost var m1, at1 := space.mem, sp;
      envp := PushStrings(env, top - StringBytes(args));
      SameOutsideThen(m, m1, space.mem, lowerLimit, top, at1);
      ghost var m2, at2 := space.mem, sp;
      Push(random, top - StringBytes(args) - StringBytes(env));
      SameOutsideThen(m, m2, space.mem, lowerLimit, top, at2);
      if !overflow {
        StringsKept(m1, m2, lowerLimit, at1, argv, args, top);
        StringsKept(m2, space.mem, lowerLimit, at2, argv, args, top);
        StringsKept(m2, space.mem, lowerLimit, at2, envp, env, at1);
      }
    }

    method AlignSp(size: nat, ghost e: int)
      requires Valid() && Tracks(e) && lowerLimit <= sp
      modifies `sp
      ensures Valid() && Tracks(e - (e - size) % 16)
      ensures old(sp) - 15 <= sp <= old(sp)
    {
      sp := sp - (sp - size) % 16;
    }

    // Strings and random bytes, and sp adjusted so that its final value is 16-byte aligned.
    method PushAligned(args: seq<seq<byte>>, env: seq<seq<byte>>, random: seq<byte>)
      returns (argv: seq<nat>, envp: seq<nat>, atRandom: nat)
      requires Valid() && sp == top && !overflow && !faulted && |random| == 16
      modifies this, space`mem
      ensures Valid() && Tracks(FinalSp(top, args, env) + AUX_BYTES + PointerBytes(|args|, |env|))
      ensures |argv| == |args| && forall i :: 0 <= i < |argv| ==> argv[i] < TWO64
      ensures |envp| == |env| && forall i :: 0 <= i < |envp| ==> envp[i] < TWO64
      ensures !overflow ==>
        && StringsAt(space.mem, argv, args, atRandom, top) && StringsAt(space.mem, envp, env, atRandom, top)
        && BytesAt(space.mem, atRandom, random) && atRandom + |random| <= top
      ensures sp <= atRandom <= top && 0 < atRandom < TWO64
      ensures SameOutside(old(space.mem), space.mem, lowerLimit, top)
      ensures AllShorter(args, lowerLimit) && AllShorter(env, lowerLimit) ==> !faulted
      ensures SomeLong(args, top) || SomeLong(env, top) ==> faulted
    {
      argv, envp := PushContents(args, env, random);
      atRandom := sp;
      AlignSp(PointerBytes(|argv|, |envp|), top - StringBytes(args) - StringBytes(env) - 16);
    }

    // random: 16 bytes from getrandom().  The result is true exactly if everything fits in the
    // upper half of the stack, and then the initial stack is complete (see StartedReadsBack).
    method SetupCompartmentStack(args: seq<seq<byte>>, env: seq<seq<byte>>, random: seq<byte>, aux: AuxValues)
      returns (ok: bool)
      requires Valid() && sp == top && !overflow && !faulted && |random| == 16 && |args| < TWO64
      modifies this, space`mem
      ensures ok <==> lowerLimit <= FinalSp(top, args, env)
      ensures ok || (AllShorter(args, lowerLimit) && AllShorter(env, lowerLimit)) ==> !faulted
      ensures SomeLong(args, top) || SomeLong(env, top) ==> faulted
      ensures Valid() && (ok ==> sp == FinalSp(top, args, env))
      ensures ok ==> Started(space.mem, sp, top, args, env, random, aux)
      ensures SameOutside(old(space.mem), space.mem, lowerLimit, top)
    {
      ghost var m := space.mem;
      var argv, envp, atRandom := PushAligned(args, env, random);
      ghost var m3, at := space.mem, sp;
      PushTable(argv, envp, aux, atRandom, FinalSp(top, args, env) + AUX_BYTES + PointerBytes(|argv|, |envp|));
      SameOutsideThen(m, m3, space.mem, lowerLimit, top, at);
      ok := !overflow;
      if ok {
        SameOutsideWider(m3, space.mem, lowerLimit, at, lowerLimit, atRandom);
        CompleteStack(m3, space.mem, lowerLimit, sp, atRandom, top, argv, envp, args, env, random, aux);
      }
    }
  }

  // The initial stack is complete: its words start at sp, the strings and 16 random bytes for
  // AT_RANDOM lie above them.
  ghost predicate Started(m: Memory, sp: nat, top: nat, args: seq<seq<byte>>, env: seq<seq<byte>>,
                          random: seq<byte>, aux: AuxValues)
  {
    exists r: nat, argv: seq<nat>, envp: seq<nat> :: StartedAt(m, sp, top, args, env, random, aux, r, argv, envp)
  }

  ghost predicate StartedAt(m: Memory, sp: nat, top: nat, args: seq<seq<byte>>, env: seq<seq<byte>>,
                            random: seq<byte>, aux: AuxValues, r: nat, argv: seq<nat>, envp: seq<nat>)
  {
    && sp <= r && r + |random| <= top && BytesAt(m, r, random)
    && LaidOut(m, sp, r, top, argv, envp, Startup(args, Reverse(env), Auxv(aux, r)))
  }

  // There is a string with its NUL at the address that the word at a holds.
  ghost predicate PointsToString(m: Memory, a: nat, s: seq<byte>) {
    exists ptr: nat :: ReadWord(m, a) == Some(ptr) && BytesAt(m, ptr, s) && ByteIs(m, ptr + |s|, 0)
  }

  // Pointers to strings, and NULL.
  ghost predicate PointersAt(m: Memory, a: nat, ss: seq<seq<byte>>) {
    (forall i :: 0 <= i < |ss| ==> PointsToString(m, a + 8 * i, ss[i])) && ReadWord(m, a + 8 * |ss|) == Some(0)
  }

  // Pairs of words.
  ghost predicate PairsAt(m: Memory, a: nat, kinds: seq<nat>, values: seq<nat>)
    requires |kinds| == |values|
  {
    forall k :: 0 <= k < |kinds| ==>
      ReadWord(m, a + 16 * k) == Some(kinds[k]) && ReadWord(m, a + 16 * k + 8) == Some(values[k])
  }

  // The initial stack, word by word from SP up: argc, pointers to the arguments in order, NULL, pointers
  // to the environment in reverse order, NULL, and seven pairs of words.
  lemma StackWords(m: Memory, sp: nat, top: nat, args: seq<seq<byte>>, env: seq<seq<byte>>, random: seq<byte>,
                   aux: AuxValues) returns (r: nat, envAt: nat, auxAt: nat)
    requires Started(m, sp, top, args, env, random, aux)
    ensures BytesAt(m, r, random) && ReadWord(m, sp) == Some(|args|) && PointersAt(m, sp + 8, args)
    ensures envAt == sp + 16 + 8 * |args| && PointersAt(m, envAt, Reverse(env))
    ensures auxAt == sp + 24 + 8 * |args| + 8 * |env|
    ensures PairsAt(m, auxAt, [6, 3, 4, 5, 23, 25, 0], [aux.pagesz, aux.phdr, aux.phent, aux.phnum, 0, r, 0])
  {
    var r': nat, argv: seq<nat>, envp: seq<nat> :| StartedAt(m, sp, top, args, env, random, aux, r', argv, envp);
    r, envAt, auxAt := r', sp + 16 + 8 * |args|, sp + 24 + 8 * |args| + 8 * |env|;
    LaidOutWords(m, sp, r, top, argv, envp, Startup(args, Reverse(env), Auxv(aux, r)), envAt, auxAt);
    AuxvWords(m, auxAt, aux, r);
  }

  lemma LaidOutWords(m: Memory, sp: nat, lo: nat, end: nat, argv: seq<nat>, envp: seq<nat>, start: Startup,
                     envAt: nat, auxAt: nat)
    requires LaidOut(m, sp, lo, end, argv, envp, start)
    requires envAt == sp + 16 + 8 * |start.args| && auxAt == envAt + 8 + 8 * |start.env|
    ensures ReadWord(m, sp) == Some(|start.args|) && PointersAt(m, sp + 8, start.args)
    ensures PointersAt(m, envAt, start.env) && WordsAt(m, auxAt, AuxWords(start.auxv))
  {
    StartupParts(m, sp, argv, envp, start.auxv);
    VectorWords(m, sp + 8, argv, start.args, lo, end);
    VectorWords(m, envAt, envp, start.env, lo, end);
  }

  lemma VectorWords(m: Memory, a: nat, ptrs: seq<nat>, ss: seq<seq<byte>>, lo: nat, end: nat)
    requires WordsAt(m, a, ptrs + [0]) && StringsAt(m, ptrs, ss, lo, end)
    ensures PointersAt(m, a, ss)
  {
    assert (ptrs + [0])[|ptrs|] == 0;
    forall i | 0 <= i < |ss|
      ensures PointsToString(m, a + 8 * i, ss[i])
    {
      assert ReadWord(m, a + 8 * i) == Some((ptrs + [0])[i]);
      BytesSplit(m, ptrs[i], ss[i], [0]);
      assert ByteIs(m, ptrs[i] + |ss[i]| + 0, [0][0]);
    }
  }

  lemma AuxvWords(m: Memory, a: nat, aux: AuxValues, r: nat)
    requires WordsAt(m, a, AuxWords(Auxv(aux, r)))
    ensures PairsAt(m, a, [6, 3, 4, 5, 23, 25, 0], [aux.pagesz, aux.phdr, aux.phent, aux.phnum, 0, r, 0])
  {
    var es, kinds, values := Auxv(aux, r), [6, 3, 4, 5, 23, 25, 0],
        [aux.pagesz, aux.phdr, aux.phent, aux.phnum, 0, r, 0];
    AuxEntriesAt(m, a, es);
    assert forall k :: 0 <= k < 7 ==> es[k] == AuxEntry(kinds[k], values[k]);
  }

  // Whoever reads a complete initial stack finds what was passed, with environment variables in
  // reverse order and every string cut at its first NUL; so NUL-free strings come back exactly.
  lemma StartedReadsBack(m: Memory, sp: nat, top: nat, args: seq<seq<byte>>, env: seq<seq<byte>>,
                         random: seq<byte>, aux: AuxValues) returns (r: nat)
    requires Started(m, sp, top, args, env, random, aux)
    ensures sp <= r && r + |random| <= top && BytesAt(m, r, random)
    ensures ReadStartup(m, sp, top) == Some(Startup(CutAll(args), CutAll(Reverse(env)), Auxv(aux, r)))
    ensures (forall s :: s in args ==> 0 !in s) ==> CutAll(args) == args
  {
    var r': nat, argv: seq<nat>, envp: seq<nat> :| StartedAt(m, sp, top, args, env, random, aux, r', argv, envp);
    LaidOutReadsBack(m, sp, r', top, argv, envp, Startup(args, Reverse(env), Auxv(aux, r')));
    if forall s :: s in args ==> 0 !in s {
      CutAllNulFree(args);
    }
    r := r';
  }

  // It survives changes below sp.
  lemma StartedKept(m: Memory, m': Memory, lo: int, sp: nat, top: nat, args: seq<seq<byte>>, env: seq<seq<byte>>,
                    random: seq<byte>, aux: AuxValues)
    requires SameOutside(m, m', lo, sp) && Started(m, sp, top, args, env, random, aux)
    ensures Started(m', sp, top, args, env, random, aux)
  {
    var r: nat, argv: seq<nat>, envp: seq<nat> :| StartedAt(m, sp, top, args, env, random, aux, r, argv, envp);
    var start := Startup(args, Reverse(env), Auxv(aux, r));
    SameOutsideWider(m, m', lo, sp, lo, r);
    StringsKept(m, m', lo, r, argv, start.args, top);
    StringsKept(m, m', lo, r, envp, start.env, top);
    WordsKept(m, m', lo, sp, sp, StartupWords(argv, envp, start.auxv));
    BytesKept(m, m', lo, sp, r, random);
    assert StartedAt(m', sp, top, args, env, random, aux, r, argv, envp);
  }

  lemma CompleteLayout(m: Memory, m': Memory, low: int, sp: nat, strings: nat, top: nat, argv: seq<nat>, envp: seq<nat>,
                       args: seq<seq<byte>>, env: seq<seq<byte>>, aux: AuxValues)
    requires SameOutside(m, m', low, strings) && 0 < strings <= top
    requires StringsAt(m, argv, args, strings, top) && StringsAt(m, envp, env, strings, top)
    requires sp + AUX_BYTES + PointerBytes(|argv|, |envp|) <= strings
    requires WordsAt(m', sp, StartupWords(argv, Reverse(envp), Auxv(aux, strings)))
    ensures LaidOut(m', sp, strings, top, argv, Reverse(envp), Startup(args, Reverse(env), Auxv(aux, strings)))
  {
    StringsKept(m, m', low, strings, argv, args, top);
    StringsKept(m, m', low, strings, envp, env, top);
    StringsReversed(m', envp, env, strings, top);
  }

  lemma CompleteStack(m: Memory, m': Memory, low: int, sp: nat, strings: nat, top: nat, argv: seq<nat>, envp: seq<nat>,
                      args: seq<seq<byte>>, env: seq<seq<byte>>, random: seq<byte>, aux: AuxValues)
    requires SameOutside(m, m', low, strings) && 0 < strings <= top
    requires StringsAt(m, argv, args, strings, top) && StringsAt(m, envp, env, strings, top)
    requires BytesAt(m, strings, random) && strings + |random| <= top
    requires sp + AUX_BYTES + PointerBytes(|argv|, |envp|) <= strings
    requires WordsAt(m', sp, StartupWords(argv, Reverse(envp), Auxv(aux, strings)))
    ensures Started(m', sp, top, args, env, random, aux)
  {
    CompleteLayout(m, m', low, sp, strings, top, argv, envp, args, env, aux);
    BytesKept(m, m', low, strings, strings, random);
    assert StartedAt(m', sp, top, args, env, random, aux, strings, argv, Reverse(envp));
  }
}
