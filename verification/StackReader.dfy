/** How libc reads the initial stack of a process: argc, the argument pointers, NULL, the
    environment pointers, NULL, and the auxiliary vector up to AT_NULL.  This is the reference that
    SetupCompartmentStack (src/compartment-manager/compartment_manager.cpp) has to satisfy. */
module StackReader {
  import opened Wrappers
  import opened Words
  import opened AddressSpaces
  import opened MemoryWords

  const AT_NULL: nat := 0
  const AT_PHDR: nat := 3
  const AT_PHENT: nat := 4
  const AT_PHNUM: nat := 5
  const AT_PAGESZ: nat := 6
  const AT_SECURE: nat := 23
  const AT_RANDOM: nat := 25

  datatype AuxEntry = AuxEntry(kind: nat, value: nat)

  // What a program finds; auxv includes the final AT_NULL entry.
  datatype Startup = Startup(args: seq<seq<byte>>, env: seq<seq<byte>>, auxv: seq<AuxEntry>)

  // --- The reader ------------------------------------------------------------------------------

  // The NUL-terminated string at a; it has to end below end.
  function ReadString(m: Memory, a: nat, end: nat): Option<seq<byte>>
    decreases end - a
  {
    if a >= end || a !in m then None
    else if m[a].value == 0 then Some([])
    else
      match ReadString(m, a + 1, end)
      case None => None
      case Some(s) => Some([m[a].value] + s)
  }

  function ReadStrings(m: Memory, ptrs: seq<nat>, end: nat): Option<seq<seq<byte>>> {
    if ptrs == [] then Some([])
    else
      match (ReadString(m, ptrs[0], end), ReadStrings(m, ptrs[1..], end))
      case (Some(s), Some(rest)) => Some([s] + rest)
      case _ => None
  }

  // Words from a on up to a zero word, which is not included.
  function ReadVector(m: Memory, a: nat, end: nat): Option<seq<nat>>
    decreases end - a
  {
    if a >= end then None
    else
      match ReadWord(m, a)
      case None => None
      case Some(w) =>
        if w == 0 then Some([])
        else
          match ReadVector(m, a + 8, end)
          case None => None
          case Some(ws) => Some([w] + ws)
  }

  function ReadAuxv(m: Memory, a: nat, end: nat): Option<seq<AuxEntry>>
    decreases end - a
  {
    if a >= end then None
    else
      match (ReadWord(m, a), ReadWord(m, a + 8))
      case (Some(kind), Some(value)) =>
        if kind == AT_NULL then Some([AuxEntry(kind, value)])
        else (
          match ReadAuxv(m, a + 16, end)
          case None => None
          case Some(rest) => Some([AuxEntry(kind, value)] + rest))
      case _ => None
  }

  // Everything from sp up; argc must agree with the NULL that ends argv.
  function ReadStartup(m: Memory, sp: nat, end: nat): Option<Startup> {
    var argc, argv := ReadWord(m, sp), ReadVector(m, sp + 8, end);
    if argc.None? || argv.None? || argc.value != |argv.value| then None
    else ReadAfterArgv(m, argv.value, sp + 8 * (|argv.value| + 2), end)
  }

  function ReadAfterArgv(m: Memory, argv: seq<nat>, a: nat, end: nat): Option<Startup> {
    var envp := ReadVector(m, a, end);
    if envp.None? then None
    else
      var args, env := ReadStrings(m, argv, end), ReadStrings(m, envp.value, end);
      var auxv := ReadAuxv(m, a + 8 * (|envp.value| + 1), end);
      if args.None? || env.None? || auxv.None? then None
      else Some(Startup(args.value, env.value, auxv.value))
  }

  // getauxval(): the value of the first entry of the kind, or 0.
  function GetAuxval(auxv: seq<AuxEntry>, kind: nat): nat {
    if auxv == [] then 0
    else if auxv[0].kind == kind then auxv[0].value
    else GetAuxval(auxv[1..], kind)
  }

  lemma {:induction false} FirstOfKind(auxv: seq<AuxEntry>, k: nat)
    requires k < |auxv| && forall j :: 0 <= j < k ==> auxv[j].kind != auxv[k].kind
    ensures GetAuxval(auxv, auxv[k].kind) == auxv[k].value
  {
    if k > 0 {
      FirstOfKind(auxv[1..], k - 1);
    }
  }

  // --- What the reader makes of memory with known contents -------------------------------------

  // A C string ends at its first NUL.
  function Cut(s: seq<byte>): seq<byte> {
    if s == [] || s[0] == 0 then [] else [s[0]] + Cut(s[1..])
  }

  function CutAll(ss: seq<seq<byte>>): (r: seq<seq<byte>>)
    ensures |r| == |ss|
  {
    if ss == [] then [] else [Cut(ss[0])] + CutAll(ss[1..])
  }

  // Exactly the NUL-free strings survive being passed as C strings.
  lemma {:induction false} CutExact(s: seq<byte>)
    ensures Cut(s) == s <==> 0 !in s
    ensures |Cut(s)| <= |s|
  {
    if s != [] {
      CutExact(s[1..]);
      assert s == [s[0]] + s[1..];
      if s[0] != 0 && Cut(s) == s {
        assert Cut(s)[1..] == Cut(s[1..]);
      }
    }
  }

  lemma {:induction false} CutAllNulFree(ss: seq<seq<byte>>)
    requires forall s :: s in ss ==> 0 !in s
    ensures CutAll(ss) == ss
  {
    if ss != [] {
      CutExact(ss[0]);
      CutAllNulFree(ss[1..]);
    }
  }

  lemma {:induction false} ReadStringAt(m: Memory, a: nat, s: seq<byte>, end: nat)
    requires BytesAt(m, a, s + [0]) && a + |s| < end
    ensures ReadString(m, a, end) == Some(Cut(s))
    decreases |s|
  {
    BytesTail(m, a, s + [0]);
    if s != [] && s[0] != 0 {
      assert (s + [0])[1..] == s[1..] + [0];
      ReadStringAt(m, a + 1, s[1..], end);
    }
  }

  // ptrs point to the strings, NUL-terminated, between lo and end.
  predicate StringsAt(m: Memory, ptrs: seq<nat>, ss: seq<seq<byte>>, lo: nat, end: nat) {
    && |ptrs| == |ss|
    && forall i :: 0 <= i < |ptrs| ==> lo <= ptrs[i] && ptrs[i] + |ss[i]| < end && BytesAt(m, ptrs[i], ss[i] + [0])
  }

  lemma {:induction false} ReadStringsAt(m: Memory, ptrs: seq<nat>, ss: seq<seq<byte>>, lo: nat, end: nat)
    requires StringsAt(m, ptrs, ss, lo, end)
    ensures ReadStrings(m, ptrs, end) == Some(CutAll(ss))
  {
    if ptrs != [] {
      ReadStringAt(m, ptrs[0], ss[0], end);
      ReadStringsAt(m, ptrs[1..], ss[1..], lo, end);
    }
  }

  lemma {:induction false} ReadVectorAt(m: Memory, a: nat, ws: seq<nat>, end: nat)
    requires WordsAt(m, a, ws + [0]) && a + 8 * |ws| < end
    requires forall i :: 0 <= i < |ws| ==> 0 < ws[i]
    ensures ReadVector(m, a, end) == Some(ws)
    decreases |ws|
  {
    var all := ws + [0];
    assert ReadWord(m, a + 8 * 0) == Some(all[0]);
    if ws != [] {
      WordsTail(m, a, all, 1);
      assert all[1..] == ws[1..] + [0];
      ReadVectorAt(m, a + 8, ws[1..], end);
      assert ws == [ws[0]] + ws[1..];
    }
  }

  lemma WordsTail(m: Memory, a: nat, ws: seq<nat>, n: nat)
    requires WordsAt(m, a, ws) && n <= |ws|
    ensures WordsAt(m, a + 8 * n, ws[n..]) && WordsAt(m, a, ws[..n])
  {
    forall i | 0 <= i < |ws| - n
      ensures ReadWord(m, a + 8 * n + 8 * i) == Some(ws[n..][i])
    {
      assert ReadWord(m, a + 8 * (n + i)) == Some(ws[n + i]);
    }
  }

  function AuxWords(es: seq<AuxEntry>): (ws: seq<nat>)
    ensures |ws| == 2 * |es|
  {
    if es == [] then [] else [es[0].kind, es[0].value] + AuxWords(es[1..])
  }

  // Entries of kinds other than AT_NULL, and one AT_NULL at the end.
  predicate WellFormedAuxv(es: seq<AuxEntry>) {
    && es != [] && es[|es| - 1].kind == AT_NULL
    && forall i :: 0 <= i < |es| - 1 ==> es[i].kind != AT_NULL
  }

  lemma AuxEntryAt(m: Memory, a: nat, es: seq<AuxEntry>)
    requires es != [] && WordsAt(m, a, AuxWords(es))
    ensures ReadWord(m, a) == Some(es[0].kind) && ReadWord(m, a + 8) == Some(es[0].value)
    ensures WordsAt(m, a + 16, AuxWords(es[1..]))
  {
    var ws := AuxWords(es);
    assert ws == [es[0].kind, es[0].value] + AuxWords(es[1..]);
    assert ReadWord(m, a + 8 * 0) == Some(ws[0]) && ReadWord(m, a + 8 * 1) == Some(ws[1]);
    WordsTail(m, a, ws, 2);
    assert ws[2..] == AuxWords(es[1..]);
  }

  lemma {:induction false} AuxEntriesAt(m: Memory, a: nat, es: seq<AuxEntry>)
    requires WordsAt(m, a, AuxWords(es))
    ensures forall k :: 0 <= k < |es| ==>
      ReadWord(m, a + 16 * k) == Some(es[k].kind) && ReadWord(m, a + 16 * k + 8) == Some(es[k].value)
    decreases |es|
  {
    if es != [] {
      AuxEntryAt(m, a, es);
      AuxEntriesAt(m, a + 16, es[1..]);
      forall k | 0 <= k < |es|
        ensures ReadWord(m, a + 16 * k) == Some(es[k].kind) && ReadWord(m, a + 16 * k + 8) == Some(es[k].value)
      {
        if k > 0 {
          assert ReadWord(m, a + 16 + 16 * (k - 1)) == Some(es[1..][k - 1].kind);
        }
      }
    }
  }

  lemma {:induction false} ReadAuxvAt(m: Memory, a: nat, es: seq<AuxEntry>, end: nat)
    requires WellFormedAuxv(es) && WordsAt(m, a, AuxWords(es)) && a + 16 * |es| <= end
    ensures ReadAuxv(m, a, end) == Some(es)
    decreases |es|
  {
    AuxEntryAt(m, a, es);
    if |es| > 1 {
      ReadAuxvAt(m, a + 16, es[1..], end);
      assert es == [es[0]] + es[1..];
    } else {
      assert es == [es[0]];
    }
  }

  // The words between sp and the strings, as a list.
  function StartupWords(argv: seq<nat>, envp: seq<nat>, auxv: seq<AuxEntry>): seq<nat> {
    [|argv|] + (argv + [0]) + (envp + [0]) + AuxWords(auxv)
  }

  lemma WordsSplit(m: Memory, a: nat, x: seq<nat>, y: seq<nat>)
    requires WordsAt(m, a, x + y)
    ensures WordsAt(m, a, x) && WordsAt(m, a + 8 * |x|, y)
  {
    WordsTail(m, a, x + y, |x|);
    assert (x + y)[..|x|] == x && (x + y)[|x|..] == y;
  }

  lemma StartupParts(m: Memory, sp: nat, argv: seq<nat>, envp: seq<nat>, auxv: seq<AuxEntry>)
    requires WordsAt(m, sp, StartupWords(argv, envp, auxv))
    ensures ReadWord(m, sp) == Some(|argv|) && WordsAt(m, sp + 8, argv + [0])
    ensures WordsAt(m, sp + 8 * (|argv| + 2), envp + [0])
    ensures WordsAt(m, sp + 8 * (|argv| + 2) + 8 * (|envp| + 1), AuxWords(auxv))
  {
    WordsSplit(m, sp, [|argv|] + (argv + [0]) + (envp + [0]), AuxWords(auxv));
    WordsSplit(m, sp, [|argv|] + (argv + [0]), envp + [0]);
    WordsSplit(m, sp, [|argv|], argv + [0]);
    assert ReadWord(m, sp + 8 * 0) == Some([|argv|][0]);
  }

  // A complete initial stack: the words from sp up, below the strings, which lie in [lo, end).
  ghost predicate LaidOut(m: Memory, sp: nat, lo: nat, end: nat, argv: seq<nat>, envp: seq<nat>, start: Startup) {
    && WordsAt(m, sp, StartupWords(argv, envp, start.auxv))
    && sp + 8 * (|argv| + |envp| + 3) + 16 * |start.auxv| <= lo <= end && 0 < lo
    && WellFormedAuxv(start.auxv)
    && StringsAt(m, argv, start.args, lo, end) && StringsAt(m, envp, start.env, lo, end)
  }

  lemma LaidOutArgv(m: Memory, sp: nat, lo: nat, end: nat, argv: seq<nat>, envp: seq<nat>, start: Startup)
    requires LaidOut(m, sp, lo, end, argv, envp, start)
    ensures ReadWord(m, sp) == Some(|argv|) && ReadVector(m, sp + 8, end) == Some(argv)
    ensures ReadStrings(m, argv, end) == Some(CutAll(start.args))
  {
    StartupParts(m, sp, argv, envp, start.auxv);
    ReadVectorAt(m, sp + 8, argv, end);
    ReadStringsAt(m, argv, start.args, lo, end);
  }

  // The environment's pointers start at a.
  lemma LaidOutEnvp(m: Memory, sp: nat, lo: nat, end: nat, argv: seq<nat>, envp: seq<nat>, start: Startup, a: nat)
    requires LaidOut(m, sp, lo, end, argv, envp, start) && a == sp + 8 * (|argv| + 2)
    ensures ReadVector(m, a, end) == Some(envp)
    ensures ReadStrings(m, envp, end) == Some(CutAll(start.env))
  {
    StartupParts(m, sp, argv, envp, start.auxv);
    ReadVectorAt(m, a, envp, end);
    ReadStringsAt(m, envp, start.env, lo, end);
  }

  lemma LaidOutAuxv(m: Memory, sp: nat, lo: nat, end: nat, argv: seq<nat>, envp: seq<nat>, start: Startup, a: nat)
    requires LaidOut(m, sp, lo, end, argv, envp, start) && a == sp + 8 * (|argv| + 2)
    ensures ReadAuxv(m, a + 8 * (|envp| + 1), end) == Some(start.auxv)
  {
    StartupParts(m, sp, argv, envp, start.auxv);
    ReadAuxvAt(m, a + 8 * (|envp| + 1), start.auxv, end);
  }

  lemma StartupFrom(m: Memory, sp: nat, end: nat, argv: seq<nat>)
    requires ReadWord(m, sp) == Some(|argv|) && ReadVector(m, sp + 8, end) == Some(argv)
    ensures ReadStartup(m, sp, end) == ReadAfterArgv(m, argv, sp + 8 * (|argv| + 2), end)
  {
  }

  lemma AfterArgvFrom(m: Memory, argv: seq<nat>, a: nat, end: nat, envp: seq<nat>, start: Startup)
    requires ReadVector(m, a, end) == Some(envp)
    requires ReadStrings(m, argv, end) == Some(start.args) && ReadStrings(m, envp, end) == Some(start.env)
    requires ReadAuxv(m, a + 8 * (|envp| + 1), end) == Some(start.auxv)
    ensures ReadAfterArgv(m, argv, a, end) == Some(start)
  {
  }

  // What was laid out is what is read, up to NULs inside strings.
  lemma LaidOutReadsBack(m: Memory, sp: nat, lo: nat, end: nat, argv: seq<nat>, envp: seq<nat>, start: Startup)
    requires LaidOut(m, sp, lo, end, argv, envp, start)
    ensures ReadStartup(m, sp, end) == Some(start.(args := CutAll(start.args), env := CutAll(start.env)))
  {
    LaidOutArgv(m, sp, lo, end, argv, envp, start);
    LaidOutAfterArgv(m, sp, lo, end, argv, envp, start);
    StartupFrom(m, sp, end, argv);
  }

  lemma LaidOutAfterArgv(m: Memory, sp: nat, lo: nat, end: nat, argv: seq<nat>, envp: seq<nat>, start: Startup)
    requires LaidOut(m, sp, lo, end, argv, envp, start)
    requires ReadStrings(m, argv, end) == Some(CutAll(start.args))
    ensures ReadAfterArgv(m, argv, sp + 8 * (|argv| + 2), end) ==
            Some(start.(args := CutAll(start.args), env := CutAll(start.env)))
  {
    var a, read := sp + 8 * (|argv| + 2), Startup(CutAll(start.args), CutAll(start.env), start.auxv);
    LaidOutEnvp(m, sp, lo, end, argv, envp, start, a);
    LaidOutAuxv(m, sp, lo, end, argv, envp, start, a);
    AfterArgvFrom(m, argv, a, end, envp, read);
  }
}
