/** Runs of the whole system through the switcher: arbitrarily nested calls and returns, arbitrary
    computation by compartments in between, and the compartment manager adding compartments when no
    compartment is live (src/compartment-manager/compartment_manager_asm.S and
    src/compartment-manager/compartment_manager.cpp, CompartmentAdd).

    Compartments run in Restricted: they cannot touch the Executive stack pointer, the manager's
    stack or its descriptor table, and they enter the manager only at its two entry points. */
module SwitchRuns {
  import opened Wrappers
  import opened Words
  import opened Capabilities
  import opened Switcher

  datatype Phase = Idle | Initializing(id: nat)

  // depth is the number of calls that have not returned.
  datatype Config = Config(s: State, depth: nat, phase: Phase)

  datatype Event =
    | Call
    | Return
    | Compute                                    // the running compartment computes
    | Manage                                     // the manager runs code of its own
    | BeginAdd(id: nat, desc: Compartment)       // CompartmentAdd installs a descriptor to initialize
    | FinishAdd(id: nat, entry: Cap)             // CompartmentAdd finalizes the descriptor

  // What compartment code cannot change.
  ghost predicate Confined(s: State, s': State) {
    s'.sp == s.sp && s'.stack == s.stack && s'.table == s.table
  }

  ghost predicate Step(l: Layout, c: Config, e: Event, c': Config) {
    match e
    case Call =>
      // A compartment under initialization has not been given the call entry point yet, and the
      // manager calls only that compartment then.
      && (c.phase.Initializing? ==> c.depth == 0 && CallTarget(l, c.s) == To(c.phase.id))
      && Switched(l, c.s) == Running(c'.s) && c'.depth == c.depth + 1 && c'.phase == c.phase
    case Return =>
      && c.depth > 0
      && Returned(l, c.s) == Running(c'.s) && c'.depth == c.depth - 1 && c'.phase == c.phase
    case Compute =>
      c.depth > 0 && Confined(c.s, c'.s) && c'.depth == c.depth && c'.phase == c.phase
    case Manage =>
      c.depth == 0 && c'.s.table == c.s.table && c'.depth == 0 && c'.phase == c.phase
    case BeginAdd(id, desc) =>
      && c.depth == 0 && c.phase == Idle && id < MAX_COMPARTMENTS && desc.updateOnReturn
      && c' == Config(c.s.(table := c.s.table[id := desc]), 0, Initializing(id))
    case FinishAdd(id, entry) =>
      && c.depth == 0 && c.phase == Initializing(id) && id < MAX_COMPARTMENTS
      && var desc := c.s.table[id].(entryPoint := entry, updateOnReturn := false);
         c' == Config(c.s.(table := c.s.table[id := desc]), 0, Idle)
  }

  // The system starts in the manager, with no compartment being added.
  ghost predicate Initial(c: Config) {
    c.depth == 0 && c.phase == Idle && forall k :: 0 <= k < MAX_COMPARTMENTS ==> !c.s.table[k].updateOnReturn
  }

  ghost predicate Run(l: Layout, cs: seq<Config>, es: seq<Event>) {
    && l.Valid()
    && |cs| == |es| + 1
    && Initial(cs[0])
    && forall n {:trigger StepAt(l, cs, es, n)} :: 0 <= n < |es| ==> StepAt(l, cs, es, n)
  }

  ghost predicate StepAt(l: Layout, cs: seq<Config>, es: seq<Event>, n: nat)
    requires n < |es| && |cs| == |es| + 1
  {
    Step(l, cs[n], es[n], cs[n + 1])
  }

  // --- The abstract stack ----------------------------------------------------------------------

  datatype Frame = Frame(at: int, ctx: Context)

  // The contexts of the live calls after n events, outermost first.
  ghost function Frames(l: Layout, cs: seq<Config>, es: seq<Event>, n: nat): seq<Frame>
    requires n <= |es| < |cs|
  {
    if n == 0 then [] else NextFrames(l, cs[n - 1].s, es[n - 1], Frames(l, cs, es, n - 1))
  }

  ghost function NextFrames(l: Layout, s: State, e: Event, fs: seq<Frame>): seq<Frame> {
    match e
    case Call => fs + [NewFrame(l, s)]
    case Return => if fs == [] then [] else fs[..|fs| - 1]
    case _ => fs
  }

  ghost function NewFrame(l: Layout, s: State): Frame {
    Frame(s.sp - FRAME_SIZE,
          match CallTarget(l, s)
          case To(id) => CallContext(l, s, id)
          case _ => Context(s.rcsp, s.rddc, s.rctpidr, s.regs[CLR], s.regs[FP].addr, 0))
  }

  // The 96-byte frames in memory are the abstract stack, one below the other.
  ghost predicate Refines(s: State, fs: seq<Frame>) {
    && (forall k :: 0 <= k < |fs| ==> FrameAt(s.stack, fs[k].at) == fs[k].ctx)
    && (forall k :: 0 <= k < |fs| ==> fs[k].at == fs[0].at - FRAME_SIZE * k)
    && (fs != [] ==> s.sp == fs[|fs| - 1].at && fs[0].at + FRAME_SIZE < TWO64)
  }

  lemma FrameReadsBack(stack: Stack, sp: int, ctx: Context)
    ensures FrameAt(WithFrame(stack, sp, ctx), sp) == ctx
  {
  }

  lemma FrameKeepsHigher(stack: Stack, sp: int, ctx: Context, at: int)
    requires sp + FRAME_SIZE <= at
    ensures FrameAt(WithFrame(stack, sp, ctx), at) == FrameAt(stack, at)
  {
  }

  lemma PushRefines(l: Layout, s: State, s': State, fs: seq<Frame>)
    requires Switched(l, s) == Running(s') && Refines(s, fs)
    ensures Refines(s', fs + [NewFrame(l, s)])
  {
    var top := NewFrame(l, s);
    var id := CallTarget(l, s).id;
    FrameReadsBack(s.stack, top.at, top.ctx);
    var fs' := fs + [top];
    forall k | 0 <= k < |fs'|
      ensures FrameAt(s'.stack, fs'[k].at) == fs'[k].ctx && fs'[k].at == fs'[0].at - FRAME_SIZE * k
    {
      if k < |fs| {
        FrameKeepsHigher(s.stack, top.at, top.ctx, fs[k].at);
      }
    }
  }

  lemma PopRefines(l: Layout, s: State, s': State, fs: seq<Frame>)
    requires fs != [] && Returned(l, s) == Running(s') && Refines(s, fs)
    ensures Refines(s', fs[..|fs| - 1])
  {
  }

  lemma {:induction false} RunRefines(l: Layout, cs: seq<Config>, es: seq<Event>, n: nat)
    requires Run(l, cs, es) && n <= |es|
    ensures |Frames(l, cs, es, n)| == cs[n].depth
    ensures Refines(cs[n].s, Frames(l, cs, es, n))
  {
    if n > 0 {
      RunRefines(l, cs, es, n - 1);
      assert StepAt(l, cs, es, n - 1);
      StepRefines(l, cs[n - 1], es[n - 1], cs[n], Frames(l, cs, es, n - 1));
    }
  }

  lemma StepRefines(l: Layout, c: Config, e: Event, c': Config, fs: seq<Frame>)
    requires Step(l, c, e, c') && |fs| == c.depth && Refines(c.s, fs)
    ensures |NextFrames(l, c.s, e, fs)| == c'.depth
    ensures Refines(c'.s, NextFrames(l, c.s, e, fs))
  {
    match e
    case Call => PushRefines(l, c.s, c'.s, fs);
    case Return => PopRefines(l, c.s, c'.s, fs);
    case _ =>
  }

  // --- Calls and their returns -----------------------------------------------------------------

  // Event j is the return of the call that is event i.
  ghost predicate Matching(l: Layout, cs: seq<Config>, es: seq<Event>, i: nat, j: nat) {
    && Run(l, cs, es) && i < j < |es|
    && es[i] == Call && es[j] == Return
    && cs[j + 1].depth == cs[i].depth
    && forall k :: i < k <= j ==> cs[k].depth > cs[i].depth
  }

  // The caller in state s gets its context back in s', with only c0 from the callee in state t.
  ghost predicate Resumed(s: State, t: State, s': State) {
    && s'.rcsp == s.rcsp && s'.rddc == s.rddc && s'.rctpidr == s.rctpidr
    && s'.sp == s.sp && s'.pcc == s.regs[CLR]
    && s'.regs[CLR] == s.regs[CLR] && s'.regs[FP] == IntCap(s.regs[FP].addr)
    && s'.regs[0] == t.regs[0]
    && forall r :: 0 < r < FP ==> s'.regs[r] == NULL_CAP
  }

  lemma StepDepth(l: Layout, c: Config, e: Event, c': Config)
    requires Step(l, c, e, c')
    ensures c'.depth == if e.Call? then c.depth + 1 else if e.Return? then c.depth - 1 else c.depth
  {
  }

  lemma {:induction false} FramesDepth(l: Layout, cs: seq<Config>, es: seq<Event>, n: nat)
    requires Run(l, cs, es) && n <= |es|
    ensures |Frames(l, cs, es, n)| == cs[n].depth
  {
    if n > 0 {
      FramesDepth(l, cs, es, n - 1);
      assert StepAt(l, cs, es, n - 1);
      StepDepth(l, cs[n - 1], es[n - 1], cs[n]);
    }
  }

  // While the call of event i is live, its frame and those below it stay.
  lemma {:induction false} FramesKept(l: Layout, cs: seq<Config>, es: seq<Event>, i: nat, k: nat)
    requires Run(l, cs, es) && i < k <= |es| && es[i] == Call
    requires forall m :: i < m <= k ==> cs[m].depth > cs[i].depth
    ensures Frames(l, cs, es, i + 1) <= Frames(l, cs, es, k)
    decreases k
  {
    if k > i + 1 {
      FramesKept(l, cs, es, i, k - 1);
      FramesDepth(l, cs, es, i + 1);
      FramesDepth(l, cs, es, k);
      assert StepAt(l, cs, es, i);
      StepDepth(l, cs[i], es[i], cs[i + 1]);
    }
  }

  lemma ReturnRestores(l: Layout, s: State, t: State, s': State, fs: seq<Frame>)
    requires Switched(l, s).Running? && Returned(l, t) == Running(s')
    requires fs != [] && fs[|fs| - 1] == NewFrame(l, s) && Refines(t, fs)
    ensures Resumed(s, t, s')
  {
    var id := CallTarget(l, s).id;
    var ctx := CallContext(l, s, id);
    assert FrameAt(t.stack, t.sp) == ctx;
    assert s'.regs == ReturnRegisters(t.regs, ctx.fp, ctx.clr);
  }

  lemma CallReturn(l: Layout, cs: seq<Config>, es: seq<Event>, i: nat, j: nat)
    requires Matching(l, cs, es, i, j)
    ensures Resumed(cs[i].s, cs[j].s, cs[j + 1].s)
  {
    FramesKept(l, cs, es, i, j);
    FramesDepth(l, cs, es, i);
    FramesDepth(l, cs, es, i + 1);
    RunRefines(l, cs, es, j);
    assert StepAt(l, cs, es, i) && StepAt(l, cs, es, j);
    StepDepth(l, cs[i], es[i], cs[i + 1]);
    StepDepth(l, cs[j], es[j], cs[j + 1]);
    var fs := Frames(l, cs, es, j);
    assert fs == Frames(l, cs, es, i + 1);
    ReturnRestores(l, cs[i].s, cs[j].s, cs[j + 1].s, fs);
  }

  // The callee receives the six arguments in c0 to c5, its own entry capability in c24 and a frame
  // pointer without a tag, and no other register holds anything of the caller's.
  lemma CalleeSees(l: Layout, s: State, s': State, id: nat, args: seq<Cap>)
    requires Switched(l, s) == Running(s') && CallTarget(l, s) == To(id)
    requires |args| == 6 && forall i :: 0 <= i < 6 ==> s.regs[i + 1] == args[i]
    ensures forall i :: 0 <= i < 6 ==> s'.regs[i] == args[i]
    ensures s'.regs[24] == s'.pcc == s.table[id].entryPoint && !s'.regs[FP].tag
    ensures forall r :: 6 <= r < 31 && r != 24 && r != FP ==> !s'.regs[r].tag && s'.regs[r].addr == 0
    ensures s'.rcsp == s.table[id].csp && s'.rddc == s.table[id].ddc && s'.rctpidr == s.table[id].ctpidr
    ensures s'.table == s.table
  {
    var r := CalleeRegisters(s.regs, s.table[id].entryPoint, Add64(s'.sp, COMPARTMENT_SIZE));
    assert s'.regs == r && r[FP] == IntCap(Add64(s'.sp, COMPARTMENT_SIZE));
    assert forall i :: 6 <= i < 31 && i != 24 && i != FP ==> r[i] == NULL_CAP;
  }

  // --- The life cycle of a descriptor ----------------------------------------------------------

  // Only the descriptor under initialization asks to be updated, and a descriptor pointer is saved
  // only in the single frame of that initialization.
  ghost predicate Guarded(l: Layout, c: Config, fs: seq<Frame>) {
    && (forall k :: 0 <= k < MAX_COMPARTMENTS && c.s.table[k].updateOnReturn ==> c.phase == Initializing(k))
    && (c.phase == Idle ==> forall k :: 0 <= k < |fs| ==> fs[k].ctx.desc == 0)
    && (c.phase.Initializing? ==>
          && c.phase.id < MAX_COMPARTMENTS && c.s.table[c.phase.id].updateOnReturn
          && |fs| <= 1
          && forall k :: 0 <= k < |fs| ==> fs[k].ctx.desc == l.DescAddress(c.phase.id))
  }

  lemma StepGuarded(l: Layout, c: Config, e: Event, c': Config, fs: seq<Frame>)
    requires l.Valid() && Step(l, c, e, c') && |fs| == c.depth && Refines(c.s, fs) && Guarded(l, c, fs)
    ensures Guarded(l, c', NextFrames(l, c.s, e, fs))
  {
    match e
    case Return =>
      assert FrameAt(c.s.stack, c.s.sp) == fs[|fs| - 1].ctx;
      if c.phase.Initializing? {
        l.DescIndexExact(l.DescAddress(c.phase.id), c.phase.id);
      }
    case _ =>
  }

  lemma {:induction false} RunGuarded(l: Layout, cs: seq<Config>, es: seq<Event>, n: nat)
    requires Run(l, cs, es) && n <= |es|
    ensures Guarded(l, cs[n], Frames(l, cs, es, n))
  {
    if n > 0 {
      RunGuarded(l, cs, es, n - 1);
      RunRefines(l, cs, es, n - 1);
      assert StepAt(l, cs, es, n - 1);
      StepGuarded(l, cs[n - 1], es[n - 1], cs[n], Frames(l, cs, es, n - 1));
    }
  }

  // In memory, too: a frame with a descriptor pointer is the only frame, during an initialization,
  // and points to the descriptor being initialized.
  lemma SavedPointerOnlyInInitialization(l: Layout, cs: seq<Config>, es: seq<Event>, n: nat, k: nat)
    requires Run(l, cs, es) && n <= |es| && k < cs[n].depth
    ensures var at := cs[n].s.sp + FRAME_SIZE * (cs[n].depth - 1 - k);
      var saved := FrameAt(cs[n].s.stack, at).desc;
      && (cs[n].phase == Idle ==> saved == 0)
      && (cs[n].phase.Initializing? ==> cs[n].depth == 1 && saved == l.DescAddress(cs[n].phase.id) != 0)
  {
    RunRefines(l, cs, es, n);
    RunGuarded(l, cs, es, n);
    var fs := Frames(l, cs, es, n);
    assert fs[k].at == fs[0].at - FRAME_SIZE * k && fs[|fs| - 1].at == fs[0].at - FRAME_SIZE * (|fs| - 1);
  }

  // A return never goes through a wild descriptor pointer; it rewrites the descriptor that is being
  // initialized with the Restricted bank of that moment, and otherwise nothing.
  lemma ReturnEffect(l: Layout, cs: seq<Config>, es: seq<Event>, n: nat)
    requires Run(l, cs, es) && n <= |es| && cs[n].depth > 0
    ensures var s := cs[n].s;
      && Returned(l, s).Running?
      && (cs[n].phase == Idle ==> Returned(l, s).s.table == s.table)
      && (cs[n].phase.Initializing? ==>
            var id := cs[n].phase.id;
            && id < MAX_COMPARTMENTS
            && Returned(l, s).s.table ==
               s.table[id := s.table[id].(csp := s.rcsp, ddc := s.rddc, ctpidr := s.rctpidr)])
  {
    RunRefines(l, cs, es, n);
    RunGuarded(l, cs, es, n);
    var fs := Frames(l, cs, es, n);
    assert FrameAt(cs[n].s.stack, cs[n].s.sp) == fs[|fs| - 1].ctx;
    if cs[n].phase.Initializing? {
      l.DescIndexExact(l.DescAddress(cs[n].phase.id), cs[n].phase.id);
    }
  }

  // Outside its own CompartmentAdd, a descriptor never changes: not through any later call or
  // return, and not while other compartments are added.
  lemma {:induction false} DescriptorFixed(l: Layout, cs: seq<Config>, es: seq<Event>, id: nat, n: nat, m: nat)
    requires Run(l, cs, es) && n <= m <= |es| && id < MAX_COMPARTMENTS
    requires cs[n].phase != Initializing(id)
    requires forall k :: n <= k < m && es[k].BeginAdd? ==> es[k].id != id
    ensures cs[m].s.table[id] == cs[n].s.table[id] && cs[m].phase != Initializing(id)
    decreases m
  {
    if n < m {
      DescriptorFixed(l, cs, es, id, n, m - 1);
      assert StepAt(l, cs, es, m - 1);
      if es[m - 1].Return? {
        ReturnEffect(l, cs, es, m - 1);
      }
    }
  }

  // A call of a compartment under initialization, and its return from any state that compartment
  // code can reach: the caller resumes, and the descriptor captures the Restricted bank.
  lemma InitializationCaptures(l: Layout, s: State, id: nat, t: State)
    requires l.Valid() && id < MAX_COMPARTMENTS && CallTarget(l, s) == To(id) && s.table[id].updateOnReturn
    requires FRAME_SIZE <= s.sp && Confined(SwitchedTo(l, s, id), t)
    ensures Returned(l, t).Running? && Resumed(s, t, Returned(l, t).s)
    ensures Returned(l, t).s.table ==
            s.table[id := s.table[id].(csp := t.rcsp, ddc := t.rddc, ctpidr := t.rctpidr)]
  {
    var top := NewFrame(l, s);
    FrameReadsBack(s.stack, top.at, top.ctx);
    l.DescIndexExact(l.DescAddress(id), id);
    assert FrameAt(t.stack, t.sp) == top.ctx;
    assert Refines(t, [top]);
    ReturnRestores(l, s, t, Returned(l, t).s, [top]);
  }

  // --- The compartment ID check ----------------------------------------------------------------

  // The comparison is signed, so ids from 2^63 on pass it.  Such an id reaches the descriptor of
  // id mod 2^60 if that is a compartment, because 80 * 2^60 is a multiple of 2^64, and memory
  // outside the table otherwise.
  lemma IdCheckExact(l: Layout, id: u64)
    requires l.Valid()
    ensures PassesIdCheck(id) <==> id < MAX_COMPARTMENTS || id >= TWO64 / 2
    ensures l.DescIndex(l.DescAddress(id)) ==
            var k := id % ID_PERIOD; if k < MAX_COMPARTMENTS then Some(k) else None
  {
    var k := id % ID_PERIOD;
    AddressPeriodic(l, k, id / ID_PERIOD);
    if k < MAX_COMPARTMENTS {
      l.DescIndexExact(l.DescAddress(k), k);
    } else {
      var at := l.DescIndex(l.DescAddress(k));
      if at.Some? {
        AddressDistinct(l, k, at.value);
      }
    }
  }

  const ID_PERIOD: nat := 0x1000_0000_0000_0000

  lemma AddressPeriodic(l: Layout, k: nat, q: nat)
    ensures l.DescAddress(ID_PERIOD * q + k) == l.DescAddress(k)
  {
    var x := l.tableBase + COMPARTMENT_SIZE * k;
    SameRemainder(x + TWO64 * (5 * q), TWO64, x / TWO64 + 5 * q, x % TWO64);
    assert l.tableBase + COMPARTMENT_SIZE * (ID_PERIOD * q + k) == x + TWO64 * (5 * q);
  }

  lemma AddressDistinct(l: Layout, k: nat, j: nat)
    requires l.Valid() && j < MAX_COMPARTMENTS <= k < ID_PERIOD
    ensures l.DescAddress(k) != l.tableBase + COMPARTMENT_SIZE * j
  {
    var x := l.tableBase + COMPARTMENT_SIZE * k;
    var w := x / TWO64;
    assert x == TWO64 * w + x % TWO64 && w < 6;
    assert w == 0 || w == 1 || w == 2 || w == 3 || w == 4 || w == 5;
  }

  // A valid id of an initialized compartment reaches it, unless the manager's stack is exhausted.
  lemma CallReachesCompartment(l: Layout, s: State, id: nat)
    requires l.Valid() && id < MAX_COMPARTMENTS && s.regs[0].addr == id && s.table[id].entryPoint.tag
    ensures CallTarget(l, s) == if s.sp < l.stackLow + FRAME_SIZE then NoTarget else To(id)
  {
    l.DescIndexExact(l.DescAddress(id), id);
  }

  // The check is right for every id exactly below 2^63.
  lemma IdCheckRightBelow(l: Layout, id: u64)
    requires l.Valid()
    ensures (PassesIdCheck(id) <==> id < MAX_COMPARTMENTS) <==> id < TWO64 / 2
    ensures id < MAX_COMPARTMENTS ==> l.DescIndex(l.DescAddress(id)) == Some(id)
  {
    IdCheckExact(l, id);
  }

  // --- The two entry points in numbers ---------------------------------------------------------

  // What becomes of a call: it stops the process for lack of a frame, for an id from 4094 to 2^63 - 1,
  // and for a compartment that is not there; it goes wild for an id from 2^63 on that is not the
  // alias of a compartment; and otherwise it enters compartment id mod 2^60.
  lemma SwitchExactly(l: Layout, s: State)
    requires l.Valid()
    ensures s.sp < l.stackLow + 96 ==> Switched(l, s) == Dead
    ensures var id, k := s.regs[0].addr, s.regs[0].addr % 0x1000_0000_0000_0000;
      s.sp >= l.stackLow + 96 ==>
        && (Switched(l, s) == Dead <==>
              4094 <= id < 0x8000_0000_0000_0000 || (k < 4094 && !s.table[k].entryPoint.tag))
        && (Switched(l, s) == Wild <==> id >= 0x8000_0000_0000_0000 && k >= 4094)
        && (Switched(l, s).Running? ==>
              k < 4094 && CallTarget(l, s) == To(k) && Switched(l, s).s.pcc == s.table[k].entryPoint)
  {
    IdCheckExact(l, s.regs[0].addr);
  }

  // A call lowers SP by 96 bytes, and points FP to the frame record at the upper end of these.
  lemma CallPointers(l: Layout, s: State, s': State)
    requires Switched(l, s) == Running(s')
    ensures s.sp >= 96 && s'.sp == s.sp - 96 && s'.regs[29].addr == s.sp - 16
  {
    var id := CallTarget(l, s).id;
    var r := CalleeRegisters(s.regs, s.table[id].entryPoint, Add64(s'.sp, COMPARTMENT_SIZE));
    assert s'.regs == r && r[29] == IntCap(s.sp - 16);
  }

  // It leaves there the Restricted bank and CLR, in the order of struct Compartment, the descriptor's
  // address or 0, and the frame record.
  lemma CallFrame(l: Layout, s: State, s': State, id: nat)
    requires l.Valid() && Switched(l, s) == Running(s') && CallTarget(l, s) == To(id)
    ensures var at := s.sp - 96;
      && s'.stack.Keys == s.stack.Keys + {at, at + 16, at + 32, at + 48, at + 64, at + 80}
      && s'.stack[at] == CapGranule(s.rcsp) && s'.stack[at + 16] == CapGranule(s.rddc)
      && s'.stack[at + 32] == CapGranule(s.rctpidr) && s'.stack[at + 48] == CapGranule(s.regs[30])
      && s'.stack[at + 64].Words?
      && s'.stack[at + 64].lo == (if s.table[id].updateOnReturn then l.tableBase + 80 * id else 0)
      && s'.stack[at + 80] == Words(s.regs[29].addr, s.regs[30].addr)
    ensures forall a :: a in s.stack && !(s.sp - 96 <= a < s.sp) ==> s'.stack[a] == s.stack[a]
  {
    l.DescIndexExact(l.DescAddress(id), id);
  }

  // What a return takes from where: the descriptor pointer at SP + 64 says which descriptor, if any,
  // gets the Restricted bank; the bank, CLR and FP come from the frame; SP is raised by 96 bytes; and
  // c0 passes through.
  lemma ReturnExactly(l: Layout, t: State, at: int, ctx: Context)
    requires l.Valid() && t.sp == at && at + 96 < TWO64
    requires Load(t.stack, at) == CapGranule(ctx.rcsp) && Load(t.stack, at + 16) == CapGranule(ctx.rddc)
    requires Load(t.stack, at + 32) == CapGranule(ctx.rctpidr) && Load(t.stack, at + 48) == CapGranule(ctx.clr)
    requires Load(t.stack, at + 64).Words? && Load(t.stack, at + 64).lo == ctx.desc
    requires Load(t.stack, at + 80).Words? && Load(t.stack, at + 80).lo == ctx.fp
    ensures Returned(l, t) != Dead
    ensures Returned(l, t) == Wild <==>
            ctx.desc != 0 && forall k: nat :: k < 4094 ==> ctx.desc != l.tableBase + 80 * k
    ensures Returned(l, t).Running? ==>
      var s' := Returned(l, t).s;
      && s'.rcsp == ctx.rcsp && s'.rddc == ctx.rddc && s'.rctpidr == ctx.rctpidr && s'.sp == at + 96
      && s'.pcc == ctx.clr == s'.regs[30] && s'.regs[29] == IntCap(ctx.fp) && s'.regs[0] == t.regs[0]
      && (forall r :: 0 < r < 29 ==> !s'.regs[r].tag && s'.regs[r].addr == 0) && s'.stack == t.stack
      && (ctx.desc == 0 ==> s'.table == t.table)
      && forall k: nat :: k < 4094 ==>
           s'.table[k] == if ctx.desc != 0 && ctx.desc == l.tableBase + 80 * k
                          then Compartment(t.rcsp, t.rddc, t.rctpidr, t.table[k].entryPoint, t.table[k].updateOnReturn)
                          else t.table[k]
  {
    assert FrameAt(t.stack, t.sp) == ctx;
    if Returned(l, t).Running? {
      var r := ReturnRegisters(t.regs, ctx.fp, ctx.clr);
      assert Returned(l, t).s.regs == r && forall i :: 0 < i < 29 ==> r[i] == NULL_CAP;
    }
  }
}
