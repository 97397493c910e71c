/** What the switcher, the placement of compartments and CHERI's rules give together: while a
    compartment waits for a call to return, nobody changes its memory except through store
    capabilities that were handed out (README.rst, "Compartment calls";
    src/compartment_interface_impl.h, src/compartment-manager/compartment_manager_asm.S).

    Compartments act one instruction at a time, with the authority of the capabilities they hold,
    or call the mmap() and munmap() that they are linked with.
    The history variable handed collects the addresses of every store capability that ever crossed
    from one protection domain to another: as an argument or result, by being stored outside the
    storer's own range, or by being loaded from outside the loader's own range. */
module Isolation {
  import opened Words
  import opened Ranges
  import opened AddressSpaces
  import opened MemoryWords
  import opened Capabilities
  import opened Switcher
  import opened SwitchRuns
  import opened Placement
  import opened CompartmentHeap

  // mem and caps: memory outside the manager's stack and table, with the valid capabilities it
  // holds, by granule address.  ranges: the range reserved for each compartment.  chain: the
  // compartments on the live call chain, innermost last.  shared: the addresses of shared file
  // mappings, whose contents may change at any time.
  datatype World = World(c: Config, mem: Memory, caps: map<nat, Cap>, shared: iset<nat>,
                         ranges: map<nat, Range>, chain: seq<nat>, handed: iset<nat>)

  const GRANULE: nat := 16

  datatype Action =
    | Derive                                               // compute on registers
    | StoreData(via: Cap, at: nat, data: seq<byte>)
    | StoreCapability(via: Cap, at: nat, value: Cap, encoding: seq<byte>)
    | LoadCapability(via: Cap, at: nat)
    | MapCall(h: Heap, r: Request, out: MapResult, h': Heap) // mmap() or munmap()

  ghost predicate Holds(s: State, c: Cap) {
    c in s.regs || c == s.pcc || c == s.rcsp || c == s.rddc || c == s.rctpidr
  }

  predicate InGranule(g: nat, a: nat) {
    g <= a < g + GRANULE
  }

  predicate Overlaps(g: nat, lo: nat, hi: nat) {
    g < hi && lo < g + GRANULE
  }

  predicate OwnGranule(own: Range, g: nat) {
    own.base <= g && g + GRANULE <= own.top
  }

  ghost function Authority(c: Cap): iset<nat> {
    iset a: nat | c.CanStore(a)
  }

  // Of the six arguments, in c1 to c6.
  ghost function ArgumentAuthority(s: State): iset<nat> {
    Authority(s.regs[1]) + Authority(s.regs[2]) + Authority(s.regs[3])
    + Authority(s.regs[4]) + Authority(s.regs[5]) + Authority(s.regs[6])
  }

  ghost predicate NoStores(c: Cap) {
    !c.tag || STORE !in c.perms
  }

  predicate Usable(c: Cap, perms: set<Perm>, lo: nat, hi: nat) {
    c.tag && perms <= c.perms && c.base <= lo && hi <= c.limit
  }

  // Monotonicity: whatever is in the registers afterwards was made from what was available.
  ghost predicate DerivedRegisters(s: State, s': State, loaded: set<Cap>) {
    forall c :: Holds(s', c) ==> exists d :: (Holds(s, d) || d in loaded) && c.DerivedFrom(d)
  }

  function Untagged(caps: map<nat, Cap>, lo: nat, hi: nat): map<nat, Cap> {
    map g | g in caps && !Overlaps(g, lo, hi) :: caps[g]
  }

  ghost function HandedIfForeign(handed: iset<nat>, own: Range, g: nat, c: Cap): iset<nat> {
    if OwnGranule(own, g) then handed else handed + Authority(c)
  }

  // What a granted mapping leaves of the capabilities in memory.
  function CapsAfter(caps: map<nat, Cap>, h: Heap, r: Request, addr: nat): map<nat, Cap>
    requires h.pageSize > 0
  {
    var left := Untagged(caps, addr, addr + RoundUp(AsMap(r).length, h.pageSize));
    if AsMap(r).fixed then left else Untagged(left, h.topVar, h.topVar + 8)
  }

  // What is shared after a granted mapping.  Shared anonymous memory has one address only.
  ghost function SharedAfter(shared: iset<nat>, m: Request, addr: nat, p: nat): iset<nat>
    requires p > 0 && m.Map?
  {
    iset a: nat | if addr <= a < addr + RoundUp(m.length, p) then m.shared && m.src.File? else a in shared
  }

  // m', but for the contents of shared pages, is m.
  ghost predicate Shows(m: Memory, m': Memory, shared: iset<nat>) {
    && m'.Keys == m.Keys
    && forall a: nat :: a in m ==> m'[a].prot == m[a].prot && (a !in shared ==> m'[a] == m[a])
  }

  ghost predicate ComputeStep(w: World, own: Range, act: Action, w': World) {
    var s, s' := w.c.s, w'.c.s;
    match act
    case Derive =>
      && DerivedRegisters(s, s', {})
      && Shows(w.mem, w'.mem, w.shared) && w'.caps == w.caps && w'.shared == w.shared && w'.handed == w.handed
    case StoreData(via, at, data) =>
      && Holds(s, via) && data != [] && Usable(via, {STORE}, at, at + |data|) && s' == s
      && Writable(w.mem, at, |data|) && Shows(Stored(w.mem, at, data), w'.mem, w.shared)
      && w'.caps == Untagged(w.caps, at, at + |data|)
      && w'.shared == w.shared && w'.handed == w.handed
    case StoreCapability(via, at, value, encoding) =>
      // Shared file mappings hold no capabilities.
      && Holds(s, via) && Usable(via, {STORE, STORE_CAP}, at, at + GRANULE) && s' == s
      && Holds(s, value) && |encoding| == GRANULE && at % GRANULE == 0
      && (forall a: nat :: InGranule(at, a) ==> a !in w.shared)
      && Writable(w.mem, at, GRANULE) && Shows(Stored(w.mem, at, encoding), w'.mem, w.shared)
      && w'.caps == Untagged(w.caps, at, at + GRANULE)[at := value]
      && w'.shared == w.shared && w'.handed == HandedIfForeign(w.handed, own, at, value)
    case LoadCapability(via, at) =>
      && Holds(s, via) && Usable(via, {LOAD, LOAD_CAP}, at, at + GRANULE)
      && at in w.caps && DerivedRegisters(s, s', {w.caps[at]})
      && Shows(w.mem, w'.mem, w.shared) && w'.caps == w.caps && w'.shared == w.shared
      && w'.handed == HandedIfForeign(w.handed, own, at, w.caps[at])
    case MapCall(h, r, out, h') =>
      // The kernel knows no capabilities: what bounds a mapping is DDC and the two variables.  That
      // these still confine it to own is an assumption; see CompartmentHeap for why it is exact.
      && h.mem == w.mem && h.ddc == Bounds(s.rddc) && KeptIn(h, r, own)
      && HeapStep(h, r, out, h') && out.Granted? && s' == s
      && w'.shared == SharedAfter(w.shared, AsMap(r), out.addr, h.pageSize)
      && Shows(h'.mem, w'.mem, w'.shared) && w'.caps == CapsAfter(w.caps, h, r, out.addr)
      && w'.handed == w.handed
  }

  function Bounds(c: Cap): Range {
    Range(c.base, c.limit)
  }

  // The manager puts no capability with store authority into a compartment's range.
  ghost predicate ManagerStep(w: World, w': World) {
    && w'.chain == w.chain && w'.handed == w.handed
    && forall g, id :: g in w'.caps && id in w'.ranges && OwnGranule(w'.ranges[id], g) ==>
         NoStores(w'.caps[g]) || (g in w.caps && w.caps[g] == w'.caps[g] && id in w.ranges)
  }

  ghost predicate Apart(r: Range, s: Range) {
    forall a: nat :: !(r.Contains(a) && s.Contains(a))
  }

  ghost predicate CallStep(l: Layout, w: World, w': World) {
    && w'.mem == w.mem && w'.caps == w.caps && w'.shared == w.shared && w'.ranges == w.ranges
    && CallTarget(l, w.c.s).To? && w'.chain == w.chain + [CallTarget(l, w.c.s).id]
    && w'.handed == w.handed + ArgumentAuthority(w.c.s)
  }

  ghost predicate ReturnStep(w: World, w': World) {
    && w'.mem == w.mem && w'.caps == w.caps && w'.shared == w.shared && w'.ranges == w.ranges
    && w.chain != [] && w'.chain == w.chain[..|w.chain| - 1]
    && w'.handed == w.handed + Authority(w.c.s.regs[0])
  }

  // Initialization hands back the bounds of DDC that it was given.
  ghost predicate KeepsBounds(w: World) {
    w.c.phase.Initializing? ==> w.c.phase.id in w.ranges && Bounds(w.c.s.rddc) == w.ranges[w.c.phase.id]
  }

  // One action of the compartment that runs.
  ghost predicate ActionStep(w: World, act: Action, w': World) {
    && w'.chain == w.chain && w'.ranges == w.ranges
    && w.chain != [] && w.chain[|w.chain| - 1] in w.ranges
    && ComputeStep(w, w.ranges[w.chain[|w.chain| - 1]], act, w')
  }

  ghost predicate WorldStep(l: Layout, w: World, e: Event, act: Action, w': World) {
    && Step(l, w.c, e, w'.c)
    && match e
       case Call => CallStep(l, w, w')
       case Return =>
         ReturnStep(w, w') && KeepsBounds(w)
       case Compute => ActionStep(w, act, w')
       case Manage =>
         w'.ranges == w.ranges && ManagerStep(w, w')
       case BeginAdd(id, desc) =>
         && id !in w.ranges && w'.ranges == w.ranges[id := Bounds(desc.ddc)]
         && Unclaimed(Bounds(desc.ddc), w.c.s.table) && desc.entryPoint.tag
         && NoStores(desc.csp) && NoStores(desc.ctpidr) && NoStores(desc.entryPoint)
         && ManagerStep(w, w')
       case FinishAdd(id, entry) =>
         w'.ranges == w.ranges && entry.tag && NoStores(entry) && ManagerStep(w, w')
  }

  ghost predicate InitialWorld(w: World) {
    && Initial(w.c)
    && w.ranges == map[] && w.chain == [] && w.handed == iset{} && w.shared == iset{}
    && forall k :: 0 <= k < MAX_COMPARTMENTS ==> !w.c.s.table[k].entryPoint.tag
  }

  ghost predicate WorldStepAt(l: Layout, ws: seq<World>, es: seq<Event>, acts: seq<Action>, n: nat)
    requires n < |es| == |acts| && |ws| == |es| + 1
  {
    WorldStep(l, ws[n], es[n], acts[n], ws[n + 1])
  }

  ghost predicate WorldRun(l: Layout, ws: seq<World>, es: seq<Event>, acts: seq<Action>) {
    && l.Valid()
    && |ws| == |es| + 1 && |acts| == |es|
    && InitialWorld(ws[0])
    && forall n {:trigger WorldStepAt(l, ws, es, acts, n)} :: 0 <= n < |es| ==> WorldStepAt(l, ws, es, acts, n)
  }

  ghost function Configs(ws: seq<World>): seq<Config> {
    seq(|ws|, i requires 0 <= i < |ws| => ws[i].c)
  }

  lemma WorldRunIsRun(l: Layout, ws: seq<World>, es: seq<Event>, acts: seq<Action>)
    requires WorldRun(l, ws, es, acts)
    ensures Run(l, Configs(ws), es)
  {
    var cs := Configs(ws);
    forall n | 0 <= n < |es|
      ensures StepAt(l, cs, es, n)
    {
      assert WorldStepAt(l, ws, es, acts, n);
    }
  }

  // --- The authority invariant -----------------------------------------------------------------

  // c can store only in own or at handed-out addresses.
  ghost predicate Within(c: Cap, own: Range, handed: iset<nat>) {
    forall a: nat :: c.CanStore(a) ==> own.Contains(a) || a in handed
  }

  ghost predicate TableWithin(w: World) {
    forall k :: 0 <= k < MAX_COMPARTMENTS ==>
      var comp := w.c.s.table[k];
      && (k !in w.ranges ==> !comp.entryPoint.tag)
      && (k in w.ranges ==>
            && Within(comp.csp, w.ranges[k], w.handed) && Within(comp.ddc, w.ranges[k], w.handed)
            && Within(comp.ctpidr, w.ranges[k], w.handed) && NoStores(comp.entryPoint))
  }

  ghost predicate RegistersWithin(s: State, own: Range, handed: iset<nat>) {
    forall c :: Holds(s, c) ==> Within(c, own, handed)
  }

  ghost predicate ChainPlaced(w: World) {
    forall k :: 0 <= k < |w.chain| ==> w.chain[k] in w.ranges
  }

  // Frame k was pushed by chain[k - 1]; frame 0 by the manager.
  ghost predicate FramesWithin(w: World, fs: seq<Frame>)
    requires |fs| <= |w.chain|
    requires ChainPlaced(w)
  {
    forall k :: 1 <= k < |fs| ==>
      var own := w.ranges[w.chain[k - 1]];
      && Within(fs[k].ctx.rcsp, own, w.handed) && Within(fs[k].ctx.rddc, own, w.handed)
      && Within(fs[k].ctx.rctpidr, own, w.handed) && Within(fs[k].ctx.clr, own, w.handed)
  }

  ghost predicate MemoryWithin(w: World) {
    forall g, id :: g in w.caps && id in w.ranges && OwnGranule(w.ranges[id], g) ==>
      Within(w.caps[g], w.ranges[id], w.handed)
  }

  // The table says which range every compartment has.
  ghost predicate RangesInTable(w: World) {
    forall k :: k in w.ranges ==>
      k < MAX_COMPARTMENTS && w.c.s.table[k].entryPoint.tag && DdcRange(w.c.s.table[k]) == w.ranges[k]
  }

  ghost predicate RangesApart(w: World) {
    forall j, k :: j in w.ranges && k in w.ranges && j != k ==> Apart(w.ranges[j], w.ranges[k])
  }

  // The compartment that runs, if one does.
  ghost predicate RunningWithin(w: World)
    requires ChainPlaced(w)
  {
    w.chain != [] ==> RegistersWithin(w.c.s, w.ranges[w.chain[|w.chain| - 1]], w.handed)
  }

  ghost predicate Safe(w: World, fs: seq<Frame>) {
    && |fs| == |w.chain| == w.c.depth
    && ChainPlaced(w)
    && (w.c.phase.Initializing? ==> w.c.phase.id in w.ranges && (w.chain == [] || w.chain == [w.c.phase.id]))
    && TableWithin(w) && RunningWithin(w) && FramesWithin(w, fs) && MemoryWithin(w) && RangesInTable(w)
    && RangesApart(w)
  }

  // Nothing but the history has grown.
  lemma SafeTableGrows(w: World, w': World)
    requires TableWithin(w) && RangesInTable(w)
    requires w'.c.s.table == w.c.s.table && w'.ranges == w.ranges && w.handed <= w'.handed
    ensures TableWithin(w') && RangesInTable(w')
  {
  }

  lemma SafeFramesGrow(w: World, w': World, fs: seq<Frame>)
    requires |fs| <= |w.chain| && w'.chain == w.chain && w'.ranges == w.ranges && w.handed <= w'.handed
    requires ChainPlaced(w)
    requires FramesWithin(w, fs)
    ensures FramesWithin(w', fs)
  {
  }

  lemma SafeMemoryGrows(w: World, w': World)
    requires MemoryWithin(w) && w'.caps == w.caps && w'.ranges == w.ranges && w.handed <= w'.handed
    ensures MemoryWithin(w')
  {
  }

  lemma ArgumentHanded(s: State, i: nat)
    requires 1 <= i <= 6
    ensures forall a: nat :: s.regs[i].CanStore(a) ==> a in ArgumentAuthority(s)
  {
    assert i == 1 || i == 2 || i == 3 || i == 4 || i == 5 || i == 6;
  }

  // A valid capability in the callee's registers is an argument or its own entry point.
  lemma CalleeRegister(caller: Registers, entry: Cap, fp: u64, c: Cap) returns (i: nat)
    requires c in CalleeRegisters(caller, entry, fp) && c.tag && c != entry
    ensures 1 <= i <= 6 && caller[i] == c
  {
    var r := CalleeRegisters(caller, entry, fp);
    var j :| 0 <= j < 31 && r[j] == c;
    assert r[j] == if j < 6 then caller[j + 1] else if j == 24 then entry else if j == FP then IntCap(fp) else NULL_CAP;
    i := j + 1;
  }

  lemma ReturnRegister(callee: Registers, fp: u64, clr: Cap, c: Cap)
    requires c in ReturnRegisters(callee, fp, clr) && c.tag && c != clr
    ensures callee[0] == c
  {
    var r := ReturnRegisters(callee, fp, clr);
    var j :| 0 <= j < 31 && r[j] == c;
    assert r[j] == if j == 0 then callee[0] else if j == FP then IntCap(fp) else if j == CLR then clr else NULL_CAP;
  }

  lemma CallSafe(l: Layout, w: World, w': World, fs: seq<Frame>)
    requires Safe(w, fs) && Step(l, w.c, Call, w'.c) && CallStep(l, w, w')
    ensures Safe(w', fs + [NewFrame(l, w.c.s)])
  {
    var s, s' := w.c.s, w'.c.s;
    var id := CallTarget(l, s).id;
    assert s.table[id].entryPoint.tag && id in w.ranges;
    SafeTableGrows(w, w');
    SafeMemoryGrows(w, w');
    CalleeRegistersWithin(l, s, s', id, w'.ranges[id], w'.handed);
    CallFramesWithin(w, w', fs, NewFrame(l, s), id);
  }

  // The new frame saves what the caller holds.
  lemma CallFramesWithin(w: World, w': World, fs: seq<Frame>, top: Frame, id: nat)
    requires |fs| == |w.chain| && id in w.ranges && ChainPlaced(w)
    requires FramesWithin(w, fs) && RunningWithin(w)
    requires w'.ranges == w.ranges && w'.chain == w.chain + [id] && w.handed <= w'.handed
    requires var ctx, s := top.ctx, w.c.s;
      ctx.rcsp == s.rcsp && ctx.rddc == s.rddc && ctx.rctpidr == s.rctpidr && ctx.clr == s.regs[CLR]
    ensures ChainPlaced(w') && FramesWithin(w', fs + [top])
  {
    var s := w.c.s;
    assert Holds(s, s.rcsp) && Holds(s, s.rddc) && Holds(s, s.rctpidr) && Holds(s, s.regs[CLR]);
  }

  lemma CalleeRegistersWithin(l: Layout, s: State, s': State, id: nat, own: Range, handed: iset<nat>)
    requires FRAME_SIZE <= s.sp && id < MAX_COMPARTMENTS && s' == SwitchedTo(l, s, id)
    requires var comp := s.table[id];
      && Within(comp.csp, own, handed) && Within(comp.ddc, own, handed)
      && Within(comp.ctpidr, own, handed) && NoStores(comp.entryPoint)
    requires ArgumentAuthority(s) <= handed
    ensures RegistersWithin(s', own, handed)
  {
    var comp := s.table[id];
    forall c | Holds(s', c)
      ensures Within(c, own, handed)
    {
      if c in s'.regs && c.tag && c != comp.entryPoint {
        var i := CalleeRegister(s.regs, comp.entryPoint, Add64(s'.sp, COMPARTMENT_SIZE), c);
        ArgumentHanded(s, i);
      }
    }
  }

  // What ReturnEffect establishes.
  ghost predicate ReturnKeepsTable(c: Config, c': Config) {
    var s := c.s;
    && (c.phase == Idle ==> c'.s.table == s.table)
    && (c.phase.Initializing? ==>
          var id := c.phase.id;
          && id < MAX_COMPARTMENTS
          && c'.s.table == s.table[id := s.table[id].(csp := s.rcsp, ddc := s.rddc, ctpidr := s.rctpidr)])
  }

  // The registers after a return into context ctx.
  ghost predicate Restored(s: State, s': State, ctx: Context) {
    && s'.regs == ReturnRegisters(s.regs, ctx.fp, ctx.clr) && s'.pcc == ctx.clr
    && s'.rcsp == ctx.rcsp && s'.rddc == ctx.rddc && s'.rctpidr == ctx.rctpidr
  }

  lemma StepRestores(l: Layout, c: Config, c': Config, fs: seq<Frame>)
    requires Step(l, c, Return, c') && Refines(c.s, fs) && fs != []
    ensures Restored(c.s, c'.s, fs[|fs| - 1].ctx) && c'.depth == c.depth - 1 && c'.phase == c.phase
  {
    assert FrameAt(c.s.stack, c.s.sp) == fs[|fs| - 1].ctx;
  }

  lemma ReturnTableSafe(w: World, w': World)
    requires TableWithin(w) && RangesInTable(w) && ReturnKeepsTable(w.c, w'.c) && KeepsBounds(w)
    requires w'.ranges == w.ranges && w.handed <= w'.handed
    requires w.c.phase.Initializing? ==> RegistersWithin(w.c.s, w.ranges[w.c.phase.id], w.handed)
    ensures TableWithin(w') && RangesInTable(w')
  {
    var s := w.c.s;
    assert Holds(s, s.rcsp) && Holds(s, s.rddc) && Holds(s, s.rctpidr);
  }

  lemma ReturnSafe(w: World, w': World, fs: seq<Frame>)
    requires Safe(w, fs) && fs != [] && Restored(w.c.s, w'.c.s, fs[|fs| - 1].ctx) && ReturnStep(w, w')
    requires w'.c.depth == w.c.depth - 1 && w'.c.phase == w.c.phase
    requires ReturnKeepsTable(w.c, w'.c) && KeepsBounds(w)
    ensures Safe(w', fs[..|fs| - 1])
  {
    var top := |fs| - 1;
    ReturnTableSafe(w, w');
    SafeMemoryGrows(w, w');
    if top > 0 {
      ReturnRegistersWithin(w.c.s, w'.c.s, fs[top].ctx, w.ranges[w.chain[top - 1]], w'.handed);
    }
  }

  lemma ReturnRegistersWithin(s: State, s': State, ctx: Context, own: Range, handed: iset<nat>)
    requires Restored(s, s', ctx)
    requires Within(ctx.rcsp, own, handed) && Within(ctx.rddc, own, handed)
    requires Within(ctx.rctpidr, own, handed) && Within(ctx.clr, own, handed)
    requires Authority(s.regs[0]) <= handed
    ensures RegistersWithin(s', own, handed)
  {
    forall c | Holds(s', c)
      ensures Within(c, own, handed)
    {
      if c in s'.regs && c.tag && c != ctx.clr {
        ReturnRegister(s.regs, ctx.fp, ctx.clr, c);
        assert forall a: nat :: c.CanStore(a) ==> a in Authority(s.regs[0]);
      }
    }
  }

  lemma DerivedWithin(s: State, s': State, loaded: set<Cap>, own: Range, handed: iset<nat>)
    requires DerivedRegisters(s, s', loaded) && RegistersWithin(s, own, handed)
    requires forall c :: c in loaded ==> Within(c, own, handed)
    ensures RegistersWithin(s', own, handed)
  {
    forall c | Holds(s', c)
      ensures Within(c, own, handed)
    {
      var d :| (Holds(s, d) || d in loaded) && c.DerivedFrom(d);
      assert Within(d, own, handed);
      assert forall a: nat :: c.CanStore(a) ==> d.CanStore(a);
    }
  }

  lemma ComputeWithin(w: World, me: nat, act: Action, w': World)
    requires me in w.ranges && w'.ranges == w.ranges && ComputeStep(w, w.ranges[me], act, w')
    requires RegistersWithin(w.c.s, w.ranges[me], w.handed) && MemoryWithin(w) && RangesApart(w)
    ensures RegistersWithin(w'.c.s, w.ranges[me], w'.handed) && MemoryWithin(w') && w.handed <= w'.handed
  {
    match act {
      case Derive =>
        DerivedWithin(w.c.s, w'.c.s, {}, w.ranges[me], w.handed);
      case StoreCapability(_, at, value, _) =>
        StoredCapabilitySafe(w, w', me, at, value);
      case LoadCapability(_, at) =>
        LoadedCapabilityWithin(w, w', me, at);
        DerivedWithin(w.c.s, w'.c.s, {w.caps[at]}, w.ranges[me], w'.handed);
      case _ =>
    }
  }

  lemma ComputeSafe(w: World, w': World, fs: seq<Frame>, act: Action)
    requires Safe(w, fs) && ActionStep(w, act, w')
    requires Confined(w.c.s, w'.c.s) && w'.c.depth == w.c.depth && w'.c.phase == w.c.phase
    ensures Safe(w', fs)
  {
    ComputeWithin(w, w.chain[|w.chain| - 1], act, w');
    SafeTableGrows(w, w');
    SafeFramesGrow(w, w', fs);
  }

  lemma StoredCapabilitySafe(w: World, w': World, me: nat, at: nat, value: Cap)
    requires me in w.ranges && MemoryWithin(w) && RangesApart(w)
    requires w'.ranges == w.ranges && w'.caps == Untagged(w.caps, at, at + GRANULE)[at := value]
    requires w'.handed == HandedIfForeign(w.handed, w.ranges[me], at, value) && Within(value, w.ranges[me], w.handed)
    ensures MemoryWithin(w')
  {
    var own := w.ranges[me];
    forall g, id | g in w'.caps && id in w'.ranges && OwnGranule(w'.ranges[id], g)
      ensures Within(w'.caps[g], w'.ranges[id], w'.handed)
    {
      if g == at && id != me && OwnGranule(own, g) {
        assert Apart(w.ranges[id], own) && own.Contains(g) && w.ranges[id].Contains(g);
      }
    }
  }

  lemma LoadedCapabilityWithin(w: World, w': World, me: nat, at: nat)
    requires me in w.ranges && MemoryWithin(w) && RegistersWithin(w.c.s, w.ranges[me], w.handed)
    requires at in w.caps && w'.caps == w.caps && w'.ranges == w.ranges
    requires w'.handed == HandedIfForeign(w.handed, w.ranges[me], at, w.caps[at])
    ensures Within(w.caps[at], w.ranges[me], w'.handed) && RegistersWithin(w.c.s, w.ranges[me], w'.handed)
    ensures MemoryWithin(w')
  {
  }

  lemma ManagerMemorySafe(w: World, w': World)
    requires MemoryWithin(w) && ManagerStep(w, w')
    requires forall id :: id in w.ranges ==> id in w'.ranges && w'.ranges[id] == w.ranges[id]
    ensures MemoryWithin(w')
  {
    forall g, id | g in w'.caps && id in w'.ranges && OwnGranule(w'.ranges[id], g)
      ensures Within(w'.caps[g], w'.ranges[id], w'.handed)
    {
      if !NoStores(w'.caps[g]) {
        assert w'.ranges[id] == w.ranges[id];
      }
    }
  }

  lemma ManageSafe(w: World, w': World, fs: seq<Frame>)
    requires Safe(w, fs) && ManagerStep(w, w') && w'.ranges == w.ranges
    requires w.c.depth == w'.c.depth == 0 && w'.c.phase == w.c.phase && w'.c.s.table == w.c.s.table
    ensures Safe(w', fs)
  {
    ManagerMemorySafe(w, w');
    SafeTableGrows(w, w');
  }

  // IsRangeFree has compared the new range with every range in the table.
  lemma NewRangeApart(w: World, w': World, id: nat, range: Range)
    requires RangesApart(w) && RangesInTable(w) && Unclaimed(range, w.c.s.table)
    requires id !in w.ranges && w'.ranges == w.ranges[id := range]
    ensures RangesApart(w')
  {
    forall k | k in w.ranges
      ensures Apart(w.ranges[k], range)
    {
      assert !DdcRange(w.c.s.table[k]).Intersects(range);
    }
  }

  lemma BeginAddSafe(w: World, w': World, fs: seq<Frame>, id: nat, desc: Compartment)
    requires Safe(w, fs) && ManagerStep(w, w') && w.c.depth == 0 && id < MAX_COMPARTMENTS
    requires w'.c == Config(w.c.s.(table := w.c.s.table[id := desc]), 0, Initializing(id))
    requires id !in w.ranges && w'.ranges == w.ranges[id := Bounds(desc.ddc)]
    requires Unclaimed(Bounds(desc.ddc), w.c.s.table) && desc.entryPoint.tag
    requires NoStores(desc.csp) && NoStores(desc.ctpidr) && NoStores(desc.entryPoint)
    ensures Safe(w', fs)
  {
    ManagerMemorySafe(w, w');
    NewRangeApart(w, w', id, Bounds(desc.ddc));
    assert Within(desc.ddc, w'.ranges[id], w'.handed);
  }

  lemma FinishAddSafe(w: World, w': World, fs: seq<Frame>, id: nat, entry: Cap)
    requires Safe(w, fs) && ManagerStep(w, w') && w.c.depth == 0
    requires id < MAX_COMPARTMENTS && w.c.phase == Initializing(id)
    requires w'.c == Config(w.c.s.(table := w.c.s.table[id :=
                       w.c.s.table[id].(entryPoint := entry, updateOnReturn := false)]), 0, Idle)
    requires w'.ranges == w.ranges && entry.tag && NoStores(entry)
    ensures Safe(w', fs)
  {
    ManagerMemorySafe(w, w');
  }

  lemma StepSafe(l: Layout, w: World, e: Event, act: Action, w': World, fs: seq<Frame>)
    requires Safe(w, fs) && Refines(w.c.s, fs) && WorldStep(l, w, e, act, w')
    requires e.Return? ==> ReturnKeepsTable(w.c, w'.c)
    ensures Safe(w', NextFrames(l, w.c.s, e, fs))
  {
    match e {
      case Call => CallSafe(l, w, w', fs);
      case Return =>
        StepRestores(l, w.c, w'.c, fs);
        ReturnSafe(w, w', fs);
      case Compute => ComputeSafe(w, w', fs, act);
      case Manage => ManageSafe(w, w', fs);
      case BeginAdd(id, desc) => BeginAddSafe(w, w', fs, id, desc);
      case FinishAdd(id, entry) => FinishAddSafe(w, w', fs, id, entry);
    }
  }

  lemma ReturnEffectKeeps(l: Layout, cs: seq<Config>, es: seq<Event>, n: nat)
    requires Run(l, cs, es) && n < |es| && es[n].Return?
    ensures ReturnKeepsTable(cs[n], cs[n + 1])
  {
    assert StepAt(l, cs, es, n);
    ReturnEffect(l, cs, es, n);
  }

  // What the switcher's own results say about step n.
  lemma SwitcherStep(l: Layout, ws: seq<World>, es: seq<Event>, acts: seq<Action>, n: nat)
    requires WorldRun(l, ws, es, acts) && n < |es| && Run(l, Configs(ws), es)
    ensures var fs := Frames(l, Configs(ws), es, n);
      Refines(ws[n].c.s, fs) && Frames(l, Configs(ws), es, n + 1) == NextFrames(l, ws[n].c.s, es[n], fs)
    ensures es[n].Return? ==> ReturnKeepsTable(ws[n].c, ws[n + 1].c)
  {
    var cs := Configs(ws);
    assert cs[n] == ws[n].c && cs[n + 1] == ws[n + 1].c;
    RunRefines(l, cs, es, n);
    if es[n].Return? {
      ReturnEffectKeeps(l, cs, es, n);
    }
  }

  lemma WorldStepSafe(l: Layout, ws: seq<World>, es: seq<Event>, acts: seq<Action>, n: nat)
    requires WorldRun(l, ws, es, acts) && n < |es| && Run(l, Configs(ws), es)
    requires Safe(ws[n], Frames(l, Configs(ws), es, n))
    ensures Safe(ws[n + 1], Frames(l, Configs(ws), es, n + 1))
  {
    SwitcherStep(l, ws, es, acts, n);
    assert WorldStepAt(l, ws, es, acts, n);
    StepSafe(l, ws[n], es[n], acts[n], ws[n + 1], Frames(l, Configs(ws), es, n));
  }

  // In every reachable state, nobody holds more authority than their own range and what has been
  // handed out, in registers, on the manager's stack, in the table or in memory.
  lemma {:induction false} WorldSafe(l: Layout, ws: seq<World>, es: seq<Event>, acts: seq<Action>, n: nat)
    requires WorldRun(l, ws, es, acts) && n <= |es|
    ensures Run(l, Configs(ws), es)
    ensures Safe(ws[n], Frames(l, Configs(ws), es, n))
  {
    WorldRunIsRun(l, ws, es, acts);
    if n > 0 {
      WorldSafe(l, ws, es, acts, n - 1);
      WorldStepSafe(l, ws, es, acts, n - 1);
    }
  }

  // --- Suspended compartments ------------------------------------------------------------------

  // Event j returns from the call that is event i, made by compartment me, which is not entered
  // again in between.
  ghost predicate Suspended(l: Layout, ws: seq<World>, es: seq<Event>, acts: seq<Action>, i: nat, j: nat, me: nat) {
    && WorldRun(l, ws, es, acts) && Matching(l, Configs(ws), es, i, j)
    && ws[i].chain != [] && ws[i].chain[|ws[i].chain| - 1] == me
    && forall n, p :: i < n <= j && |ws[i].chain| <= p < |ws[n].chain| ==> ws[n].chain[p] != me
  }

  // The byte at a is mapped as before, with the same contents unless it is shared.
  ghost predicate KeptAt(w: World, w': World, a: nat) {
    && (a in w.mem <==> a in w'.mem) && (a in w.shared <==> a in w'.shared)
    && (a in w.mem ==> w'.mem[a].prot == w.mem[a].prot && (a !in w.shared ==> w'.mem[a] == w.mem[a]))
  }

  // The memory of range own is the same, apart from handed-out addresses.
  ghost predicate MemoryKept(w: World, w': World, own: Range, handed: iset<nat>) {
    && (forall a: nat {:trigger KeptAt(w, w', a)} :: own.Contains(a) && a !in handed ==> KeptAt(w, w', a))
    && (forall g: nat :: OwnGranule(own, g) && (forall a: nat :: InGranule(g, a) ==> a !in handed) ==>
          (g in w.caps <==> g in w'.caps) && (g in w.caps ==> w.caps[g] == w'.caps[g]))
  }

  // One step of anybody but the owner of the range.
  lemma OthersKeep(l: Layout, w: World, e: Event, act: Action, w': World, fs: seq<Frame>, me: nat)
    requires Safe(w, fs) && WorldStep(l, w, e, act, w') && w.c.depth > 0
    requires me in w.ranges && (e.Compute? ==> w.chain[|w.chain| - 1] != me)
    ensures w'.ranges == w.ranges && w.handed <= w'.handed
    ensures MemoryKept(w, w', w.ranges[me], w'.handed)
  {
    if e.Compute? {
      var running := w.chain[|w.chain| - 1];
      assert running in w.ranges;
      ComputeKeeps(w, w.ranges[running], act, w', w.ranges[me]);
    }
  }

  lemma ComputeKeeps(w: World, other: Range, act: Action, w': World, mine: Range)
    requires ComputeStep(w, other, act, w') && RegistersWithin(w.c.s, other, w.handed) && Apart(other, mine)
    ensures MemoryKept(w, w', mine, w'.handed)
  {
    match act {
      case StoreData(via, at, data) =>
        StoreKeeps(w, other, via, at, data, w', mine);
      case StoreCapability(via, at, value, encoding) =>
        StoreKeeps(w, other, via, at, encoding, w', mine);
      case MapCall(h, r, out, h') =>
        MapCallKeeps(w, other, h, r, out, h', w', mine);
      case _ =>
        assert forall a: nat :: KeptAt(w, w', a);
    }
  }

  lemma StoreKeeps(w: World, other: Range, via: Cap, at: nat, data: seq<byte>, w': World, mine: Range)
    requires Usable(via, {STORE}, at, at + |data|) && data != [] && Within(via, other, w.handed) && Apart(other, mine)
    requires Writable(w.mem, at, |data|) && Shows(Stored(w.mem, at, data), w'.mem, w.shared) && w'.shared == w.shared
    requires w.handed <= w'.handed
    requires forall g: nat :: !Overlaps(g, at, at + |data|) ==>
      (g in w.caps <==> g in w'.caps) && (g in w.caps ==> w.caps[g] == w'.caps[g])
    ensures MemoryKept(w, w', mine, w'.handed)
  {
    StoreElsewhere(via, at, at + |data|, other, mine, w.handed);
    StoredBytes(w.mem, at, data);
    WriteKeeps(w, Stored(w.mem, at, data), w', mine, at, at + |data|);
  }

  lemma MapCallKeeps(w: World, other: Range, h: Heap, r: Request, out: MapResult, h': Heap, w': World, mine: Range)
    requires HeapStep(h, r, out, h') && out.Granted? && KeptIn(h, r, other) && Apart(other, mine)
    requires w'.shared == SharedAfter(w.shared, AsMap(r), out.addr, h.pageSize)
    requires w.mem == h.mem && Shows(h'.mem, w'.mem, w'.shared) && w'.caps == CapsAfter(w.caps, h, r, out.addr)
    ensures MemoryKept(w, w', mine, w'.handed)
  {
    GrantStaysIn(h, r, out, h', other);
    CapsElsewhere(w.caps, h, r, out.addr, other, mine);
    ElsewhereKept(w, h'.mem, w', other, mine);
  }

  lemma CapsElsewhere(caps: map<nat, Cap>, h: Heap, r: Request, addr: nat, other: Range, mine: Range)
    requires h.pageSize > 0 && Apart(other, mine) && other.base <= h.topVar && h.topVar + 8 <= other.top
    requires other.base <= addr < addr + RoundUp(AsMap(r).length, h.pageSize) <= other.top
    ensures forall g: nat :: OwnGranule(mine, g) ==>
      (g in caps <==> g in CapsAfter(caps, h, r, addr)) && (g in caps ==> caps[g] == CapsAfter(caps, h, r, addr)[g])
  {
    NoOverlap(addr, addr + RoundUp(AsMap(r).length, h.pageSize), other, mine);
    NoOverlap(h.topVar, h.topVar + 8, other, mine);
  }

  // Changes within one range keep another; m is memory as it would be without shared pages.
  lemma ElsewhereKept(w: World, m: Memory, w': World, other: Range, mine: Range)
    requires SameOutside(w.mem, m, other.base, other.top) && Shows(m, w'.mem, w'.shared) && Apart(other, mine)
    requires forall a: nat :: !other.Contains(a) ==> (a in w.shared <==> a in w'.shared)
    requires forall g: nat :: OwnGranule(mine, g) ==>
      (g in w.caps <==> g in w'.caps) && (g in w.caps ==> w.caps[g] == w'.caps[g])
    ensures MemoryKept(w, w', mine, w'.handed)
  {
    forall a: nat | mine.Contains(a)
      ensures KeptAt(w, w', a)
    {
      assert !other.Contains(a);
      assert SameAt(w.mem, m, a);
    }
  }

  lemma NoOverlap(lo: nat, hi: nat, other: Range, mine: Range)
    requires lo < hi && other.base <= lo && hi <= other.top && Apart(other, mine)
    ensures forall g: nat :: OwnGranule(mine, g) ==> !Overlaps(g, lo, hi)
  {
    forall g: nat | OwnGranule(mine, g)
      ensures !Overlaps(g, lo, hi)
    {
      var a := if lo < g then g else lo;
      assert Overlaps(g, lo, hi) ==> mine.Contains(a) && other.Contains(a);
    }
  }

  // A write to [lo, hi) keeps the rest; m is memory as it would be without shared pages.
  lemma WriteKeeps(w: World, m: Memory, w': World, mine: Range, lo: nat, hi: nat)
    requires SameOutside(w.mem, m, lo, hi) && Shows(m, w'.mem, w.shared) && w'.shared == w.shared
    requires forall g: nat :: !Overlaps(g, lo, hi) ==>
      (g in w.caps <==> g in w'.caps) && (g in w.caps ==> w.caps[g] == w'.caps[g])
    requires forall a: nat :: lo <= a < hi && mine.Contains(a) ==> a in w'.handed
    requires forall g: nat :: OwnGranule(mine, g) && lo < hi && Overlaps(g, lo, hi) ==>
      exists a: nat :: InGranule(g, a) && a in w'.handed
    requires lo < hi
    ensures MemoryKept(w, w', mine, w'.handed)
  {
    forall a: nat | mine.Contains(a) && a !in w'.handed
      ensures KeptAt(w, w', a)
    {
      assert SameAt(w.mem, m, a);
    }
  }

  // A store through a held capability touches the range of another compartment only at handed-out
  // addresses.
  lemma StoreElsewhere(via: Cap, lo: nat, hi: nat, other: Range, mine: Range, handed: iset<nat>)
    requires Usable(via, {STORE}, lo, hi) && Within(via, other, handed) && Apart(other, mine)
    ensures forall a: nat :: lo <= a < hi && mine.Contains(a) ==> a in handed
    ensures forall g: nat :: OwnGranule(mine, g) && lo < hi && Overlaps(g, lo, hi) ==>
      exists a: nat :: InGranule(g, a) && a in handed
  {
    forall a: nat | lo <= a < hi && mine.Contains(a)
      ensures a in handed
    {
      assert via.CanStore(a);
    }
    forall g: nat | OwnGranule(mine, g) && lo < hi && Overlaps(g, lo, hi)
      ensures exists a: nat :: InGranule(g, a) && a in handed
    {
      var a := if lo < g then g else lo;
      assert InGranule(g, a) && lo <= a < hi && mine.Contains(a);
    }
  }

  lemma MemoryKeptTrans(u: World, v: World, w: World, own: Range)
    requires MemoryKept(u, v, own, v.handed) && MemoryKept(v, w, own, w.handed) && v.handed <= w.handed
    ensures MemoryKept(u, w, own, w.handed)
  {
    forall a: nat | own.Contains(a) && a !in w.handed
      ensures KeptAt(u, w, a)
    {
      assert KeptAt(u, v, a) && KeptAt(v, w, a);
    }
  }

  lemma SuspendedElsewhere(l: Layout, ws: seq<World>, es: seq<Event>, acts: seq<Action>,
                           i: nat, j: nat, me: nat, n: nat)
    requires Suspended(l, ws, es, acts, i, j, me) && i <= n <= j
    requires |ws[n].chain| == ws[n].c.depth && |ws[i].chain| == ws[i].c.depth
    ensures ws[n].c.depth > 0 && (es[n].Compute? ==> ws[n].chain[|ws[n].chain| - 1] != me)
  {
    if n > i {
      assert Configs(ws)[n].depth > Configs(ws)[i].depth;
    }
  }

  lemma WorldChain(l: Layout, ws: seq<World>, es: seq<Event>, acts: seq<Action>, n: nat)
    requires WorldRun(l, ws, es, acts) && n <= |es|
    ensures |ws[n].chain| == ws[n].c.depth
    ensures ChainPlaced(ws[n])
  {
    WorldSafe(l, ws, es, acts, n);
  }

  lemma SuspendedStep(l: Layout, ws: seq<World>, es: seq<Event>, acts: seq<Action>, i: nat, j: nat, me: nat, n: nat)
    requires Suspended(l, ws, es, acts, i, j, me) && i <= n <= j && me in ws[n].ranges
    ensures ws[n + 1].ranges == ws[n].ranges && ws[n].handed <= ws[n + 1].handed
    ensures MemoryKept(ws[n], ws[n + 1], ws[n].ranges[me], ws[n + 1].handed)
  {
    WorldChain(l, ws, es, acts, n);
    WorldChain(l, ws, es, acts, i);
    SuspendedElsewhere(l, ws, es, acts, i, j, me, n);
    WorldSafe(l, ws, es, acts, n);
    assert WorldStepAt(l, ws, es, acts, n);
    OthersKeep(l, ws[n], es[n], acts[n], ws[n + 1], Frames(l, Configs(ws), es, n), me);
  }

  lemma {:induction false} SuspendedUpTo(l: Layout, ws: seq<World>, es: seq<Event>, acts: seq<Action>,
                                         i: nat, j: nat, me: nat, n: nat)
    requires Suspended(l, ws, es, acts, i, j, me) && i <= n <= j + 1 && me in ws[i].ranges
    ensures ws[n].ranges == ws[i].ranges
    ensures MemoryKept(ws[i], ws[n], ws[i].ranges[me], ws[n].handed)
    decreases n
  {
    if n > i {
      SuspendedUpTo(l, ws, es, acts, i, j, me, n - 1);
      SuspendedStep(l, ws, es, acts, i, j, me, n - 1);
      MemoryKeptTrans(ws[i], ws[n - 1], ws[n], ws[i].ranges[me]);
    }
  }

  // The main result: between a compartment's call and its return, its memory changes at most at
  // addresses that have been handed out by then, and in the contents of files that it has mapped
  // shared.  Its capabilities in memory survive with it.
  lemma SuspendedMemoryKept(l: Layout, ws: seq<World>, es: seq<Event>, acts: seq<Action>, i: nat, j: nat, me: nat)
    requires Suspended(l, ws, es, acts, i, j, me)
    ensures me in ws[i].ranges
    ensures MemoryKept(ws[i], ws[j + 1], ws[i].ranges[me], ws[j + 1].handed)
  {
    WorldChain(l, ws, es, acts, i);
    SuspendedUpTo(l, ws, es, acts, i, j, me, j + 1);
  }

  // What CompartmentCallImpl() relies on: words that the caller saved on its stack, relative to its
  // stack pointer, are read back unchanged after the call, through the same stack pointer.
  lemma SavedRegistersSurvive(l: Layout, ws: seq<World>, es: seq<Event>, acts: seq<Action>,
                              i: nat, j: nat, me: nat, offset: nat, size: nat)
    requires Suspended(l, ws, es, acts, i, j, me) && me in ws[i].ranges
    requires var slots := ws[i].c.s.rcsp.addr + offset;
      forall a: nat :: slots <= a < slots + size ==>
        ws[i].ranges[me].Contains(a) && a !in ws[j + 1].handed && a !in ws[i].shared
    ensures ws[j + 1].c.s.rcsp == ws[i].c.s.rcsp
    ensures var slots := ws[j + 1].c.s.rcsp.addr + offset;
      SameWithin(ws[i].mem, ws[j + 1].mem, slots, slots + size)
  {
    SuspendedMemoryKept(l, ws, es, acts, i, j, me);
    CallReturn(l, Configs(ws), es, i, j);
    assert Configs(ws)[j + 1].s == ws[j + 1].c.s && Configs(ws)[i].s == ws[i].c.s;
    forall a: nat {:trigger SameAt(ws[i].mem, ws[j + 1].mem, a)}
      | ws[i].c.s.rcsp.addr + offset <= a < ws[i].c.s.rcsp.addr + offset + size
      ensures SameAt(ws[i].mem, ws[j + 1].mem, a)
    {
      assert ws[i].ranges[me].Contains(a);
      assert KeptAt(ws[i], ws[j + 1], a);
    }
  }

  // --- What the steps of the system are --------------------------------------------------------

  // A capability that can store at a.
  predicate Stores(c: Cap, a: nat) {
    c.tag && STORE in c.perms && c.base <= a < c.limit
  }

  // A step hands out exactly what the six arguments of a call, the result of a return, or a capability
  // that a compartment moves across the bounds of its own range can store to.
  lemma HandedExactly(l: Layout, w: World, e: Event, act: Action, w': World, a: nat)
    requires WorldStep(l, w, e, act, w')
    ensures e.Call? ==> (a in w'.handed <==> a in w.handed || exists i :: 1 <= i <= 6 && Stores(w.c.s.regs[i], a))
    ensures e.Return? ==> (a in w'.handed <==> a in w.handed || Stores(w.c.s.regs[0], a))
    ensures e.Compute? && act.StoreCapability? ==>
      var own := w.ranges[w.chain[|w.chain| - 1]];
      (a in w'.handed <==>
         a in w.handed || (!(own.base <= act.at && act.at + 16 <= own.top) && Stores(act.value, a)))
    ensures e.Compute? && act.LoadCapability? ==>
      var own := w.ranges[w.chain[|w.chain| - 1]];
      (a in w'.handed <==>
         a in w.handed || (!(own.base <= act.at && act.at + 16 <= own.top) && Stores(w.caps[act.at], a)))
    ensures e.Compute? && !act.StoreCapability? && !act.LoadCapability? ==> w'.handed == w.handed
    ensures e.Manage? || e.BeginAdd? || e.FinishAdd? ==> w'.handed == w.handed
  {
    if e.Call? && a in ArgumentAuthority(w.c.s) {
      var i :| 1 <= i <= 6 && a in Authority(w.c.s.regs[i]);
      assert Stores(w.c.s.regs[i], a);
    }
    if e.Call? && exists i :: 1 <= i <= 6 && Stores(w.c.s.regs[i], a) {
      var i :| 1 <= i <= 6 && Stores(w.c.s.regs[i], a);
      ArgumentHanded(w.c.s, i);
      assert w.c.s.regs[i].CanStore(a);
    }
  }

  // Shared are exactly the pages that are mapped from a file with a request to share, until they are
  // mapped again.
  lemma SharedExactly(l: Layout, w: World, e: Event, act: Action, w': World, a: nat)
    requires WorldStep(l, w, e, act, w') && (e.Call? || e.Return? || e.Compute?)
    ensures e.Compute? && act.MapCall? ==>
      (a in w'.shared <==>
         if act.out.addr <= a < act.out.addr + RoundUp(act.r.length, act.h.pageSize)
         then act.r.Map? && act.r.shared && act.r.src.File? else a in w.shared)
    ensures !(e.Compute? && act.MapCall?) ==> w'.shared == w.shared
  {
  }

  // A store of data changes exactly its bytes, but for shared pages, whose contents may change anyway, and
  // no protection.
  lemma StoreExactly(l: Layout, w: World, act: Action, w': World, a: nat)
    requires WorldStep(l, w, Compute, act, w') && act.StoreData?
    ensures a in w'.mem <==> a in w.mem
    ensures a in w.mem ==> w'.mem[a].prot == w.mem[a].prot
    ensures a in w.mem && a !in w.shared ==>
      w'.mem[a].value == if act.at <= a < act.at + |act.data| then act.data[a - act.at] else w.mem[a].value
  {
    assert a in Stored(w.mem, act.at, act.data) <==> a in w.mem;
  }

  // The sixteen bytes from g on and the n bytes from at on have none in common.
  predicate MissesGranule(g: nat, at: nat, n: nat) {
    g + 16 <= at || at + n <= g
  }

  // Capabilities in memory survive exactly where nothing is stored and nothing is mapped.
  lemma CapabilitiesExactly(l: Layout, w: World, act: Action, w': World, g: nat)
    requires WorldStep(l, w, Compute, act, w')
    ensures act.StoreData? ==> (g in w'.caps <==> g in w.caps && MissesGranule(g, act.at, |act.data|))
    ensures act.StoreCapability? ==>
      (g in w'.caps <==> g == act.at || (g in w.caps && MissesGranule(g, act.at, 16)))
    ensures act.MapCall? ==>
      (g in w'.caps <==>
         && g in w.caps && MissesGranule(g, act.out.addr, RoundUp(act.r.length, act.h.pageSize))
         && (act.r.Unmap? || act.r.fixed || MissesGranule(g, act.h.topVar, 8)))
    ensures act.Derive? || act.LoadCapability? ==> w'.caps == w.caps
    ensures g in w'.caps ==>
      w'.caps[g] == if act.StoreCapability? && g == act.at then act.value else w.caps[g]
  {
    if act.MapCall? {
      GrantStaysIn(act.h, act.r, act.out, act.h', w.ranges[w.chain[|w.chain| - 1]]);
      CapsAfterExactly(w.caps, act.h, act.r, act.out.addr, g);
    }
  }

  lemma CapsAfterExactly(caps: map<nat, Cap>, h: Heap, r: Request, addr: nat, g: nat)
    requires h.pageSize > 0
    ensures g in CapsAfter(caps, h, r, addr) <==>
      && g in caps && MissesGranule(g, addr, RoundUp(r.length, h.pageSize))
      && (r.Unmap? || r.fixed || MissesGranule(g, h.topVar, 8))
    ensures g in CapsAfter(caps, h, r, addr) ==> CapsAfter(caps, h, r, addr)[g] == caps[g]
  {
  }

  // Outside of an initialization the system admits every call that the switcher completes.
  lemma CallPossible(l: Layout, w: World) returns (w': World)
    requires w.c.phase == Idle && Switched(l, w.c.s).Running?
    ensures WorldStep(l, w, Call, Derive, w') && w'.c.s == Switched(l, w.c.s).s && w'.mem == w.mem
  {
    w' := w.(c := w.c.(s := Switched(l, w.c.s).s, depth := w.c.depth + 1),
             chain := w.chain + [CallTarget(l, w.c.s).id], handed := w.handed + ArgumentAuthority(w.c.s));
  }

  // And every return.
  lemma ReturnPossible(l: Layout, w: World) returns (w': World)
    requires w.c.phase == Idle && w.c.depth > 0 && w.chain != [] && Returned(l, w.c.s).Running?
    ensures WorldStep(l, w, Return, Derive, w') && w'.c.s == Returned(l, w.c.s).s && w'.mem == w.mem
  {
    w' := w.(c := w.c.(s := Returned(l, w.c.s).s, depth := w.c.depth - 1),
             chain := w.chain[..|w.chain| - 1], handed := w.handed + Authority(w.c.s.regs[0]));
  }

  // A compartment runs, and has a range.
  ghost predicate CompartmentRuns(w: World) {
    w.c.depth > 0 && w.chain != [] && w.chain[|w.chain| - 1] in w.ranges
  }

  // The system admits every store of data that CHERI and the page tables allow.
  lemma StorePossible(l: Layout, w: World, via: Cap, at: nat, data: seq<byte>) returns (w': World)
    requires CompartmentRuns(w) && Holds(w.c.s, via) && data != []
    requires via.tag && STORE in via.perms && via.base <= at && at + |data| <= via.limit
    requires forall a :: at <= a < at + |data| ==> a in w.mem && w.mem[a].prot.write
    ensures WorldStep(l, w, Compute, StoreData(via, at, data), w')
    ensures forall i :: 0 <= i < |data| ==> at + i in w'.mem && w'.mem[at + i].value == data[i]
  {
    w' := w.(mem := Stored(w.mem, at, data), caps := Untagged(w.caps, at, at + |data|));
  }

  // And every store of a capability to memory that is not shared.
  lemma StoreCapabilityPossible(l: Layout, w: World, via: Cap, at: nat, value: Cap, encoding: seq<byte>)
    returns (w': World)
    requires CompartmentRuns(w) && Holds(w.c.s, via) && Holds(w.c.s, value) && |encoding| == 16 && at % 16 == 0
    requires via.tag && STORE in via.perms && STORE_CAP in via.perms && via.base <= at && at + 16 <= via.limit
    requires forall a :: at <= a < at + 16 ==> a in w.mem && w.mem[a].prot.write && a !in w.shared
    ensures WorldStep(l, w, Compute, StoreCapability(via, at, value, encoding), w')
    ensures at in w'.caps && w'.caps[at] == value
  {
    var own := w.ranges[w.chain[|w.chain| - 1]];
    w' := w.(mem := Stored(w.mem, at, encoding), caps := Untagged(w.caps, at, at + 16)[at := value],
             handed := HandedIfForeign(w.handed, own, at, value));
  }

  // And every narrower capability in any register, and every integer.
  lemma DerivePossible(l: Layout, w: World, from: Cap, c: Cap, r: nat) returns (w': World)
    requires CompartmentRuns(w) && Holds(w.c.s, from) && r < 31
    requires c.tag ==> from.tag && from.base <= c.base && c.limit <= from.limit && c.perms <= from.perms
    ensures WorldStep(l, w, Compute, Derive, w') && w'.c.s.regs == w.c.s.regs[r := c]
  {
    var s := w.c.s;
    var s' := s.(regs := s.regs[r := c]);
    assert DerivedRegisters(s, s', {}) by {
      forall d | Holds(s', d)
        ensures exists e :: (Holds(s, e) || e in {}) && d.DerivedFrom(e)
      {
        assert Holds(s, d) || d == c;
        assert d.DerivedFrom(if d == c then from else d);
      }
    }
    w' := w.(c := w.c.(s := s'));
  }

  // And every load of a capability, into any register.
  lemma LoadPossible(l: Layout, w: World, via: Cap, at: nat, r: nat) returns (w': World)
    requires CompartmentRuns(w) && Holds(w.c.s, via) && at in w.caps && r < 31
    requires via.tag && LOAD in via.perms && LOAD_CAP in via.perms && via.base <= at && at + 16 <= via.limit
    ensures WorldStep(l, w, Compute, LoadCapability(via, at), w')
    ensures w'.c.s.regs == w.c.s.regs[r := w.caps[at]]
  {
    var own := w.ranges[w.chain[|w.chain| - 1]];
    var s := w.c.s;
    var s' := s.(regs := s.regs[r := w.caps[at]]);
    assert DerivedRegisters(s, s', {w.caps[at]}) by {
      forall c | Holds(s', c)
        ensures exists d :: (Holds(s, d) || d in {w.caps[at]}) && c.DerivedFrom(d)
      {
        assert Holds(s, c) || c in {w.caps[at]};
        assert c.DerivedFrom(c);
      }
    }
    w' := w.(c := w.c.(s := s'), handed := HandedIfForeign(w.handed, own, at, w.caps[at]));
  }

  // And every granted call of the wrappers, while the variables confine the compartment.
  lemma MapPossible(l: Layout, w: World, h: Heap, r: Request, out: MapResult, h': Heap) returns (w': World)
    requires CompartmentRuns(w) && h.mem == w.mem && h.ddc == Range(w.c.s.rddc.base, w.c.s.rddc.limit)
    requires HeapStep(h, r, out, h') && out.Granted? && KeptIn(h, r, w.ranges[w.chain[|w.chain| - 1]])
    ensures WorldStep(l, w, Compute, MapCall(h, r, out, h'), w') && w'.mem == h'.mem
  {
    w' := w.(mem := h'.mem, caps := CapsAfter(w.caps, h, r, out.addr),
             shared := SharedAfter(w.shared, AsMap(r), out.addr, h.pageSize));
  }

  // --- When everything has been handed out -----------------------------------------------------

  // A call with an argument that can store anywhere, as the manager's own requests to enclaves
  // have, hands out the whole address space for the rest of the run.
  lemma BroadArgumentHandsOutAll(l: Layout, ws: seq<World>, es: seq<Event>, acts: seq<Action>, i: nat, arg: nat, n: nat)
    requires WorldRun(l, ws, es, acts) && i < n <= |es| && es[i] == Call && 1 <= arg <= 6
    requires var c := ws[i].c.s.regs[arg]; c.tag && STORE in c.perms && c.base == 0 && c.limit == TWO64
    ensures forall a: nat :: a < TWO64 ==> a in ws[n].handed
  {
    assert WorldStepAt(l, ws, es, acts, i);
    ArgumentHanded(ws[i].c.s, arg);
    assert forall a: nat :: a < TWO64 ==> ws[i].c.s.regs[arg].CanStore(a);
    HandedGrows(l, ws, es, acts, i + 1, n);
  }

  // What has been handed out stays so.
  lemma {:induction false} HandedGrows(l: Layout, ws: seq<World>, es: seq<Event>, acts: seq<Action>, i: nat, n: nat)
    requires WorldRun(l, ws, es, acts) && i <= n <= |es|
    ensures ws[i].handed <= ws[n].handed
    decreases n
  {
    if i < n {
      HandedGrows(l, ws, es, acts, i, n - 1);
      assert WorldStepAt(l, ws, es, acts, n - 1);
    }
  }
}
