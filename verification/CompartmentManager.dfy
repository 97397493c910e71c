/** Adding a compartment (src/compartment-manager/compartment_manager.cpp, CompartmentAdd): building its
    capabilities, running its initialization through the switcher, and finalizing its descriptor. */
module CompartmentManager {
  import opened Wrappers
  import opened Words
  import opened Ranges
  import opened AddressSpaces
  import opened MemoryWords
  import opened Capabilities
  import opened Switcher
  import opened SwitchRuns
  import opened ElfFormat
  import opened InitialStack
  import opened CompartmentLoader

  // The manager's DDC spans the address space with all permissions.
  const CM_DDC := Cap(true, 0, 0, TWO64, {LOAD, LOAD_CAP, STORE, STORE_CAP, EXECUTE, EXECUTIVE})

  const DATA_PERMS: set<Perm> := {LOAD, LOAD_CAP, STORE, STORE_CAP}
  const EXEC_PERMS: set<Perm> := {EXECUTE}

  // The three capabilities that a compartment's descriptor is made of.
  function DdcFor(reserved: Range): Cap
    requires reserved.base <= reserved.top && reserved.base < TWO64
  {
    SetPerms(SetBounds(CM_DDC, reserved.base, reserved.top - reserved.base), DATA_PERMS)
  }

  function EntryFor(executable: Range, at: u64): Cap
    requires executable.base < TWO64
  {
    SetPerms(SetAddress(SetBounds(CM_DDC, executable.base, executable.Size()), at), EXEC_PERMS)
  }

  function InitialDescriptor(sp: u64, reserved: Range, executable: Range, start: u64): Compartment
    requires reserved.base <= reserved.top && reserved.base < TWO64 && executable.base < TWO64
  {
    Compartment(IntCap(sp), DdcFor(reserved), NULL_CAP, EntryFor(executable, start), true)
  }

  // CheckSpWithinStackBounds, as CompartmentAdd calls it: relative to the initial SP, not to the
  // top of the mapped stack.
  predicate SpAccepted(sp: nat, initialSp: nat) {
    Range(Sub64(initialSp, STACK_SIZE), initialSp).Contains(sp)
  }

  // The initial SP is below the top of the stack, so the window of accepted SPs never is the mapped
  // stack [top - STACK_SIZE, top): every accepted SP is below the initial one, every mapped address
  // below the initial SP is accepted, and so are the addresses below the stack by as much as the
  // initial SP is below its top.
  lemma SpWindowExact(top: nat, args: seq<seq<byte>>, env: seq<seq<byte>>, sp: nat)
    requires STACK_SIZE <= top < TWO64 && STACK_SIZE <= FinalSp(top, args, env)
    ensures FinalSp(top, args, env) < top
    ensures SpAccepted(sp, FinalSp(top, args, env)) <==>
            top - STACK_SIZE - (top - FinalSp(top, args, env)) <= sp < FinalSp(top, args, env)
    ensures SpAccepted(FinalSp(top, args, env) - STACK_SIZE, FinalSp(top, args, env))
    ensures FinalSp(top, args, env) - STACK_SIZE < top - STACK_SIZE
  {
    FinalSpBelowTop(top, args, env);
    assert Sub64(FinalSp(top, args, env), STACK_SIZE) == FinalSp(top, args, env) - STACK_SIZE;
  }

  // --- CompartmentAdd --------------------------------------------------------------------------

  // What the compartment's own initialization code does before it returns: any registers, and any
  // contents of its own range.
  datatype InitRun = InitRun(regs: Registers, pcc: Cap, rcsp: Cap, rddc: Cap, rctpidr: Cap, contents: Memory)

  function Overlaid(m: Memory, range: Range, contents: Memory): Memory {
    (map a | a in m && !range.Contains(a) :: m[a]) + (map a | a in contents && range.Contains(a) :: contents[a])
  }

  lemma OverlaidOutside(m: Memory, range: Range, contents: Memory)
    ensures SameOutside(m, Overlaid(m, range, contents), range.base, range.top)
  {
  }

  // The steps of CompartmentAdd up to the return from initialization.
  ghost predicate InitSteps(l: Layout, cs: seq<Config>, id: nat, desc: Compartment)
    requires |cs| >= 6
  {
    && Step(l, cs[0], BeginAdd(id, desc), cs[1])
    && Step(l, cs[1], Manage, cs[2])
    && Step(l, cs[2], Call, cs[3])
    && Step(l, cs[3], Compute, cs[4])
    && Step(l, cs[4], Return, cs[5])
  }

  // They lead from state s to s'.
  ghost predicate InitTrace(l: Layout, cs: seq<Config>, id: nat, desc: Compartment, s: State, s': State) {
    && |cs| == 6 && cs[0] == Config(s, 0, Idle) && cs[5] == Config(s', 0, Initializing(id))
    && InitSteps(l, cs, id, desc)
  }

  ghost function InitConfigs(id: nat, before: State, begun: State, caller: State, entered: State, running: State,
                             returned: State): seq<Config>
  {
    var p := Initializing(id);
    [Config(before, 0, Idle), Config(begun, 0, p), Config(caller, 0, p), Config(entered, 1, p), Config(running, 1, p),
     Config(returned, 0, p)]
  }

  lemma InitTraceFrom(l: Layout, id: nat, desc: Compartment, before: State, begun: State, caller: State, entered: State,
                      running: State, returned: State)
    requires id < MAX_COMPARTMENTS && desc.updateOnReturn && begun == before.(table := before.table[id := desc])
    requires caller.table == begun.table && CallTarget(l, caller) == To(id) && FRAME_SIZE <= caller.sp
    requires entered == SwitchedTo(l, caller, id) && Confined(entered, running)
    requires Returned(l, running) == Running(returned)
    ensures InitTrace(l, InitConfigs(id, before, begun, caller, entered, running, returned), id, desc, before, returned)
  {
  }

  lemma FinishTrace(l: Layout, cs: seq<Config>, id: nat, desc: Compartment, s: State, s': State, entry: Cap)
    requires InitTrace(l, cs, id, desc, s, s') && id < MAX_COMPARTMENTS
    ensures AddTrace(l, cs + [Config(Finished(s', id, entry), 0, Idle)], id, desc, entry)
  {
  }

  // The steps of CompartmentAdd, as a run of the system.
  ghost predicate AddTrace(l: Layout, cs: seq<Config>, id: nat, desc: Compartment, entry: Cap) {
    && |cs| == 7 && cs[0].depth == 0 && cs[0].phase == Idle
    && InitSteps(l, cs, id, desc) && Step(l, cs[5], FinishAdd(id, entry), cs[6])
  }

  class Manager {
    const cpu: Cpu
    const loader: Loader

    constructor (cpu: Cpu, loader: Loader)
      ensures this.cpu == cpu && this.loader == loader
    {
      this.cpu, this.loader := cpu, loader;
    }

    // CompartmentCallImpl: the ID in c0, the arguments in c1 to c6, the return address in CLR.
    method LoadArguments(id: u64, args: seq<Cap>, returnTo: Cap)
      requires |args| == 6
      modifies cpu`regs
      ensures cpu.regs[0] == IntCap(id) && cpu.regs[CLR] == returnTo
      ensures forall i :: 0 <= i < 6 ==> cpu.regs[i + 1] == args[i]
    {
      cpu.SetReg(0, IntCap(id));
      for i := 0 to 6
        invariant cpu.regs[0] == IntCap(id)
        invariant forall j :: 0 <= j < i ==> cpu.regs[j + 1] == args[j]
      {
        cpu.SetReg(i + 1, args[i]);
      }
      cpu.SetReg(CLR, returnTo);
    }

    // The call of CompartmentCall(id), up to the first instruction of the compartment; caller is the
    // state in which the switcher was entered.
    method EnterCompartment(id: nat, returnTo: Cap) returns (ok: bool, ghost caller: State)
      requires cpu.Valid() && id < MAX_COMPARTMENTS && cpu.table[id].entryPoint.tag
      modifies cpu
      ensures ok <==> cpu.layout.stackLow + FRAME_SIZE <= old(cpu.sp)
      ensures caller.table == old(cpu.table) && caller.sp == old(cpu.sp)
      ensures ok ==> CallTarget(cpu.layout, caller) == To(id) && FRAME_SIZE <= caller.sp
      ensures ok ==> cpu.Snapshot() == SwitchedTo(cpu.layout, caller, id)
    {
      LoadArguments(id, [NULL_CAP, NULL_CAP, NULL_CAP, NULL_CAP, NULL_CAP, NULL_CAP], returnTo);
      caller := cpu.Snapshot();
      CallReachesCompartment(cpu.layout, caller, id);
      var status := cpu.CompartmentSwitch();
      ok := status == Ok;
    }

    // What the compartment does, and its return.
    method LeaveCompartment(id: nat, init: InitRun, ghost caller: State) returns (ghost running: State)
      requires cpu.Valid() && id < MAX_COMPARTMENTS && CallTarget(cpu.layout, caller) == To(id)
      requires caller.table[id].updateOnReturn && FRAME_SIZE <= caller.sp
      requires cpu.Snapshot() == SwitchedTo(cpu.layout, caller, id)
      modifies cpu
      ensures Confined(old(cpu.Snapshot()), running) && Returned(cpu.layout, running) == Running(cpu.Snapshot())
      ensures cpu.sp == caller.sp
      ensures cpu.table ==
              caller.table[id := caller.table[id].(csp := init.rcsp, ddc := init.rddc, ctpidr := init.rctpidr)]
    {
      RunCompartment(init);
      running := cpu.Snapshot();
      InitializationCaptures(cpu.layout, caller, id, running);
      var status := cpu.CompartmentSwitchReturn();
    }

    // Calls the compartment that is being added, and lets it initialize itself.
    method Initialize(id: nat, returnTo: Cap, init: InitRun, ghost before: State, ghost desc: Compartment)
      returns (ok: bool, ghost cs: seq<Config>)
      requires cpu.Valid() && id < MAX_COMPARTMENTS && desc.updateOnReturn && desc.entryPoint.tag
      requires cpu.Snapshot() == before.(table := before.table[id := desc])
      modifies cpu
      ensures ok <==> cpu.layout.stackLow + FRAME_SIZE <= before.sp
      ensures ok ==> InitTrace(cpu.layout, cs, id, desc, before, cpu.Snapshot())
      ensures ok ==> cpu.sp == before.sp
      ensures ok ==>
        cpu.table == before.table[id := desc.(csp := init.rcsp, ddc := init.rddc, ctpidr := init.rctpidr)]
    {
      ghost var begun := cpu.Snapshot();
      ghost var caller;
      ok, caller := EnterCompartment(id, returnTo);
      if !ok {
        return ok, [];
      }
      ghost var entered := cpu.Snapshot();
      ghost var running := LeaveCompartment(id, init, caller);
      cs := InitConfigs(id, before, begun, caller, entered, running, cpu.Snapshot());
      InitTraceFrom(cpu.layout, id, desc, before, begun, caller, entered, running, cpu.Snapshot());
    }

    // The registers that compartment code can change.
    method RunCompartment(init: InitRun)
      modifies cpu`regs, cpu`pcc, cpu`rcsp, cpu`rddc, cpu`rctpidr
      ensures cpu.regs == init.regs && cpu.pcc == init.pcc
      ensures cpu.rcsp == init.rcsp && cpu.rddc == init.rddc && cpu.rctpidr == init.rctpidr
    {
      cpu.regs, cpu.pcc := init.regs, init.pcc;
      cpu.rcsp, cpu.rddc, cpu.rctpidr := init.rcsp, init.rddc, init.rctpidr;
    }

    // Reads, places and fills the compartment, and gives it its return capability.
    method Admit(input: ElfInput, names: SymbolNames, start: Start, length: nat, retCap: seq<byte>)
      returns (pr: Option<Prepared>, ghost image: Memory)
      requires IsPageSize(loader.space.pageSize) && ConformingInput(input, loader.space.pageSize)
      requires RoomFor(input, length, loader.space.pageSize) && start.Valid() && |retCap| == 16
      modifies loader.space
      ensures pr.Some? ==>
        EnteredWith(old(loader.space.mem), image, loader.space.mem, pr.value, input, length, loader.space.pageSize,
                    start, retCap)
      ensures pr.Some? ==>
        && CanLoad(input, names, length, loader.space.pageSize, loader.lowest, cpu.table, start)
        && SymbolsFound(input.symbols.value, names, Loads(input.phs, loader.space.pageSize), pr.value.Syms())
      ensures pr.None? ==>
        || !CanLoad(input, names, length, loader.space.pageSize, loader.lowest, cpu.table, start)
        || loader.space.refusals > old(loader.space.refusals)
    {
      ghost var before := loader.space.mem;
      pr, image := loader.Load(input, names, cpu.table, length, start);
      if pr.Some? {
        ghost var filled := loader.space.mem;
        var stored := loader.StoreOrFault(pr.value.retVar, retCap);
        EnteredAfter(before, image, filled, loader.space.mem, pr.value, input, length, loader.space.pageSize,
                     start, retCap);
      }
    }

    // retCap and callCap: the 16 bytes of the two entry capabilities.  A false result is exit(1) or a
    // fault.
    method CompartmentAdd(id: nat, input: ElfInput, names: SymbolNames, start: Start, length: nat,
                          retCap: seq<byte>, callCap: seq<byte>, returnTo: Cap, init: InitRun)
      returns (added: bool, ghost pr: Option<Prepared>, ghost image: Memory, ghost started: Memory,
               ghost cs: seq<Config>)
      requires cpu.Valid() && id < MAX_COMPARTMENTS && !cpu.table[id].entryPoint.tag
      requires IsPageSize(loader.space.pageSize) && ConformingInput(input, loader.space.pageSize)
      requires RoomFor(input, length, loader.space.pageSize) && start.Valid() && |retCap| == |callCap| == 16
      modifies cpu, loader.space
      ensures added <==> pr.Some? && CanLaunch(cpu.layout, old(cpu.sp), started, pr.value, length, init)
      ensures pr.Some? ==>
        && CanLoad(input, names, length, loader.space.pageSize, loader.lowest, old(cpu.table), start)
        && SymbolsFound(input.symbols.value, names, Loads(input.phs, loader.space.pageSize), pr.value.Syms())
      ensures pr.None? ==>
        || !CanLoad(input, names, length, loader.space.pageSize, loader.lowest, old(cpu.table), start)
        || loader.space.refusals > old(loader.space.refusals)
      ensures pr.Some? ==>
        EnteredWith(old(loader.space.mem), image, started, pr.value, input, length, loader.space.pageSize,
                    start, retCap)
      ensures added ==> Launched(cpu.layout, cs, id, pr.value, length, init)
      ensures added ==> cs[0].s == old(cpu.Snapshot()) && cs[6].s == cpu.Snapshot()
      ensures added ==>
        FinishedFrom(started, loader.space.mem, pr.value.Reserved(length), init.contents, pr.value.callVar, callCap)
    {
      var prepared;
      prepared, image := Admit(input, names, start, length, retCap);
      pr, started, cs := prepared, loader.space.mem, [];
      if prepared.None? {
        return false, pr, image, started, cs;
      }
      added, cs := Launch(id, prepared.value, length, callCap, returnTo, init);
    }

    // Steps 3 to 5: capabilities, initialization, and the final descriptor.
    method Launch(id: nat, p: Prepared, length: nat, callCap: seq<byte>, returnTo: Cap, init: InitRun)
      returns (added: bool, ghost cs: seq<Config>)
      requires cpu.Valid() && id < MAX_COMPARTMENTS && |callCap| == 16
      requires p.hull.base + length < TWO64 && p.executable.base < p.executable.top < TWO64
      requires p.sp < TWO64 && p.entry < TWO64
      modifies cpu, loader.space`mem
      ensures added <==> CanLaunch(cpu.layout, old(cpu.sp), old(loader.space.mem), p, length, init)
      ensures added ==> Launched(cpu.layout, cs, id, p, length, init)
      ensures added ==> cs[0].s == old(cpu.Snapshot()) && cs[6].s == cpu.Snapshot()
      ensures added ==>
        FinishedFrom(old(loader.space.mem), loader.space.mem, p.Reserved(length), init.contents, p.callVar, callCap)
    {
      ghost var s := cpu.Snapshot();
      var reserved := p.Reserved(length);
      var desc := DescriptorOf(p, reserved);
      cpu.table := cpu.table[id := desc];
      added, cs := Initialize(id, returnTo, init, s, desc);
      if !added {
        return;
      }
      var entry := EntryFor(p.executable, p.entry);
      if !SpAccepted(cpu.table[id].csp.addr, p.sp) {
        return false, cs;
      }
      ghost var returned := cpu.Snapshot();
      LaunchedAfter(cpu.layout, cs, id, p, length, init, s, returned);
      cpu.table := cpu.table[id := cpu.table[id].(entryPoint := entry, updateOnReturn := false)];
      assert cpu.Snapshot() == Finished(returned, id, entry);
      cs := cs + [Config(cpu.Snapshot(), 0, Idle)];
      added := FinishMemory(reserved, init.contents, p.callVar, callCap);
    }

    // What the compartment's initialization left in its memory, and the call capability.
    method FinishMemory(reserved: Range, contents: Memory, callVar: nat, callCap: seq<byte>) returns (ok: bool)
      modifies loader.space`mem
      ensures ok <==> Writable(Overlaid(old(loader.space.mem), reserved, contents), callVar, |callCap|)
      ensures ok ==> FinishedFrom(old(loader.space.mem), loader.space.mem, reserved, contents, callVar, callCap)
    {
      loader.space.mem := Overlaid(loader.space.mem, reserved, contents);
      ok := loader.StoreOrFault(callVar, callCap);
    }
  }

  // Memory after CompartmentAdd: what initialization left in the reserved range, with the call
  // capability.
  ghost predicate FinishedFrom(started: Memory, now: Memory, reserved: Range, contents: Memory,
                               callVar: nat, callCap: seq<byte>)
  {
    && Writable(Overlaid(started, reserved, contents), callVar, |callCap|)
    && now == Stored(Overlaid(started, reserved, contents), callVar, callCap)
  }

  // The manager's stack has room for a frame, initialization returns with an acceptable stack
  // pointer, and leaves the variable for the call capability writable.
  ghost predicate CanLaunch(l: Layout, sp: u64, m: Memory, pr: Prepared, length: nat, init: InitRun) {
    && l.stackLow + FRAME_SIZE <= sp
    && SpAccepted(init.rcsp.addr, pr.sp)
    && Writable(Overlaid(m, pr.Reserved(length), init.contents), pr.callVar, 16)
  }

  // What a successful CompartmentAdd has done to the processor's state, as a run.
  ghost predicate Launched(l: Layout, cs: seq<Config>, id: nat, pr: Prepared, length: nat, init: InitRun) {
    && |cs| == 7 && id < MAX_COMPARTMENTS
    && pr.executable.base < TWO64 && pr.sp < TWO64 && pr.entry < TWO64 && pr.hull.base < TWO64
    && var reserved := pr.Reserved(length);
    && var entry := EntryFor(pr.executable, pr.entry);
    && AddTrace(l, cs, id, DescriptorOf(pr, reserved), entry)
    && cs[6].s.table == cs[0].s.table[id := Compartment(init.rcsp, init.rddc, init.rctpidr, entry, false)]
    && SpAccepted(init.rcsp.addr, pr.sp)
  }

  function Finished(s: State, id: nat, entry: Cap): State
    requires id < MAX_COMPARTMENTS
  {
    s.(table := s.table[id := s.table[id].(entryPoint := entry, updateOnReturn := false)])
  }

  lemma LaunchedAfter(l: Layout, cs: seq<Config>, id: nat, pr: Prepared, length: nat, init: InitRun,
                      s: State, s': State)
    requires id < MAX_COMPARTMENTS && pr.hull.base + length < TWO64
    requires pr.executable.base < TWO64 && pr.sp < TWO64 && pr.entry < TWO64
    requires var desc := DescriptorOf(pr, pr.Reserved(length));
      && InitTrace(l, cs, id, desc, s, s')
      && s'.table == s.table[id := desc.(csp := init.rcsp, ddc := init.rddc, ctpidr := init.rctpidr)]
    requires SpAccepted(init.rcsp.addr, pr.sp)
    ensures var last := Config(Finished(s', id, EntryFor(pr.executable, pr.entry)), 0, Idle);
      Launched(l, cs + [last], id, pr, length, init)
  {
    FinishTrace(l, cs, id, DescriptorOf(pr, pr.Reserved(length)), s, s',
                EntryFor(pr.executable, pr.entry));
  }

  // CompartmentAdd changes no memory outside of the reserved range.
  lemma AddStaysInReserved(before: Memory, started: Memory, now: Memory, reserved: Range, contents: Memory,
                           callVar: nat, callCap: seq<byte>)
    requires SameOutside(before, started, reserved.base, reserved.top)
    requires FinishedFrom(started, now, reserved, contents, callVar, callCap)
    requires reserved.base <= callVar && callVar + |callCap| <= reserved.top
    ensures SameOutside(before, now, reserved.base, reserved.top)
  {
    var initialized := Overlaid(started, reserved, contents);
    OverlaidOutside(started, reserved, contents);
    SameOutsideTrans(before, started, initialized, reserved.base, reserved.top);
    StoredBytes(initialized, callVar, callCap);
    SameOutsideWider(initialized, now, callVar, callVar + |callCap|, reserved.base, reserved.top);
    SameOutsideTrans(before, initialized, now, reserved.base, reserved.top);
  }

  // The descriptor to initialize with.
  function DescriptorOf(pr: Prepared, reserved: Range): Compartment
    requires reserved.base <= reserved.top && reserved.base < TWO64 && pr.executable.base < TWO64 && pr.sp < TWO64
  {
    InitialDescriptor(pr.sp, reserved, pr.executable, pr.start)
  }

  // --- What an addition leaves ------------------------------------------------------------------

  // The variable holds the call capability; the rest of the range is as initialization left it, and
  // everything else as it was before.
  lemma FinishedContents(started: Memory, now: Memory, reserved: Range, contents: Memory,
                         callVar: nat, callCap: seq<byte>, a: nat)
    requires FinishedFrom(started, now, reserved, contents, callVar, callCap)
    ensures BytesAt(now, callVar, callCap)
    ensures !(callVar <= a < callVar + |callCap|) ==>
      SameAt(if reserved.base <= a < reserved.top then contents else started, now, a)
  {
    StoredBytes(Overlaid(started, reserved, contents), callVar, callCap);
    assert !(callVar <= a < callVar + |callCap|) ==> SameAt(Overlaid(started, reserved, contents), now, a);
  }

  // The launch succeeds exactly if the manager's stack has room for 96 bytes, the stack pointer comes
  // back below the initial one by a megabyte at most, and initialization leaves the variable writable.
  lemma CanLaunchExactly(l: Layout, sp: u64, m: Memory, pr: Prepared, length: nat, init: InitRun)
    requires 0x10_0000 <= pr.sp < TWO64
    ensures CanLaunch(l, sp, m, pr, length, init) <==>
      && l.stackLow + 96 <= sp && pr.sp - 0x10_0000 <= init.rcsp.addr < pr.sp
      && (forall a: nat :: pr.callVar <= a < pr.callVar + 16 && pr.hull.base <= a < pr.hull.base + length ==>
            a in init.contents && init.contents[a].prot.write)
      && (forall a: nat :: pr.callVar <= a < pr.callVar + 16 && !(pr.hull.base <= a < pr.hull.base + length) ==>
            a in m && m[a].prot.write)
  {
    SpAcceptedExactly(init.rcsp.addr, pr.sp);
    OverlaidWritable(m, pr.Reserved(length), init.contents, pr.callVar);
  }

  lemma OverlaidWritable(m: Memory, range: Range, contents: Memory, v: nat)
    ensures Writable(Overlaid(m, range, contents), v, 16) <==>
      && (forall a: nat :: v <= a < v + 16 && range.Contains(a) ==> a in contents && contents[a].prot.write)
      && (forall a: nat :: v <= a < v + 16 && !range.Contains(a) ==> a in m && m[a].prot.write)
  {
    var all := Overlaid(m, range, contents);
    forall a: nat
      ensures range.Contains(a) ==> SameAt(contents, all, a)
      ensures !range.Contains(a) ==> SameAt(m, all, a)
    {
    }
    forall a: nat | v <= a < v + 16
      ensures a in all && all[a].prot.write <==>
              if range.Contains(a) then a in contents && contents[a].prot.write else a in m && m[a].prot.write
    {
      assert SameAt(contents, all, a) || SameAt(m, all, a);
    }
  }

  // --- What a compartment is entered with ------------------------------------------------------

  // Initialization starts at the prepared start address, with the stack pointer that was prepared, no
  // thread pointer, code rights within the executable range and data rights within the reserved range.
  lemma InitializationStarts(l: Layout, cs: seq<Config>, id: nat, pr: Prepared, length: nat, init: InitRun)
    requires Launched(l, cs, id, pr, length, init)
    requires pr.hull.base + length < TWO64 && pr.executable.base < pr.executable.top < TWO64
    ensures var s := cs[3].s;
      && s.pcc == Cap(true, pr.start, pr.executable.base, pr.executable.top, {EXECUTE})
      && s.rddc == Cap(true, pr.hull.base, pr.hull.base, pr.hull.base + length, {LOAD, LOAD_CAP, STORE, STORE_CAP})
      && !s.rcsp.tag && s.rcsp.addr == pr.sp && !s.rctpidr.tag && s.rctpidr.addr == 0
  {
    assert Step(l, cs[2], Call, cs[3]) && CallTarget(l, cs[2].s) == To(id);
    assert cs[2].s.table[id] == DescriptorOf(pr, pr.Reserved(length));
    assert {EXECUTE} == CM_DDC.perms * EXEC_PERMS && DATA_PERMS == CM_DDC.perms * DATA_PERMS;
  }

  lemma SpAcceptedExactly(sp: nat, initialSp: nat)
    requires 0x10_0000 <= initialSp < TWO64
    ensures SpAccepted(sp, initialSp) <==> initialSp - 0x10_0000 <= sp < initialSp
  {
    assert Sub64(initialSp, STACK_SIZE) == initialSp - 0x10_0000;
  }

  // Afterwards the compartment is called at its entry point, with what initialization left in the
  // Restricted bank, and its stack pointer lies below the prepared one, by 1 MiB at most.
  lemma FinalDescriptor(l: Layout, cs: seq<Config>, id: nat, pr: Prepared, length: nat, init: InitRun)
    requires Launched(l, cs, id, pr, length, init)
    requires pr.hull.base + length < TWO64 && pr.executable.base < pr.executable.top < TWO64
    ensures var comp := cs[6].s.table[id];
      && comp.entryPoint == Cap(true, pr.entry, pr.executable.base, pr.executable.top, {EXECUTE})
      && comp.csp == init.rcsp && comp.ddc == init.rddc && comp.ctpidr == init.rctpidr && !comp.updateOnReturn
      && (0x10_0000 <= pr.sp ==> pr.sp - 0x10_0000 <= comp.csp.addr < pr.sp)
    ensures forall k :: 0 <= k < 4094 && k != id ==> cs[6].s.table[k] == cs[0].s.table[k]
  {
    assert {EXECUTE} == CM_DDC.perms * EXEC_PERMS;
    if 0x10_0000 <= pr.sp {
      SpAcceptedExactly(init.rcsp.addr, pr.sp);
    }
  }
}
