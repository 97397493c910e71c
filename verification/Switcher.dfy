/** The compartment switcher (src/compartment-manager/compartment_manager_asm.S).

    State is a snapshot of what the assembly reads and writes.  SwitchedState and ReturnedState say
    in one piece what the two entry points do to it; the class Cpu runs the instructions. */
module Switcher {
  import opened Wrappers
  import opened Words
  import opened Capabilities

  const MAX_COMPARTMENTS: nat := 4094

  // Layout of struct Compartment, in bytes.
  const CSP_OFFSET: nat := 0
  const DDC_OFFSET: nat := 16
  const CTPIDR_OFFSET: nat := 32
  const ENTRY_OFFSET: nat := 48
  const UPDATE_OFFSET: nat := 64
  const COMPARTMENT_SIZE: nat := 80

  // A frame record, and a Compartment struct below it.
  const FRAME_SIZE: nat := 96

  const FP: nat := 29
  const CLR: nat := 30

  datatype Compartment = Compartment(csp: Cap, ddc: Cap, ctpidr: Cap, entryPoint: Cap, updateOnReturn: bool)

  const UNUSED := Compartment(NULL_CAP, NULL_CAP, NULL_CAP, NULL_CAP, false)

  type Registers = r: seq<Cap> | |r| == 31 witness seq(31, _ => NULL_CAP)

  type Table = t: seq<Compartment> | |t| == MAX_COMPARTMENTS witness seq(MAX_COMPARTMENTS, _ => UNUSED)

  type Stack = map<int, Granule>

  // regs: c0 to c30.  sp: the Executive stack pointer.  rcsp, rddc, rctpidr: the Restricted bank.
  // stack: the compartment manager's stack, by granule address.  table: cm_compartments.
  datatype State = State(regs: Registers, pcc: Cap, sp: u64, rcsp: Cap, rddc: Cap, rctpidr: Cap,
                         stack: Stack, table: Table)

  // Dead: the process stopped, through abort() or a fault below the manager's stack.
  // Wild: a descriptor pointer outside the table was used.
  datatype Outcome = Running(s: State) | Dead | Wild

  // The address of cm_compartments and the lowest address of the manager's stack.
  datatype Layout = Layout(tableBase: u64, stackLow: u64) {
    predicate Valid() {
      0 < tableBase && tableBase + COMPARTMENT_SIZE * MAX_COMPARTMENTS < TWO64
    }

    // &cm_compartments[id], in 64-bit arithmetic.
    function DescAddress(id: nat): u64 {
      (tableBase + COMPARTMENT_SIZE * id) % TWO64
    }

    // The table index from k on that an address designates, if any.
    function DescIndexFrom(p: u64, k: nat): (r: Option<nat>)
      requires k <= MAX_COMPARTMENTS
      ensures r.Some? ==> k <= r.value < MAX_COMPARTMENTS && p == tableBase + COMPARTMENT_SIZE * r.value
      ensures r.None? ==> forall i :: k <= i < MAX_COMPARTMENTS ==> p != tableBase + COMPARTMENT_SIZE * i
      decreases MAX_COMPARTMENTS - k
    {
      if k == MAX_COMPARTMENTS then None
      else if p == tableBase + COMPARTMENT_SIZE * k then Some(k)
      else DescIndexFrom(p, k + 1)
    }

    function DescIndex(p: u64): Option<nat> {
      DescIndexFrom(p, 0)
    }

    // A pointer designates table entry k exactly if it is &cm_compartments[k].
    lemma DescIndexExact(p: u64, k: nat)
      requires Valid() && k < MAX_COMPARTMENTS
      ensures DescIndex(p) == Some(k) <==> p == DescAddress(k)
    {
      assert DescAddress(k) == tableBase + COMPARTMENT_SIZE * k;
    }
  }

  function Load(stack: Stack, a: int): Granule {
    if a in stack then stack[a] else Words(0, 0)
  }

  // "cmp comp_id, #MAX_COMPARTMENTS; b.ge" compares signed numbers.
  predicate PassesIdCheck(id: u64) {
    (if id < TWO64 / 2 then id as int else id - TWO64) < MAX_COMPARTMENTS
  }

  // The register file a callee starts with: the arguments, its own entry capability in c24 and the
  // frame pointer; everything else cleared.
  function CalleeRegisters(caller: Registers, entry: Cap, fp: u64): Registers {
    var r: seq<Cap> := seq(31, i requires 0 <= i < 31 =>
      if i < 6 then caller[i + 1] else if i == 24 then entry else if i == FP then IntCap(fp) else NULL_CAP);
    r
  }

  // The register file a caller gets back: the return value, its frame pointer and its CLR.
  function ReturnRegisters(callee: Registers, fp: u64, clr: Cap): Registers {
    var r: seq<Cap> := seq(31, i requires 0 <= i < 31 =>
      if i == 0 then callee[0] else if i == FP then IntCap(fp) else if i == CLR then clr else NULL_CAP);
    r
  }

  // What a call keeps for its return; desc is the address of the descriptor to update then, or 0.
  datatype Context = Context(rcsp: Cap, rddc: Cap, rctpidr: Cap, clr: Cap, fp: u64, desc: u64)

  // A frame laid out like struct Compartment, below a frame record.
  function WithFrame(stack: Stack, sp: int, ctx: Context): Stack {
    var withRecord := stack[sp + COMPARTMENT_SIZE := Words(ctx.fp, ctx.clr.addr)];
    withRecord[sp + CSP_OFFSET := CapGranule(ctx.rcsp)]
              [sp + DDC_OFFSET := CapGranule(ctx.rddc)]
              [sp + CTPIDR_OFFSET := CapGranule(ctx.rctpidr)]
              [sp + ENTRY_OFFSET := CapGranule(ctx.clr)]
              [sp + UPDATE_OFFSET := StoreLow(Load(withRecord, sp + UPDATE_OFFSET), ctx.desc)]
  }

  function FrameAt(stack: Stack, sp: int): Context {
    Context(LoadCap(Load(stack, sp + CSP_OFFSET)),
            LoadCap(Load(stack, sp + DDC_OFFSET)),
            LoadCap(Load(stack, sp + CTPIDR_OFFSET)),
            LoadCap(Load(stack, sp + ENTRY_OFFSET)),
            LoadLow(Load(stack, sp + COMPARTMENT_SIZE)),
            LoadLow(Load(stack, sp + UPDATE_OFFSET)))
  }

  // The compartment that a call in state s goes to, or the reason why there is none.
  datatype Target = To(id: nat) | NoTarget | OutsideTable

  function CallTarget(l: Layout, s: State): Target {
    var id := s.regs[0].addr;
    if s.sp < l.stackLow + FRAME_SIZE || !PassesIdCheck(id) then NoTarget
    else match l.DescIndex(l.DescAddress(id))
      case None => OutsideTable
      case Some(k) => if s.table[k].entryPoint.tag then To(k) else NoTarget
  }

  function CallContext(l: Layout, s: State, id: nat): Context
    requires id < MAX_COMPARTMENTS
  {
    Context(s.rcsp, s.rddc, s.rctpidr, s.regs[CLR], s.regs[FP].addr,
            if s.table[id].updateOnReturn then l.DescAddress(id) else 0)
  }

  // CompartmentSwitch, up to the branch into the compartment.
  function Switched(l: Layout, s: State): Outcome {
    match CallTarget(l, s)
    case NoTarget => Dead
    case OutsideTable => Wild
    case To(id) => Running(SwitchedTo(l, s, id))
  }

  function SwitchedTo(l: Layout, s: State, id: nat): State
    requires FRAME_SIZE <= s.sp && id < MAX_COMPARTMENTS
  {
    var sp := s.sp - FRAME_SIZE;
    var comp := s.table[id];
    s.(regs := CalleeRegisters(s.regs, comp.entryPoint, Add64(sp, COMPARTMENT_SIZE)),
       pcc := comp.entryPoint, sp := sp,
       rcsp := comp.csp, rddc := comp.ddc, rctpidr := comp.ctpidr,
       stack := WithFrame(s.stack, sp, CallContext(l, s, id)))
  }

  // CompartmentSwitchReturn, up to the branch back to the caller.
  function Returned(l: Layout, s: State): Outcome {
    var ctx := FrameAt(s.stack, s.sp);
    var back := s.(regs := ReturnRegisters(s.regs, ctx.fp, ctx.clr), pcc := ctx.clr,
                   sp := Add64(s.sp, FRAME_SIZE),
                   rcsp := ctx.rcsp, rddc := ctx.rddc, rctpidr := ctx.rctpidr);
    if ctx.desc == 0 then Running(back)
    else match l.DescIndex(ctx.desc)
      case None => Wild
      case Some(k) =>
        Running(back.(table := s.table[k := s.table[k].(csp := s.rcsp, ddc := s.rddc, ctpidr := s.rctpidr)]))
  }

  datatype Status = Ok | Died | WentWild

  predicate Reaches(outcome: Outcome, status: Status, now: State) {
    match outcome
    case Running(s) => status == Ok && now == s
    case Dead => status == Died
    case Wild => status == WentWild
  }

  // The processor, executing the switcher's instructions in order.
  class Cpu {
    const layout: Layout
    var regs: Registers
    var pcc: Cap
    var sp: u64
    var rcsp: Cap
    var rddc: Cap
    var rctpidr: Cap
    var stack: Stack
    var table: Table

    ghost predicate Valid()
      reads this
    {
      layout.Valid()
    }

    ghost function Snapshot(): State
      requires Valid()
      reads this
    {
      State(regs, pcc, sp, rcsp, rddc, rctpidr, stack, table)
    }

    // clear_all_registers_except
    method ClearAllRegistersExcept(keep: set<nat>)
      modifies `regs
      ensures forall i: nat :: i < 31 ==> regs[i] == if i in keep then old(regs)[i] else NULL_CAP
    {
      for i := 0 to 31
        invariant forall j: nat :: j < 31 ==> regs[j] == if j < i && j !in keep then NULL_CAP else old(regs)[j]
      {
        if i !in keep {
          SetReg(i, NULL_CAP);
        }
      }
    }

    method SetReg(i: nat, c: Cap)
      requires i < 31
      modifies `regs
      ensures regs == old(regs)[i := c]
    {
      regs := regs[i := c];
    }

    method StoreGranule(a: int, g: Granule)
      modifies `stack
      ensures stack == old(stack)[a := g]
    {
      stack := stack[a := g];
    }

    // sub sp; create_frame_record
    method CreateFrame()
      requires FRAME_SIZE <= sp
      modifies `sp, `stack, `regs
      ensures sp == old(sp) - FRAME_SIZE
      ensures stack == old(stack)[sp + COMPARTMENT_SIZE := Words(old(regs)[FP].addr, old(regs)[CLR].addr)]
      ensures regs == old(regs)[FP := IntCap(Add64(sp, COMPARTMENT_SIZE))]
    {
      sp := sp - FRAME_SIZE;
      StoreGranule(sp + COMPARTMENT_SIZE, Words(regs[FP].addr, regs[CLR].addr));
      SetReg(FP, IntCap(Add64(sp, COMPARTMENT_SIZE)));
    }

    method ShuffleArguments()
      modifies `regs
      ensures regs[9] == IntCap(old(regs)[0].addr)
      ensures forall i :: 0 <= i < 6 ==> regs[i] == old(regs)[i + 1]
      ensures forall i :: 10 <= i < 31 ==> regs[i] == old(regs)[i]
    {
      SetReg(9, IntCap(regs[0].addr));
      SetReg(0, regs[1]);
      SetReg(1, regs[2]);
      SetReg(2, regs[3]);
      SetReg(3, regs[4]);
      SetReg(4, regs[5]);
      SetReg(5, regs[6]);
    }

    // Into c24 to c27 and w11.
    method LoadDescriptor(comp: Compartment)
      modifies `regs
      ensures regs[25] == comp.csp && regs[26] == comp.ddc && regs[27] == comp.ctpidr && regs[24] == comp.entryPoint
      ensures regs[11].addr != 0 <==> comp.updateOnReturn
      ensures forall i :: 0 <= i < 31 && i != 11 && !(24 <= i <= 27) ==> regs[i] == old(regs)[i]
    {
      SetReg(25, comp.csp);
      SetReg(26, comp.ddc);
      SetReg(27, comp.ctpidr);
      SetReg(24, comp.entryPoint);
      SetReg(11, IntCap(if comp.updateOnReturn then 1 else 0));
    }

    // The Restricted bank, CLR and, if w11 is set, the descriptor pointer in x8.
    method SaveContext()
      modifies `regs, `stack
      ensures var at := Load(old(stack), sp + UPDATE_OFFSET);
        stack == old(stack)[sp + CSP_OFFSET := CapGranule(rcsp)]
                           [sp + DDC_OFFSET := CapGranule(rddc)]
                           [sp + CTPIDR_OFFSET := CapGranule(rctpidr)]
                           [sp + ENTRY_OFFSET := CapGranule(old(regs)[CLR])]
                           [sp + UPDATE_OFFSET := StoreLow(at, if old(regs)[11].addr != 0
                                                               then old(regs)[8].addr else 0)]
      ensures forall i :: 0 <= i < 31 && i != 6 && i != 7 && i != 10 ==> regs[i] == old(regs)[i]
    {
      SetReg(6, rcsp);
      SetReg(7, rddc);
      StoreGranule(sp + CSP_OFFSET, CapGranule(regs[6]));
      StoreGranule(sp + DDC_OFFSET, CapGranule(regs[7]));
      SetReg(6, rctpidr);
      StoreGranule(sp + CTPIDR_OFFSET, CapGranule(regs[6]));
      StoreGranule(sp + ENTRY_OFFSET, CapGranule(regs[CLR]));
      SetReg(10, if regs[11].addr != 0 then regs[8] else NULL_CAP);
      StoreGranule(sp + UPDATE_OFFSET, StoreLow(Load(stack, sp + UPDATE_OFFSET), regs[10].addr));
    }

    method EnterCompartment()
      modifies `regs, `pcc, `rcsp, `rddc, `rctpidr
      ensures rcsp == old(regs)[25] && rddc == old(regs)[26] && rctpidr == old(regs)[27]
      ensures pcc == old(regs)[24]
      ensures forall i :: 0 <= i < 31 ==>
        regs[i] == if i < 6 || i == 24 || i == FP then old(regs)[i] else NULL_CAP
    {
      rcsp := regs[25];
      rddc := regs[26];
      rctpidr := regs[27];
      ClearAllRegistersExcept({0, 1, 2, 3, 4, 5, 24, FP});
      pcc := regs[24];
    }

    // adrp, add, madd: x8 points to the descriptor of compartment x9.
    method LocateDescriptor() returns (index: Option<nat>)
      modifies `regs
      ensures regs[8].addr == layout.DescAddress(regs[9].addr)
      ensures index == layout.DescIndex(regs[8].addr)
      ensures forall i :: 0 <= i < 31 && i != 8 && i != 10 ==> regs[i] == old(regs)[i]
    {
      SetReg(8, IntCap(layout.DescAddress(regs[9].addr)));
      SetReg(10, IntCap(COMPARTMENT_SIZE));
      index := layout.DescIndex(regs[8].addr);
    }

    // From the loading of the descriptor on, once its entry point has been found valid.
    method SwitchTo(k: nat, ghost s: State)
      requires Valid() && k < MAX_COMPARTMENTS
      requires sp == s.sp - FRAME_SIZE && rcsp == s.rcsp && rddc == s.rddc && rctpidr == s.rctpidr && table == s.table
      requires stack == s.stack[sp + COMPARTMENT_SIZE := Words(s.regs[FP].addr, s.regs[CLR].addr)]
      requires regs[8].addr == layout.DescAddress(s.regs[0].addr) == layout.DescAddress(k)
      requires regs[FP] == IntCap(Add64(sp, COMPARTMENT_SIZE)) && regs[CLR] == s.regs[CLR]
      requires forall i :: 0 <= i < 6 ==> regs[i] == s.regs[i + 1]
      modifies this
      ensures Snapshot() == SwitchedTo(layout, s, k)
    {
      LoadDescriptor(table[k]);
      SaveContext();
      assert stack == WithFrame(s.stack, sp, CallContext(layout, s, k));
      EnterCompartment();
      assert regs == CalleeRegisters(s.regs, table[k].entryPoint, Add64(sp, COMPARTMENT_SIZE));
    }

    method CompartmentSwitch() returns (status: Status)
      requires Valid()
      modifies this
      ensures Reaches(Switched(layout, old(Snapshot())), status, Snapshot())
    {
      ghost var s := Snapshot();
      if sp < layout.stackLow + FRAME_SIZE {
        return Died;
      }
      CreateFrame();
      ShuffleArguments();
      if !PassesIdCheck(regs[9].addr) {
        return Died;
      }
      var index := LocateDescriptor();
      if index.None? {
        return WentWild;
      }
      if !table[index.value].entryPoint.tag {
        return Died;
      }
      layout.DescIndexExact(regs[8].addr, index.value);
      SwitchTo(index.value, s);
      status := Ok;
    }

    // Into the descriptor that x8 points to.
    method UpdateDescriptor(k: nat)
      requires k < MAX_COMPARTMENTS
      modifies `regs, `table
      ensures table == old(table)[k := old(table)[k].(csp := rcsp, ddc := rddc, ctpidr := rctpidr)]
      ensures forall i :: 0 <= i < 31 && i != 6 && i != 7 ==> regs[i] == old(regs)[i]
    {
      SetReg(6, rcsp);
      SetReg(7, rddc);
      table := table[k := table[k].(csp := regs[6], ddc := regs[7])];
      SetReg(6, rctpidr);
      table := table[k := table[k].(ctpidr := regs[6])];
    }

    method RestoreContext()
      modifies `regs, `sp, `rcsp, `rddc, `rctpidr
      ensures var ctx := FrameAt(stack, old(sp));
        && rcsp == ctx.rcsp && rddc == ctx.rddc && rctpidr == ctx.rctpidr
        && regs[CLR] == ctx.clr && regs[FP] == IntCap(ctx.fp)
      ensures sp == Add64(old(sp), FRAME_SIZE)
      ensures regs[0] == old(regs)[0]
    {
      SetReg(6, LoadCap(Load(stack, sp + CSP_OFFSET)));
      SetReg(7, LoadCap(Load(stack, sp + DDC_OFFSET)));
      rcsp := regs[6];
      rddc := regs[7];
      SetReg(6, LoadCap(Load(stack, sp + CTPIDR_OFFSET)));
      SetReg(CLR, LoadCap(Load(stack, sp + ENTRY_OFFSET)));
      rctpidr := regs[6];
      SetReg(FP, IntCap(LoadLow(Load(stack, sp + COMPARTMENT_SIZE))));
      sp := Add64(sp, FRAME_SIZE);
    }

    method CompartmentSwitchReturn() returns (status: Status)
      requires Valid()
      modifies this
      ensures Reaches(Returned(layout, old(Snapshot())), status, Snapshot())
    {
      SetReg(8, IntCap(LoadLow(Load(stack, sp + UPDATE_OFFSET))));
      if regs[8].addr != 0 {
        var index := layout.DescIndex(regs[8].addr);
        if index.None? {
          return WentWild;
        }
        UpdateDescriptor(index.value);
      }
      RestoreContext();
      ClearAllRegistersExcept({0, FP, CLR});
      pcc := regs[CLR];
      status := Ok;
    }
  }
}
