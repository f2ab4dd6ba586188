/** While MMR0 is locked, nothing unlocks it, changes its error bits, or changes MMR1 or MMR2,
    but a program's store to MMR0 and the RESET instruction, which always do: until then the
    record of the aborted instruction survives however long the handler runs. Only the page
    field of MMR0 follows odd addresses. */
module Freeze {
  import opened Words
  import opened Bits
  import opened WordSets
  import opened Division
  import opened ProcessorStatus
  import opened Mmu
  import opened Bus
  import opened CpuState
  import opened Arithmetic
  import opened Shifter
  import opened Instructions
  import opened ControlFlow
  import opened Interrupts

  /** `t` is locked and has the record of `s`: MMR1, MMR2, and MMR0 but for its page field,
      bits 3..1. */
  predicate Frozen(s: Cpu, t: Cpu) {
    && t.bus.mmu.Locked()
    && t.bus.mmu.mmr0 / 0x10 == s.bus.mmu.mmr0 / 0x10
    && t.bus.mmu.mmr0 % 2 == s.bus.mmu.mmr0 % 2
    && t.bus.mmu.mmr1 == s.bus.mmu.mmr1
    && t.bus.mmu.mmr2 == s.bus.mmu.mmr2
  }

  predicate Freezes<T>(s: Cpu, o: Outcome<T>) {
    match o
    case Next(_, t) => Frozen(s, t)
    case Aborted(t) => Frozen(s, t)
    case _ => true
  }

  /** An odd address changes the page field only. */
  lemma MarkOddFreezes(mmr0: Word, apf: int)
    requires 0 <= apf < 8
    ensures MarkOdd(mmr0, apf) / 0x10 == mmr0 / 0x10 && MarkOdd(mmr0, apf) % 2 == mmr0 % 2
    ensures MarkOdd(mmr0, apf) / 0x2000 == mmr0 / 0x2000
  {
    var low := apf * 2 + mmr0 % 2;
    QuotientIs(mmr0 / 0x10 * 0x10 + low, 0x10, mmr0 / 0x10, low);
    QuotientIs(mmr0 / 0x10 * 0x10 + low, 2, mmr0 / 0x10 * 8 + apf, mmr0 % 2);
    QuotientIs(mmr0 / 0x10 * 0x10 + low, 0x2000, mmr0 / 0x2000, mmr0 / 0x10 % 0x200 * 0x10 + low);
  }

  lemma AccessFreezes(s: Cpu, t: Cpu, address: Word, width: Width, value: Word, space: Space)
    requires Frozen(s, t)
    ensures Freezes(s, Load(t, address, width, space))
    ensures Freezes(s, Store(t, address, width, value, space))
  {
    hide MarkOdd, Translate;
    MarkOddFreezes(t.bus.mmu.mmr0, address / 0x2000);
    TranslateFreezes(t.bus.mmu, t.psw.mode, address, t.bus.mmu.Effective(t.psw.mode, space));
  }

  /** A refused access finds the record made. */
  lemma TranslateFreezes(m: MmuState, mode: Mode, address: Word, space: Space)
    requires m.Locked()
    ensures match Translate(m, mode, address, false, space)
            case Fault(mmr0) => mmr0 == m.mmr0
            case Physical(_, page) => LockForBounds(m, page) == m.mmr0
  {
  }

  lemma BumpFreezes(s: Cpu, t: Cpu, nr: RegNr, delta: int)
    requires Frozen(s, t)
    ensures Frozen(s, Bump(t, nr, delta))
  {
  }

  lemma GamFreezes(s: Cpu, t: Cpu, mode: int, nr: RegNr, width: Width, wanted: bool)
    requires Frozen(s, t) && 0 <= mode < 8
    ensures Freezes(s, GetGam(t, mode, nr, width, wanted))
  {
    hide Load, Bump, GetGam;
    var frozen := (u: Cpu) => Frozen(s, u);
    forall u, address, width, space | frozen(u) ensures Ends(frozen, frozen, Load(u, address, width, space)) {
      AccessFreezes(s, u, address, width, 0, space);
    }
    forall u, nr, delta | frozen(u) ensures frozen(Bump(u, nr, delta)) {
      BumpFreezes(s, u, nr, delta);
    }
    GamKeeps(frozen, frozen, frozen, t, mode, nr, width, wanted);
  }

  lemma PutFreezes(s: Cpu, t: Cpu, g: Gam, value: Word)
    requires Frozen(s, t)
    ensures Freezes(s, PutGam(t, g, value))
  {
    hide Store, Load;
    if g.place.AtAddress? {
      AccessFreezes(s, t, g.place.address, g.width, value, g.space);
    }
  }

  /** Both operands of a two-operand instruction, and a result for the second. */
  lemma OperandsFreeze(s: Cpu, t: Cpu, instr: Word, width: Width, wanted: bool)
    requires Frozen(s, t)
    ensures var o := GetGam(t, SrcMode(instr), SrcReg(instr), width, true);
            Freezes(s, o)
            && (o.Next? ==>
                  var p := GetGam(o.cpu, DstMode(instr), DstReg(instr), width, wanted);
                  Freezes(s, p) && (p.Next? ==> forall value :: Freezes(s, PutGam(p.cpu, p.value, value))))
  {
    hide Frozen, GetGam, PutGam;
    GamFreezes(s, t, SrcMode(instr), SrcReg(instr), width, true);
    var o := GetGam(t, SrcMode(instr), SrcReg(instr), width, true);
    if o.Next? {
      OperandFreezes(s, o.cpu, instr, width, wanted);
    }
  }

  lemma OperandFreezes(s: Cpu, t: Cpu, instr: Word, width: Width, wanted: bool)
    requires Frozen(s, t)
    ensures var p := GetGam(t, DstMode(instr), DstReg(instr), width, wanted);
            Freezes(s, p) && (p.Next? ==> forall value :: Freezes(s, PutGam(p.cpu, p.value, value)))
  {
    hide Frozen, GetGam, PutGam;
    GamFreezes(s, t, DstMode(instr), DstReg(instr), width, wanted);
    var p := GetGam(t, DstMode(instr), DstReg(instr), width, wanted);
    if p.Next? {
      forall value ensures Freezes(s, PutGam(p.cpu, p.value, value)) {
        PutFreezes(s, p.cpu, p.value, value);
      }
    }
  }

  lemma TwoOperandFreezes(s: Cpu, t: Cpu, instr: Word)
    requires Frozen(s, t)
    ensures Freezes(s, Mov(t, instr)) && Freezes(s, CmpBit(t, instr)) && Freezes(s, BicBis(t, instr))
  {
    hide GetGam, PutGam, And, Or, Negative, Compare;
    OperandsFreeze(s, t, instr, WidthOf(instr), false);
    OperandsFreeze(s, t, instr, WidthOf(instr), true);
  }

  lemma SumFreezes(s: Cpu, t: Cpu, instr: Word)
    requires Frozen(s, t)
    ensures Freezes(s, Sum(t, instr))
  {
    hide GetGam, PutGam;
    OperandsFreeze(s, t, instr, WordWide, true);
  }

  lemma MulDivFreeze(s: Cpu, t: Cpu, instr: Word)
    requires Frozen(s, t)
    ensures Freezes(s, Mul(t, instr)) && Freezes(s, Div(t, instr))
  {
    hide GetGam, PutGam, Multiply, Divide, OddHalf;
    OperandFreezes(s, t, instr, WordWide, true);
  }

  lemma ShiftsFreeze(s: Cpu, t: Cpu, instr: Word)
    requires Frozen(s, t)
    ensures Freezes(s, Ash(t, instr)) && Freezes(s, Ashc(t, instr))
  {
    hide GetGam, PutGam, Shifted, Trim, ShiftFlags, LongReg, OddHalf;
    OperandFreezes(s, t, instr, WordWide, true);
  }

  lemma OneOperandFreezes(s: Cpu, t: Cpu, instr: Word, subtract: bool)
    requires Frozen(s, t)
    ensures Freezes(s, ExclusiveOr(t, instr)) && Freezes(s, Carry(t, instr, subtract))
  {
    hide GetGam, PutGam, Xor, Negative;
    OperandFreezes(s, t, instr, WordWide, true);
    OperandFreezes(s, t, instr, WidthOf(instr), true);
  }

  lemma ExecuteFreezes(s: Cpu, t: Cpu, instr: Word)
    requires Frozen(s, t)
    ensures Freezes(s, Execute(t, instr))
  {
    hide Mov, CmpBit, BicBis, Sum, ExclusiveOr, Carry, Mul, Div, Ash, Ashc, BranchTaken;
    TwoOperandFreezes(s, t, instr);
    SumFreezes(s, t, instr);
    MulDivFreeze(s, t, instr);
    ShiftsFreeze(s, t, instr);
    OneOperandFreezes(s, t, instr, false);
    OneOperandFreezes(s, t, instr, true);
  }

  lemma StepFreezes(s: Cpu, t: Cpu)
    requires Frozen(s, t)
    ensures Freezes(s, Step(t))
  {
    hide Execute, Load;
    AccessFreezes(s, t, t.regs.pc, WordWide, 0, ISpace);
    var o := Load(t, t.regs.pc, WordWide, ISpace);
    if o.Next? {
      ExecuteFreezes(s, o.cpu.AddReg(PC, 2), o.value);
    }
  }

  // --- Calls, returns, traps and the interrupt scan ---

  lemma PushFreezes(s: Cpu, t: Cpu, value: Word)
    requires Frozen(s, t)
    ensures Freezes(s, PushStack(t, value))
  {
    hide Store, Load;
    var t1 := t.AddReg(SP, -2);
    AccessFreezes(s, t1, t1.Reg(SP), WordWide, value, DSpace);
  }

  lemma PopFreezes(s: Cpu, t: Cpu)
    requires Frozen(s, t)
    ensures Freezes(s, PopStack(t))
  {
    hide Load;
    AccessFreezes(s, t, t.Reg(SP), WordWide, 0, DSpace);
  }

  lemma LogFreezes(s: Cpu, t: Cpu, nr: RegNr, delta: int)
    requires Frozen(s, t)
    ensures Frozen(s, Log(t, nr, delta))
  {
  }

  lemma CallFreezes(s: Cpu, t: Cpu, link: RegNr, target: Word)
    requires Frozen(s, t)
    ensures Freezes(s, Jsr(t, link, target)) && Freezes(s, Rts(t, link))
  {
    hide PushStack, Log, Load;
    PushFreezes(s, t, t.Reg(link));
    var o := PushStack(t, t.Reg(link));
    if o.Next? {
      LogFreezes(s, o.cpu, SP, -2);
    }
    var t1 := t.WithReg(PC, t.Reg(link));
    AccessFreezes(s, t1, t1.Reg(SP), WordWide, 0, DSpace);
  }

  lemma RtiFreezes(s: Cpu, t: Cpu)
    requires Frozen(s, t)
    ensures Freezes(s, Rti(t))
  {
    hide PopStack, SetPsw;
    PopFreezes(s, t);
    var o := PopStack(t);
    if o.Next? {
      PopFreezes(s, o.cpu.WithReg(PC, o.value));
    }
  }

  /** The two words a trap pushes. */
  lemma PushesFreeze(s: Cpu, t: Cpu, first: Word, second: Word)
    requires Frozen(s, t)
    ensures Freezes(s, PushStack(t, first))
    ensures PushStack(t, first).Next? ==> Freezes(s, PushStack(PushStack(t, first).cpu, second))
  {
    hide PushStack;
    PushFreezes(s, t, first);
    if PushStack(t, first).Next? {
      PushFreezes(s, PushStack(t, first).cpu, second);
    }
  }

  lemma TrapFreezes(s: Cpu, t: Cpu, vector: Word, ipl: Option<Level>)
    requires Frozen(s, t)
    ensures Freezes(s, Trap(t, vector, ipl))
  {
    hide Load, PushStack, EntryPsw;
    var space := if t.bus.mmu.UseDataSpace(KERNEL) then DSpace else ISpace;
    AccessFreezes(s, InKernel(t), vector, WordWide, 0, space);
    var o := Load(InKernel(t), vector, WordWide, space);
    if o.Next? {
      var t1 := o.cpu.WithReg(PC, o.value);
      AccessFreezes(s, t1, Wrap(vector + 2), WordWide, 0, space);
      var p := Load(t1, Wrap(vector + 2), WordWide, space);
      if p.Next? {
        PushesFreeze(s, p.cpu.(psw := EntryPsw(p.value, t.psw, ipl)), t.psw.Encode(), t.regs.pc);
      }
    }
  }

  lemma ExecutePendingFreezes(s: Cpu, t: Cpu)
    requires Frozen(s, t)
    ensures Freezes(s, ExecutePending(t))
  {
    hide Trap;
    var r := Pick(t.queue, t.psw.priority);
    if r.Some? {
      var vector := First(t.queue[r.value]);
      TrapFreezes(s, t.(anyQueued := true, queue := Dequeue(t.queue, r.value, vector)), vector, r);
    }
  }

  lemma PollFreezes(s: Cpu, t: Cpu)
    requires Frozen(s, t)
    ensures Freezes(s, Poll(t))
  {
    hide Trap, ExecutePending;
    var t1 := t.(anyQueued := false);
    match t.delayedTrap
    case None =>
      ExecutePendingFreezes(s, t1);
    case Some(vector) =>
      TrapFreezes(s, t1, vector, Some(7));
      var o := Trap(t1, vector, Some(7));
      if o.Next? {
        ExecutePendingFreezes(s, o.cpu.(delayedTrap := None));
      }
  }

  // --- Whole runs ---

  /** What the processor does: whole instructions of the modelled set, the interrupt scan,
      traps, and the pieces every other instruction is made of - its fetch, its operands, its
      result, and calls and returns; and what reaches MMR0 through the I/O page. */
  datatype Event =
    | Instruction
    | Scan
    | Enter(vector: Word, ipl: Option<Level>)
    | Fetched
    | Operand(mode: nat, nr: RegNr, width: Width, wanted: bool)
    | Result(to: Gam, value: Word)
    | Called(link: RegNr, target: Word)
    | ReturnTo(link: RegNr)
    | FromInterrupt
    | StoreMmr0(value: Word)
    | StoreMmr0Byte(high: bool, part: Byte)
    | Reset

  function Void<T>(o: Outcome<T>): Outcome<()> {
    match o
    case Next(_, t) => Next((), t)
    case Aborted(t) => Aborted(t)
    case Device => Outcome.Device
    case Halted => Halted
  }

  function Does(s: Cpu, e: Event): Outcome<()> {
    match e
    case Instruction => Step(s)
    case Scan => Poll(s)
    case Enter(vector, ipl) => Trap(s, vector, ipl)
    case Fetched => Void(Load(StartInstruction(s), s.regs.pc, WordWide, ISpace))
    case Operand(mode, nr, width, wanted) => Void(GetGam(s, mode % 8, nr, width, wanted))
    case Result(to, value) => PutGam(s, to, value)
    case Called(link, target) => Jsr(s, link, target)
    case ReturnTo(link) => Rts(s, link)
    case FromInterrupt => Rti(s)
    case StoreMmr0(value) => Next((), WithMmr0(s, ProgramStore(s.bus.mmu.mmr0, value)))
    case StoreMmr0Byte(high, part) =>
      var mmr0 := s.bus.mmu.mmr0;
      var value := if high then mmr0 % 0x100 + part * 0x100 else mmr0 / 0x100 * 0x100 + part;
      Next((), WithMmr0(s, ProgramStore(mmr0, value)))
    case Reset => Next((), if s.psw.mode == KERNEL then ResetMmu(s) else s)
  }

  function WithMmr0(s: Cpu, mmr0: Word): Cpu {
    s.(bus := s.bus.(mmu := s.bus.mmu.(mmr0 := mmr0)))
  }

  /** What RESET does to memory management; outside kernel mode it does nothing. */
  function ResetMmu(s: Cpu): Cpu {
    s.(bus := s.bus.(mmu := MmuState(seq(PAGES, i => Page(0, 0)), 0, 0, 0, 0)))
  }

  /** A program's store to MMR0, or RESET. */
  predicate Releases(s: Cpu, e: Event) {
    e.StoreMmr0? || e.StoreMmr0Byte? || (e.Reset? && s.psw.mode == KERNEL)
  }

  predicate SameRecord(t: Cpu, u: Cpu) {
    u.bus.mmu.mmr0 == t.bus.mmu.mmr0 && u.bus.mmu.mmr1 == t.bus.mmu.mmr1 && u.bus.mmu.mmr2 == t.bus.mmu.mmr2
  }

  /** From `s` over an event, finished or aborted, to `u`: in between, registers, status word,
      RAM, page tables and interrupt queue may become anything. */
  predicate Successor(s: Cpu, e: Event, u: Cpu) {
    match Does(s, e)
    case Next(_, t) => SameRecord(t, u)
    case Aborted(t) => SameRecord(t, u)
    case _ => false
  }

  /** A run without a release. */
  ghost predicate Runs(s: Cpu, t: Cpu, events: seq<Event>)
    decreases events
  {
    if events == [] then s == t
    else !Releases(s, events[0]) && exists u: Cpu :: Successor(s, events[0], u) && Runs(u, t, events[1..])
  }

  lemma EventFreezes(s: Cpu, e: Event)
    requires Frozen(s, s) && !Releases(s, e)
    ensures Freezes(s, Does(s, e))
  {
    hide Step, Poll, Trap, Load, GetGam, PutGam, Jsr, Rts, Rti, Frozen;
    match e
    case Instruction => StepFreezes(s, s);
    case Scan => PollFreezes(s, s);
    case Enter(vector, ipl) => TrapFreezes(s, s, vector, ipl);
    case Fetched => StartFreezes(s);
    case Operand(mode, nr, width, wanted) => GamFreezes(s, s, mode % 8, nr, width, wanted);
    case Result(to, value) => PutFreezes(s, s, to, value);
    case Called(link, target) => CallFreezes(s, s, link, target);
    case ReturnTo(link) => CallFreezes(s, s, link, 0);
    case FromInterrupt => RtiFreezes(s, s);
    case Reset =>
  }

  /** A locked MMR0 is unlocked by exactly two kinds of event. */
  lemma ReleasedExactly(s: Cpu, e: Event)
    requires s.bus.mmu.Locked()
    ensures match Does(s, e)
            case Next(_, t) => !t.bus.mmu.Locked() <==> Releases(s, e)
            case Aborted(t) => t.bus.mmu.Locked() && !Releases(s, e)
            case _ => true
  {
    hide Step, Poll, Trap, Load, GetGam, PutGam, Jsr, Rts, Rti, ProgramStore;
    if Releases(s, e) {
      match e
      case StoreMmr0(value) => StoreUnlocks(s.bus.mmu.mmr0, value);
      case StoreMmr0Byte(high, part) =>
        var mmr0 := s.bus.mmu.mmr0;
        StoreUnlocks(mmr0, if high then mmr0 % 0x100 + part * 0x100 else mmr0 / 0x100 * 0x100 + part);
      case Reset =>
    } else {
      EventFreezes(s, e);
    }
  }

  lemma StartFreezes(s: Cpu)
    requires Frozen(s, s)
    ensures Freezes(s, Load(StartInstruction(s), s.regs.pc, WordWide, ISpace))
  {
    hide Load;
    AccessFreezes(s, s, s.regs.pc, WordWide, 0, ISpace);
  }

  /** The restart information of an abort is intact after any run without a release, however
      long: MMR0 is still locked with the same error bits, and MMR1 and MMR2 are as the abort left them. */
  lemma {:induction false} LockedStaysFrozen(s: Cpu, t: Cpu, events: seq<Event>)
    requires s.bus.mmu.Locked() && Runs(s, t, events)
    ensures Frozen(s, t)
    decreases events
  {
    hide Does;
    if events != [] {
      var u: Cpu :| Successor(s, events[0], u) && Runs(u, t, events[1..]);
      EventFreezes(s, events[0]);
      LockedStaysFrozen(u, t, events[1..]);
    }
  }
}
