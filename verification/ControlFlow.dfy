/** Subroutine calls, traps and interrupts (cpu.cpp): JSR/RTS and trap/RTI as a stack
    discipline. Any balanced nesting of them, however deep, brings back what was saved. */
module ControlFlow {
  import opened Words
  import opened ProcessorStatus
  import opened Mmu
  import opened Bus
  import opened CpuState
  import opened Instructions

  // --- The operations ---

  function UseLimit(s: Cpu): Word {
    if s.stackLimit == 0 then 0x100 else s.stackLimit
  }

  function PushUnchecked(s: Cpu, value: Word): Outcome<()> {
    var s1 := s.AddReg(SP, -2);
    Store(s1, s1.Reg(SP), WordWide, value, DSpace)
  }

  /** `push_stack`: in kernel mode below the limit, the yellow zone queues a trap through 4
      for later and the red zone ends the model. */
  function PushStack(s: Cpu, value: Word): Outcome<()> {
    if s.psw.mode == KERNEL && s.Reg(SP) < UseLimit(s) then
      if s.Reg(SP) >= UseLimit(s) - 32 then
        var (_, s1) :- PushUnchecked(s, value);
        Next((), s1.(delayedTrap := Some(4), anyQueued := true))
      else Halted
    else PushUnchecked(s, value)
  }

  function PopStack(s: Cpu): Outcome<Word> {
    var (value, s1) :- Load(s, s.Reg(SP), WordWide, DSpace);
    Next(value, s1.AddReg(SP, 2))
  }

  /** JSR once its destination address is known. */
  function Jsr(s: Cpu, link: RegNr, target: Word): Outcome<()> {
    var (_, s1) :- PushStack(s, s.Reg(link));
    var s2 := Log(s1, SP, -2);
    Next((), s2.WithReg(link, s2.regs.pc).WithReg(PC, target))
  }

  function Rts(s: Cpu, link: RegNr): Outcome<()> {
    var s1 := s.WithReg(PC, s.Reg(link));
    var (word, s2) :- Load(s1, s1.Reg(SP), WordWide, DSpace);
    var s3 := s2.WithReg(link, word);
    Next((), if link != SP then s3.AddReg(SP, 2) else s3)
  }

  function Rti(s: Cpu): Outcome<()> {
    var (pc, s1) :- PopStack(s);
    var (psw, s2) :- PopStack(s1.WithReg(PC, pc));
    Next((), s2.(psw := SetPsw(s2.psw, psw, s2.psw.mode != KERNEL)))
  }

  /** The status word a trap enters with: from the vector, with the mode it left as previous
      mode and, for an interrupt, its priority level. */
  function EntryPsw(word: Word, left: Psw, ipl: Option<Level>): Psw {
    var p := Decode(word).(previous := left.mode);
    match ipl
    case None => p
    case Some(level) => p.(priority := level)
  }

  /** The two words of a vector, the first one into PC; the other one is the value. */
  function FetchVector(s: Cpu, vector: Word): Outcome<Word> {
    var space := if s.bus.mmu.UseDataSpace(KERNEL) then DSpace else ISpace;
    var (pc, s1) :- Load(InKernel(s), vector, WordWide, space);
    Load(s1.WithReg(PC, pc), Wrap(vector + 2), WordWide, space)
  }

  /** `trap` when neither the vector fetch nor a push traps again. */
  function Trap(s: Cpu, vector: Word, ipl: Option<Level>): Outcome<()> {
    var (word, s2) :- FetchVector(s, vector);
    var s3 := s2.(psw := EntryPsw(word, s.psw, ipl));
    var (_, s4) :- PushStack(s3, s.psw.Encode());
    PushStack(s4, s.regs.pc)
  }

  // --- Balanced nesting ---

  /** What runs between two states: ordinary work, and calls and traps with their returns. */
  datatype Flow =
    | End
    | Work(after: Cpu, rest: Flow)
    | Call(link: RegNr, target: Word, body: Flow, rest: Flow)
    | Interrupt(vector: Word, ipl: Option<Level>, body: Flow, rest: Flow)

  /** A value the pending returns rely on: a stack slot or a link register. */
  datatype Pin =
    | Slot(mode: Mode, address: Word, value: Word)
    | Link(index: nat, value: Word)

  predicate Holds(s: Cpu, p: Pin) {
    match p
    case Slot(mode, address, value) =>
      var r := Read(s.bus, mode, address, WordWide, DSpace);
      r.Done? && r.value == value
    case Link(index, value) => index < 12 && s.regs.general[index] == value
  }

  predicate Intact(s: Cpu, live: set<Pin>) {
    forall p :: p in live ==> Holds(s, p)
  }

  /** What ordinary work must leave alone: the stack pointers, mode and register set. */
  predicate Calm(s: Cpu, t: Cpu) {
    && t.regs.sp == s.regs.sp
    && t.psw.mode == s.psw.mode
    && t.psw.registerSet == s.psw.registerSet
  }

  predicate AboveLimit(s: Cpu, pushes: nat) {
    s.psw.mode == KERNEL ==> s.Reg(SP) - 2 * (pushes - 1) >= UseLimit(s)
  }

  /** The pins inside a call: the saved link, and the link register unless it is PC. An outer
      call through the same register relies on the slot until the inner one returns. */
  function CallPins(s: Cpu, link: RegNr, live: set<Pin>): set<Pin> {
    var slot := Slot(s.psw.mode, Wrap(s.Reg(SP) - 2), s.Reg(link));
    if link < 6 then
      var index := s.GeneralIndex(link);
      (set p | p in live && !(p.Link? && p.index == index)) + {slot, Link(index, s.regs.pc)}
    else live + {slot}
  }

  function TrapPins(s: Cpu, live: set<Pin>): set<Pin> {
    live + {Slot(KERNEL, Wrap(s.regs.sp[KERNEL] as int - 2), s.psw.Encode()),
            Slot(KERNEL, Wrap(s.regs.sp[KERNEL] as int - 4), s.regs.pc)}
  }

  function Finished(o: Outcome<()>): Option<Cpu> {
    match o
    case Next(_, t) => Some(t)
    case _ => None
  }

  /** The state after a flow, provided nothing in it overwrites a live slot or link register,
      calls use R0..R5 or PC, vectors enter kernel mode, and SP stays above the limit. */
  function Run(flow: Flow, s: Cpu, live: set<Pin>): Option<Cpu>
    decreases flow, 0
  {
    match flow
    case End => Some(s)
    case Work(after, rest) =>
      if Calm(s, after) && Intact(after, live) then Run(rest, after, live) else None
    case Call(link, target, body, rest) =>
      if link == SP || !AboveLimit(s, 1) then None
      else (match RunBody(Jsr(s, link, target), body, CallPins(s, link, live))
            case None => None
            case Some(t) =>
              match Finished(Rts(t, link))
              case None => None
              case Some(back) => Run(rest, back, live))
    case Interrupt(vector, ipl, body, rest) =>
      if !AboveLimit(InKernel(s), 2) then None
      else (match RunBody(EnteredKernel(Trap(s, vector, ipl)), body, TrapPins(s, live))
            case None => None
            case Some(t) =>
              match Finished(Rti(t))
              case None => None
              case Some(back) => Run(rest, back, live))
  }

  /** From the first instruction of a subroutine or handler to its closing return. */
  function RunBody(entered: Outcome<()>, body: Flow, pins: set<Pin>): Option<Cpu>
    decreases body, 1
  {
    match entered
    case Next(_, e) => if Intact(e, pins) then Run(body, e, pins) else None
    case _ => None
  }

  function InKernel(s: Cpu): Cpu {
    s.(psw := s.psw.(mode := KERNEL))
  }

  /** The vector's status word must have kernel mode. */
  function EnteredKernel(o: Outcome<()>): Outcome<()> {
    match o
    case Next(_, e) => if e.psw.mode == KERNEL then o else Halted
    case _ => o
  }

  // --- Pins and memory ---

  lemma PinStable(s: Cpu, t: Cpu, p: Pin)
    requires SameTranslation(s.bus.mmu, t.bus.mmu) && t.bus.ram == s.bus.ram && t.regs.general == s.regs.general
    requires Holds(s, p)
    ensures Holds(t, p)
  {
    hide Read;
    if p.Slot? {
      ReadsStable(s.bus, t.bus, p.mode, p.address, WordWide, DSpace);
    }
  }

  /** What a pop finds when the slot is intact, and what it leaves. */
  lemma LoadPinned(s: Cpu, value: Word)
    requires Holds(s, Slot(s.psw.mode, s.Reg(SP), value))
    ensures var o := Load(s, s.Reg(SP), WordWide, DSpace);
            o.Next? && o.value == value && o.cpu == s.(bus := o.cpu.bus)
            && SameTranslation(s.bus.mmu, o.cpu.bus.mmu) && o.cpu.bus.ram == s.bus.ram
  {
    AccessKeepsTranslation(s.bus, s.psw.mode, s.Reg(SP), WordWide, 0, DSpace);
  }

  lemma LogKeepsRegisters(s: Cpu, nr: RegNr, delta: int)
    ensures Log(s, nr, delta).regs == s.regs && Log(s, nr, delta).psw == s.psw
  {
  }

  /** The stack pointers and status word a JSR leaves. */
  lemma JsrShape(s: Cpu, link: RegNr, target: Word, e: Cpu)
    requires link != SP && AboveLimit(s, 1) && Finished(Jsr(s, link, target)) == Some(e)
    ensures e.psw == s.psw && e.regs.sp == s.regs.sp[s.psw.mode := Wrap(s.Reg(SP) - 2)]
  {
    var pushed := PushStack(s, s.Reg(link));
    LogKeepsRegisters(pushed.cpu, SP, -2);
    hide Write, Log;
  }

  /** RTS is the exact inverse of the JSR its stack slot and link register belong to. */
  lemma RtsUndoesJsr(s: Cpu, link: RegNr, target: Word, e: Cpu, t: Cpu)
    requires link != SP && AboveLimit(s, 1) && Finished(Jsr(s, link, target)) == Some(e)
    requires Calm(e, t)
    requires Holds(t, Slot(s.psw.mode, Wrap(s.Reg(SP) - 2), s.Reg(link)))
    requires link < 6 ==> Holds(t, Link(s.GeneralIndex(link), s.regs.pc))
    ensures Rts(t, link).Next?
    ensures var r := Rts(t, link).cpu;
            Calm(s, r) && r.psw == t.psw && r.regs.pc == s.regs.pc
            && r.regs.general ==
               (if link < 6 then t.regs.general[s.GeneralIndex(link) := s.Reg(link)] else t.regs.general)
            && SameTranslation(t.bus.mmu, r.bus.mmu) && r.bus.ram == t.bus.ram
  {
    hide Jsr, Read, Load, SameTranslation;
    JsrShape(s, link, target, e);
    var t1 := t.WithReg(PC, t.Reg(link));
    assert t.Reg(SP) == Wrap(s.Reg(SP) - 2);
    LoadPinned(t1, s.Reg(link));
    assert Rts(t, link).cpu.regs.sp == s.regs.sp;
  }

  /** A trap that enters kernel mode leaves both words on the kernel stack. */
  lemma TrapShape(s: Cpu, vector: Word, ipl: Option<Level>, e: Cpu)
    requires Finished(Trap(s, vector, ipl)) == Some(e) && e.psw.mode == KERNEL && AboveLimit(InKernel(s), 2)
    ensures e.regs.sp == s.regs.sp[KERNEL := Wrap(s.regs.sp[KERNEL] as int - 4)]
  {
    hide Write, EntryPsw, FetchVector;
    FetchShape(s, vector);
  }

  lemma FetchShape(s: Cpu, vector: Word)
    ensures match FetchVector(s, vector)
            case Next(_, t) => t.regs.sp == s.regs.sp && t.regs.general == s.regs.general
            case _ => true
  {
    hide Read;
  }

  /** RTI is the exact inverse of the trap whose two words it finds. */
  lemma RtiUndoesTrap(s: Cpu, t: Cpu)
    requires t.psw.mode == KERNEL && t.regs.sp == s.regs.sp[KERNEL := Wrap(s.regs.sp[KERNEL] as int - 4)]
    requires Holds(t, Slot(KERNEL, Wrap(s.regs.sp[KERNEL] as int - 2), s.psw.Encode()))
    requires Holds(t, Slot(KERNEL, Wrap(s.regs.sp[KERNEL] as int - 4), s.regs.pc))
    ensures Rti(t).Next?
    ensures var r := Rti(t).cpu;
            r.regs.sp == s.regs.sp && r.psw == s.psw && r.regs.pc == s.regs.pc && r.regs.general == t.regs.general
            && SameTranslation(t.bus.mmu, r.bus.mmu) && r.bus.ram == t.bus.ram
  {
    hide Read, Load, Decode, SameTranslation, Psw.Encode;
    DecodeEncode(s.psw);
    LoadPinned(t, s.regs.pc);
    var t1 := PopStack(t).cpu.WithReg(PC, s.regs.pc);
    PinStable(t, t1, Slot(KERNEL, Wrap(s.regs.sp[KERNEL] as int - 2), s.psw.Encode()));
    LoadPinned(t1, s.psw.Encode());
    SameTranslationTransitive(t.bus.mmu, t1.bus.mmu, Rti(t).cpu.bus.mmu);
    assert Rti(t).cpu.regs.sp == s.regs.sp;
  }

  // --- The theorem ---

  lemma PinsStable(s: Cpu, t: Cpu, live: set<Pin>)
    requires SameTranslation(s.bus.mmu, t.bus.mmu) && t.bus.ram == s.bus.ram && t.regs.general == s.regs.general
    requires Intact(s, live)
    ensures Intact(t, live)
  {
    hide Holds;
    forall p | p in live ensures Holds(t, p) {
      PinStable(s, t, p);
    }
  }

  /** When a call through `link` returns, the pins its register had covered hold again. */
  lemma PinsAfterReturn(s: Cpu, link: RegNr, live: set<Pin>, t: Cpu, r: Cpu)
    requires Intact(s, live) && Intact(t, CallPins(s, link, live))
    requires SameTranslation(t.bus.mmu, r.bus.mmu) && r.bus.ram == t.bus.ram
    requires r.regs.general ==
             (if link < 6 then t.regs.general[s.GeneralIndex(link) := s.Reg(link)] else t.regs.general)
    ensures Intact(r, live)
  {
    hide Read;
    var same := r.(regs := r.regs.(general := t.regs.general));
    forall p | p in live ensures Holds(r, p) {
      assert Holds(s, p);
      if p in CallPins(s, link, live) {
        PinStable(t, same, p);
      }
    }
  }

  /** One call with its body, from the JSR to the closing RTS: PC, the link register, every
      stack pointer, the mode and the register set are back, and nothing pinned is lost. */
  lemma CallReturns(link: RegNr, target: Word, body: Flow, s: Cpu, live: set<Pin>, t: Cpu)
    requires link != SP && AboveLimit(s, 1) && Intact(s, live)
    requires RunBody(Jsr(s, link, target), body, CallPins(s, link, live)) == Some(t)
    ensures Rts(t, link).Next?
    ensures var r := Rts(t, link).cpu;
            r.regs.pc == s.regs.pc && r.Reg(link) == s.Reg(link) && Calm(s, r) && Intact(r, live)
    decreases body, 1
  {
    hide Jsr, Rts, Holds, Intact, SameTranslation, Run;
    var e := Jsr(s, link, target).cpu;
    var pins := CallPins(s, link, live);
    BalancedFlow(body, e, pins, t);
    PinHolds(t, pins, Slot(s.psw.mode, Wrap(s.Reg(SP) - 2), s.Reg(link)));
    if link < 6 {
      PinHolds(t, pins, Link(s.GeneralIndex(link), s.regs.pc));
    }
    RtsUndoesJsr(s, link, target, e, t);
    PinsAfterReturn(s, link, live, t, Rts(t, link).cpu);
  }

  lemma PinHolds(s: Cpu, live: set<Pin>, p: Pin)
    requires Intact(s, live) && p in live
    ensures Holds(s, p)
  {
  }

  /** One trap or interrupt with its handler, up to the closing RTI: PC, the whole status
      word, every stack pointer are back, and nothing pinned is lost. */
  lemma InterruptReturns(vector: Word, ipl: Option<Level>, body: Flow, s: Cpu, live: set<Pin>, t: Cpu)
    requires AboveLimit(InKernel(s), 2) && Intact(s, live)
    requires RunBody(EnteredKernel(Trap(s, vector, ipl)), body, TrapPins(s, live)) == Some(t)
    ensures Rti(t).Next?
    ensures var r := Rti(t).cpu;
            r.regs.pc == s.regs.pc && r.psw == s.psw && r.regs.sp == s.regs.sp && Intact(r, live)
    decreases body, 1
  {
    hide Trap, Rti, Holds, SameTranslation, Run;
    var e := Trap(s, vector, ipl).cpu;
    var pins := TrapPins(s, live);
    TrapShape(s, vector, ipl, e);
    BalancedFlow(body, e, pins, t);
    PinHolds(t, pins, Slot(KERNEL, Wrap(s.regs.sp[KERNEL] as int - 2), s.psw.Encode()));
    PinHolds(t, pins, Slot(KERNEL, Wrap(s.regs.sp[KERNEL] as int - 4), s.regs.pc));
    RtiUndoesTrap(s, t);
    PinsStable(t, Rti(t).cpu, live);
  }

  /** Well-nested control flow: any balanced nesting, however deep, keeps every stack pointer,
      the mode, the register set and all it was asked to keep. */
  lemma {:induction false} BalancedFlow(flow: Flow, s: Cpu, live: set<Pin>, t: Cpu)
    requires Intact(s, live) && Run(flow, s, live) == Some(t)
    ensures Calm(s, t) && Intact(t, live)
    decreases flow, 0
  {
    hide Jsr, Rts, Rti, Trap, Intact, CallPins, TrapPins;
    match flow
    case End =>
    case Work(after, rest) =>
      BalancedFlow(rest, after, live, t);
    case Call(link, target, body, rest) =>
      var u := RunBody(Jsr(s, link, target), body, CallPins(s, link, live)).value;
      CallReturns(link, target, body, s, live, u);
      BalancedFlow(rest, Rts(u, link).cpu, live, t);
    case Interrupt(vector, ipl, body, rest) =>
      var u := RunBody(EnteredKernel(Trap(s, vector, ipl)), body, TrapPins(s, live)).value;
      InterruptReturns(vector, ipl, body, s, live, u);
      BalancedFlow(rest, Rti(u).cpu, live, t);
  }
}
