/** When no two accessible blocks share a frame, a push never overwrites another stack slot:
    what a call or a trap is asked to keep is intact in the state it enters, as pinned slots lie
    above the stack pointer. So only the stores of the ordinary work can break a balanced
    nesting. */
module StackIsolation {
  import opened Words
  import opened ProcessorStatus
  import opened Mmu
  import opened Bus
  import opened CpuState
  import opened Instructions
  import opened ControlFlow
  import VM = VirtualMemory

  function SlotKey(s: Cpu, mode: Mode, address: Word): VM.Key {
    VM.Key(mode, s.bus.mmu.Effective(mode, DSpace), address)
  }

  /** A word access that succeeds goes to the even home of its key. */
  lemma WordHome(s: Cpu, mode: Mode, address: Word, value: Word)
    requires || Read(s.bus, mode, address, WordWide, DSpace).Done?
             || Write(s.bus, mode, address, WordWide, value, DSpace).Done?
    ensures var home := VM.Home(s.bus, SlotKey(s, mode, address));
            home.Some? && home.value % 2 == 0
            && (Read(s.bus, mode, address, WordWide, DSpace).Done? ==>
                  Read(s.bus, mode, address, WordWide, DSpace).value == RamWord(s.bus.ram, home.value))
            && (Write(s.bus, mode, address, WordWide, value, DSpace).Done? ==>
                  Write(s.bus, mode, address, WordWide, value, DSpace).bus.ram
                    == StoreWord(s.bus.ram, home.value, value))
  {
    VM.EffectiveIdempotent(s.bus.mmu, mode, DSpace);
  }

  lemma StoreSparesSlot(s: Cpu, address: Word, value: Word, mode: Mode, other: Word)
    requires s.bus.mmu.Enabled() && VM.DisjointFrames(s.bus.mmu)
    requires Write(s.bus, s.psw.mode, address, WordWide, value, DSpace).Done?
    requires Read(s.bus, mode, other, WordWide, DSpace).Done? && (mode, other) != (s.psw.mode, address)
    ensures var after := Write(s.bus, s.psw.mode, address, WordWide, value, DSpace).bus;
            var r := Read(after, mode, other, WordWide, DSpace);
            r.Done? && r.value == Read(s.bus, mode, other, WordWide, DSpace).value
  {
    hide Write, Read, VM.Home;
    var after := Write(s.bus, s.psw.mode, address, WordWide, value, DSpace).bus;
    WordHome(s, s.psw.mode, address, value);
    WordHome(s, mode, other, 0);
    var k, l := SlotKey(s, s.psw.mode, address), SlotKey(s, mode, other);
    if VM.Home(s.bus, k) == VM.Home(s.bus, l) {
      VM.HomesDistinct(s.bus, k, l);
    }
    AccessKeepsTranslation(s.bus, s.psw.mode, address, WordWide, value, DSpace);
    ReadsStable(s.bus, after.(ram := s.bus.ram), mode, other, WordWide, DSpace);
    SameCell(after, s.bus.ram, mode, other);
    SameHome(s, after, mode, other);
  }

  /** Whether a read succeeds does not depend on what RAM holds. */
  lemma SameCell(b: BusState, ram: Ram, mode: Mode, address: Word)
    requires |ram| == |b.ram|
    ensures Read(b, mode, address, WordWide, DSpace).Done?
            == Read(b.(ram := ram), mode, address, WordWide, DSpace).Done?
  {
  }

  lemma SameHome(s: Cpu, after: BusState, mode: Mode, address: Word)
    requires SameTranslation(s.bus.mmu, after.mmu) && |after.ram| == |s.bus.ram|
    requires Read(after, mode, address, WordWide, DSpace).Done?
    ensures var home := VM.Home(s.bus, SlotKey(s, mode, address));
            home.Some? && home.value % 2 == 0
            && Read(after, mode, address, WordWide, DSpace).value == RamWord(after.ram, home.value)
  {
    hide Read, VM.Home;
    WordHome(s.(bus := after), mode, address, 0);
    TranslationStable(s.bus.mmu, after.mmu, mode, address, false, DSpace);
    VM.HomesStable(s.bus, after, SlotKey(s, mode, address));
  }

  /** A push leaves every other pinned slot as it is, and fills its own. */
  lemma PushSparesSlots(s: Cpu, value: Word, p: Pin)
    requires s.bus.mmu.Enabled() && VM.DisjointFrames(s.bus.mmu)
    requires PushStack(s, value).Next? && p.Slot?
    ensures var e := PushStack(s, value).cpu;
            if (p.mode, p.address) == (s.psw.mode, Wrap(s.Reg(SP) - 2)) then p.value == value <==> Holds(e, p)
            else Holds(s, p) ==> Holds(e, p)
  {
    hide Write, Read;
    var address := Wrap(s.Reg(SP) - 2);
    if (p.mode, p.address) == (s.psw.mode, address) {
      WriteReadBack(s.bus, s.psw.mode, address, WordWide, value, DSpace);
    } else if Holds(s, p) {
      StoreSparesSlot(s, address, value, p.mode, p.address);
    }
  }

  // --- Entries keep every pin ---

  ghost predicate Isolated(s: Cpu) {
    s.bus.mmu.Enabled() && VM.DisjointFrames(s.bus.mmu)
  }

  /** No pinned slot is at this address. */
  predicate Free(live: set<Pin>, mode: Mode, address: Word) {
    forall p :: p in live && p.Slot? ==> (p.mode, p.address) != (mode, address)
  }

  lemma PushShape(s: Cpu, value: Word, e: Cpu)
    requires Finished(PushStack(s, value)) == Some(e)
    ensures SameTranslation(s.bus.mmu, e.bus.mmu) && e.psw == s.psw
    ensures e.regs == s.AddReg(SP, -2).regs
  {
    hide Write;
    AccessKeepsTranslation(s.bus, s.psw.mode, Wrap(s.Reg(SP) - 2), WordWide, value, DSpace);
  }

  lemma PushKeepsIntact(s: Cpu, value: Word, live: set<Pin>, e: Cpu)
    requires Isolated(s) && Intact(s, live) && Finished(PushStack(s, value)) == Some(e)
    requires Free(live, s.psw.mode, Wrap(s.Reg(SP) - 2))
    ensures Isolated(e) && Intact(e, live + {Slot(s.psw.mode, Wrap(s.Reg(SP) - 2), value)})
  {
    hide PushStack, Read;
    PushShape(s, value, e);
    VM.DisjointStable(s.bus.mmu, e.bus.mmu);
    var slot := Slot(s.psw.mode, Wrap(s.Reg(SP) - 2), value);
    forall p | p in live + {slot} ensures Holds(e, p) {
      if p.Slot? {
        PushSparesSlots(s, value, p);
      } else {
        assert Holds(s, p);
      }
    }
  }

  lemma LogKeepsIntact(s: Cpu, nr: RegNr, delta: int, live: set<Pin>)
    requires Intact(s, live)
    ensures Intact(Log(s, nr, delta), live)
  {
    hide Holds;
    assert SameTranslation(s.bus.mmu, Log(s, nr, delta).bus.mmu);
    PinsStable(s, Log(s, nr, delta), live);
  }

  /** The link register takes its new value. */
  lemma LinkKeepsIntact(s: Cpu, t: Cpu, link: RegNr, target: Word, live: set<Pin>, slot: Pin)
    requires link != SP && Intact(t, live + {slot}) && slot == Slot(s.psw.mode, Wrap(s.Reg(SP) - 2), s.Reg(link))
    requires t.regs.pc == s.regs.pc && t.psw == s.psw
    ensures Intact(t.WithReg(link, t.regs.pc).WithReg(PC, target), CallPins(s, link, live))
  {
    hide Read;
    var e := t.WithReg(link, t.regs.pc).WithReg(PC, target);
    forall p | p in CallPins(s, link, live) ensures Holds(e, p) {
      if p in live + {slot} {
        assert Holds(t, p);
      }
    }
  }

  /** A call that pushes onto no pinned slot enters with everything it is asked to keep. */
  lemma CallEntersIntact(s: Cpu, link: RegNr, target: Word, live: set<Pin>, e: Cpu)
    requires Isolated(s) && Intact(s, live) && link != SP && Finished(Jsr(s, link, target)) == Some(e)
    requires Free(live, s.psw.mode, Wrap(s.Reg(SP) - 2))
    ensures Isolated(e) && Intact(e, CallPins(s, link, live))
  {
    hide PushStack, Intact, CallPins, Log;
    var t := PushStack(s, s.Reg(link)).cpu;
    var slot := Slot(s.psw.mode, Wrap(s.Reg(SP) - 2), s.Reg(link));
    PushShape(s, s.Reg(link), t);
    PushKeepsIntact(s, s.Reg(link), live, t);
    LogKeepsIntact(t, SP, -2, live + {slot});
    LogKeepsRegisters(t, SP, -2);
    LinkKeepsIntact(s, Log(t, SP, -2), link, target, live, slot);
    LogKeepsIsolation(t, SP, -2);
  }

  lemma LogKeepsIsolation(s: Cpu, nr: RegNr, delta: int)
    requires Isolated(s)
    ensures Isolated(Log(s, nr, delta))
  {
    VM.DisjointStable(s.bus.mmu, Log(s, nr, delta).bus.mmu);
  }

  lemma LoadKeepsIntact(s: Cpu, address: Word, space: Space, live: set<Pin>)
    requires Isolated(s) && Intact(s, live) && Load(s, address, WordWide, space).Next?
    ensures var t := Load(s, address, WordWide, space).cpu;
            Isolated(t) && Intact(t, live) && t.regs == s.regs && t.psw == s.psw
  {
    hide Read, Holds;
    var t := Load(s, address, WordWide, space).cpu;
    AccessKeepsTranslation(s.bus, s.psw.mode, address, WordWide, 0, space);
    VM.DisjointStable(s.bus.mmu, t.bus.mmu);
    PinsStable(s, t, live);
  }

  /** Pins look at the bus and the general registers only. */
  lemma IntactElsewhere(s: Cpu, t: Cpu, live: set<Pin>)
    requires Intact(s, live) && t.bus == s.bus && t.regs.general == s.regs.general
    ensures Intact(t, live)
  {
    hide Read;
    forall p | p in live ensures Holds(t, p) {
      assert Holds(s, p);
    }
  }

  /** The state in which a trap pushes: the vector is fetched, the status word is the new one. */
  lemma TrapFetches(s: Cpu, vector: Word, ipl: Option<Level>, live: set<Pin>, e: Cpu) returns (t: Cpu)
    requires Isolated(s) && Intact(s, live) && Finished(EnteredKernel(Trap(s, vector, ipl))) == Some(e)
    ensures Isolated(t) && Intact(t, live) && t.regs.sp == s.regs.sp
    ensures var pushed := PushStack(t, s.psw.Encode());
            pushed.Next? && Finished(PushStack(pushed.cpu, s.regs.pc)) == Some(e)
  {
    hide Load, PushStack, EntryPsw, Intact, VM.DisjointFrames;
    var space := if s.bus.mmu.UseDataSpace(KERNEL) then DSpace else ISpace;
    IntactElsewhere(s, InKernel(s), live);
    LoadKeepsIntact(InKernel(s), vector, space, live);
    var o := Load(InKernel(s), vector, WordWide, space);
    var s1 := o.cpu.WithReg(PC, o.value);
    IntactElsewhere(o.cpu, s1, live);
    LoadKeepsIntact(s1, Wrap(vector + 2), space, live);
    var p := Load(s1, Wrap(vector + 2), WordWide, space);
    t := p.cpu.(psw := EntryPsw(p.value, s.psw, ipl));
    IntactElsewhere(p.cpu, t, live);
  }

  /** The same of a trap or interrupt that enters kernel mode. */
  lemma TrapEntersIntact(s: Cpu, vector: Word, ipl: Option<Level>, live: set<Pin>, e: Cpu)
    requires Isolated(s) && Intact(s, live) && Finished(EnteredKernel(Trap(s, vector, ipl))) == Some(e)
    requires Free(live, KERNEL, Wrap(s.regs.sp[KERNEL] as int - 2))
    requires Free(live, KERNEL, Wrap(s.regs.sp[KERNEL] as int - 4))
    ensures Isolated(e) && Intact(e, TrapPins(s, live))
  {
    hide Trap, PushStack, Intact, Isolated;
    var t := TrapFetches(s, vector, ipl, live, e);
    var u := PushStack(t, s.psw.Encode()).cpu;
    PushShape(t, s.psw.Encode(), u);
    PushShape(u, s.regs.pc, e);
    assert t.psw.mode == KERNEL;
    PushKeepsIntact(t, s.psw.Encode(), live, u);
    var first := Slot(KERNEL, Wrap(s.regs.sp[KERNEL] as int - 2), s.psw.Encode());
    PushKeepsIntact(u, s.regs.pc, live + {first}, e);
    var second := Slot(KERNEL, Wrap(s.regs.sp[KERNEL] as int - 4), s.regs.pc);
    assert TrapPins(s, live) == live + {first} + {second};
  }

  // --- No entry can break a nesting ---

  /** Every pinned slot lies at or above the stack pointer of its mode. */
  predicate Stacked(s: Cpu, live: set<Pin>) {
    forall p :: p in live && p.Slot? ==> p.address >= s.regs.sp[p.mode]
  }

  /** The stack pointer of a mode has room to go down without wrapping. */
  predicate Room(s: Cpu, mode: Mode, pushes: nat) {
    s.regs.sp[mode] >= 2 * pushes
  }

  /** In kernel mode the stack limit sees to that: the register has eight zero bits. */
  lemma LimitGivesRoom(s: Cpu, pushes: nat)
    requires s.psw.mode == KERNEL && 0 < pushes <= 2 && AboveLimit(s, pushes) && s.stackLimit % 0x100 == 0
    ensures Room(s, KERNEL, pushes)
  {
  }

  /** `Run` of `ControlFlow` without its checks of what a call or trap enters with: only the
      ordinary work is asked to keep the pins and not to make frames overlap. */
  ghost function RunWork(flow: Flow, s: Cpu, live: set<Pin>): Option<Cpu>
    decreases flow
  {
    match flow
    case End => Some(s)
    case Work(after, rest) =>
      if Calm(s, after) && Intact(after, live) && Isolated(after) then RunWork(rest, after, live) else None
    case Call(link, target, body, rest) =>
      if link == SP || !AboveLimit(s, 1) || !Room(s, s.psw.mode, 1) then None
      else (match Finished(Jsr(s, link, target))
            case None => None
            case Some(e) =>
              match RunWork(body, e, CallPins(s, link, live))
              case None => None
              case Some(t) =>
                match Finished(Rts(t, link))
                case None => None
                case Some(back) => RunWork(rest, back, live))
    case Interrupt(vector, ipl, body, rest) =>
      if !AboveLimit(InKernel(s), 2) || !Room(s, KERNEL, 2) then None
      else (match Finished(EnteredKernel(Trap(s, vector, ipl)))
            case None => None
            case Some(e) =>
              match RunWork(body, e, TrapPins(s, live))
              case None => None
              case Some(t) =>
                match Finished(Rti(t))
                case None => None
                case Some(back) => RunWork(rest, back, live))
  }

  lemma RtsKeepsIsolation(t: Cpu, link: RegNr)
    requires Isolated(t) && Rts(t, link).Next?
    ensures Isolated(Rts(t, link).cpu)
  {
    hide Read, VM.DisjointFrames;
    var t1 := t.WithReg(PC, t.Reg(link));
    AccessKeepsTranslation(t1.bus, t1.psw.mode, t1.Reg(SP), WordWide, 0, DSpace);
    VM.DisjointStable(t.bus.mmu, Rts(t, link).cpu.bus.mmu);
  }

  lemma PopKeepsIsolation(t: Cpu)
    requires Isolated(t) && PopStack(t).Next?
    ensures Isolated(PopStack(t).cpu)
  {
    hide Read, VM.DisjointFrames;
    AccessKeepsTranslation(t.bus, t.psw.mode, t.Reg(SP), WordWide, 0, DSpace);
    VM.DisjointStable(t.bus.mmu, PopStack(t).cpu.bus.mmu);
  }

  lemma RtiKeepsIsolation(t: Cpu)
    requires Isolated(t) && Rti(t).Next?
    ensures Isolated(Rti(t).cpu)
  {
    hide PopStack, SetPsw, VM.DisjointFrames;
    PopKeepsIsolation(t);
    PopKeepsIsolation(PopStack(t).cpu.WithReg(PC, PopStack(t).value));
  }

  /** A call pushes below every pinned slot, and its own slot is on the stack then. */
  lemma CallStacked(s: Cpu, link: RegNr, target: Word, live: set<Pin>, e: Cpu)
    requires Stacked(s, live) && link != SP && AboveLimit(s, 1) && Room(s, s.psw.mode, 1)
    requires Finished(Jsr(s, link, target)) == Some(e)
    ensures Free(live, s.psw.mode, Wrap(s.Reg(SP) - 2)) && Stacked(e, CallPins(s, link, live))
  {
    hide Jsr;
    JsrShape(s, link, target, e);
  }

  lemma TrapStacked(s: Cpu, vector: Word, ipl: Option<Level>, live: set<Pin>, e: Cpu)
    requires Stacked(s, live) && AboveLimit(InKernel(s), 2) && Room(s, KERNEL, 2)
    requires Finished(EnteredKernel(Trap(s, vector, ipl))) == Some(e)
    ensures Free(live, KERNEL, Wrap(s.regs.sp[KERNEL] as int - 2))
    ensures Free(live, KERNEL, Wrap(s.regs.sp[KERNEL] as int - 4)) && Stacked(e, TrapPins(s, live))
  {
    hide Trap;
    TrapShape(s, vector, ipl, e);
  }

  /** With disjoint frames and pins on the stacks, every entry of a balanced flow finds what it
      is asked to keep in place: the checks of `Run` at calls and traps always succeed. */
  lemma {:induction false} EntriesKeepPins(flow: Flow, s: Cpu, live: set<Pin>, t: Cpu)
    requires Isolated(s) && Intact(s, live) && Stacked(s, live) && RunWork(flow, s, live) == Some(t)
    ensures Run(flow, s, live) == Some(t) && Isolated(t)
    decreases flow
  {
    hide Jsr, Rts, Rti, Trap, Intact, CallPins, TrapPins, Isolated, Stacked, Free;
    match flow
    case End =>
    case Work(after, rest) =>
      CalmStacked(s, after, live);
      EntriesKeepPins(rest, after, live, t);
    case Call(link, target, body, rest) =>
      var e, pins := Finished(Jsr(s, link, target)).value, CallPins(s, link, live);
      CallStacked(s, link, target, live, e);
      CallEntersIntact(s, link, target, live, e);
      var u := RunWork(body, e, pins).value;
      EntriesKeepPins(body, e, pins, u);
      CallReturns(link, target, body, s, live, u);
      RtsKeepsIsolation(u, link);
      CalmStacked(s, Rts(u, link).cpu, live);
      EntriesKeepPins(rest, Rts(u, link).cpu, live, t);
    case Interrupt(vector, ipl, body, rest) =>
      var e, pins := Finished(EnteredKernel(Trap(s, vector, ipl))).value, TrapPins(s, live);
      TrapStacked(s, vector, ipl, live, e);
      TrapEntersIntact(s, vector, ipl, live, e);
      var u := RunWork(body, e, pins).value;
      EntriesKeepPins(body, e, pins, u);
      InterruptReturns(vector, ipl, body, s, live, u);
      RtiKeepsIsolation(u);
      CalmStacked(s, Rti(u).cpu, live);
      EntriesKeepPins(rest, Rti(u).cpu, live, t);
  }

  lemma CalmStacked(s: Cpu, t: Cpu, live: set<Pin>)
    requires Stacked(s, live) && t.regs.sp == s.regs.sp
    ensures Stacked(t, live)
  {
  }
}
