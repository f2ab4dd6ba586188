/** What a subroutine call, a trap and the processor's scan for interrupts enter (cpu.cpp): PC, status
    word, registers and the words they save, told from the memory they start with. */
module Entries {
  import opened Words
  import opened WordSets
  import opened ProcessorStatus
  import opened Mmu
  import opened Bus
  import opened CpuState
  import opened Instructions
  import opened ControlFlow
  import opened Interrupts
  import opened StackIsolation
  import VM = VirtualMemory

  // --- Pushes ---

  /** `ram` with a word stored in the data space of a mode. */
  predicate Saves(s: Cpu, mode: Mode, address: Word, value: Word, ram: Ram) {
    var home := VM.Home(s.bus, SlotKey(s, mode, address));
    home.Some? && home.value % 2 == 0 && ram == StoreWord(s.bus.ram, home.value, value)
  }

  /** The stack is below the limit kernel mode keeps to. */
  predicate Yellow(s: Cpu, mode: Mode, sp: int) {
    mode == KERNEL && sp < if s.stackLimit == 0 then 0x100 else s.stackLimit
  }

  /** One push: the stack pointer, and below the limit a trap through 4 asked for. */
  predicate Pushed(s: Cpu, e: Cpu) {
    var yellow := Yellow(s, s.psw.mode, s.Reg(SP));
    e == s.WithReg(SP, Wrap(s.Reg(SP) - 2)).(bus := e.bus, delayedTrap := if yellow then Some(4) else s.delayedTrap,
                                            anyQueued := s.anyQueued || yellow)
  }

  lemma PushIs(s: Cpu, value: Word, e: Cpu)
    requires Finished(PushStack(s, value)) == Some(e)
    ensures Saves(s, s.psw.mode, Wrap(s.Reg(SP) - 2), value, e.bus.ram) && SameTranslation(s.bus.mmu, e.bus.mmu)
    ensures Pushed(s, e) && |e.bus.ram| == |s.bus.ram|
  {
    hide Write, VM.Home, StoreWord, SlotKey;
    var address := Wrap(s.Reg(SP) - 2);
    WordHome(s, s.psw.mode, address, value);
    AccessKeepsTranslation(s.bus, s.psw.mode, address, WordWide, value, DSpace);
  }

  /** More than 16 words below the limit the red zone begins; this is where the model ends. */
  lemma PushStops(s: Cpu, value: Word)
    ensures PushStack(s, value).Halted? <==>
            s.psw.mode == KERNEL && s.Reg(SP) + 32 < if s.stackLimit == 0 then 0x100 else s.stackLimit
  {
    hide Write;
  }

  // --- Calls ---

  /** A call goes to its target, leaves the address after it in the link register, and saves
      the link register below the stack pointer. */
  lemma CallIs(s: Cpu, link: RegNr, target: Word, e: Cpu)
    requires Finished(Jsr(s, link, target)) == Some(e)
    ensures e.regs.pc == target && e.psw == s.psw
    ensures forall nr: RegNr :: nr != PC ==>
              e.Reg(nr) == if nr == link then s.regs.pc else if nr == SP then (s.Reg(SP) - 2) % 0x1_0000 else s.Reg(nr)
    ensures Saves(s, s.psw.mode, Wrap(s.Reg(SP) - 2), s.Reg(link), e.bus.ram)
  {
    hide PushStack, Log, Saves;
    var t := PushStack(s, s.Reg(link)).cpu;
    PushIs(s, s.Reg(link), t);
    LogKeeps(t, SP, -2);
  }

  lemma LogKeeps(s: Cpu, nr: RegNr, delta: int)
    ensures var t := Log(s, nr, delta); t.regs == s.regs && t.psw == s.psw && t.bus.ram == s.bus.ram
  {
  }

  // --- Traps ---

  /** What a read finds, when it succeeds. */
  predicate Finds(s: Cpu, mode: Mode, address: Word, value: Word) {
    var r := Read(s.bus, mode, address, WordWide, DSpace);
    r.Done? && r.value == value
  }

  /** A trap enters at the word its vector holds in kernel mode; the next word is the new status
      word but for the previous mode, and the priority of an interrupt. */
  ghost predicate Vectored(s: Cpu, vector: Word, ipl: Option<Level>, t: Cpu) {
    Finds(s, KERNEL, vector, t.regs.pc) &&
    exists word: Word ::
      && Finds(s, KERNEL, (vector + 2) % 0x1_0000, word)
      && t.psw == Decode(word).(previous := s.psw.mode,
                                priority := if ipl.Some? then ipl.value else Decode(word).priority)
  }

  /** It saves the old status word and the old PC, in this order, on the stack of the new mode;
      the other registers are as they were. */
  ghost predicate SavesBoth(s: Cpu, t: Cpu) {
    var mode, sp := t.psw.mode, s.regs.sp[t.psw.mode];
    && t.regs == s.regs.(pc := t.regs.pc, sp := s.regs.sp[mode := Wrap(sp as int - 4)])
    && SameTranslation(s.bus.mmu, t.bus.mmu)
    && exists between: Ram ::
         && Saves(s, mode, Wrap(sp as int - 2), s.psw.Encode(), between)
         && Saves(s.(bus := s.bus.(ram := between)), mode, Wrap(sp as int - 4), s.regs.pc, t.bus.ram)
  }

  lemma VectorIs(s: Cpu, vector: Word, t: Cpu, word: Word)
    requires FetchVector(s, vector) == Next(word, t)
    ensures Finds(s, KERNEL, vector, t.regs.pc) && Finds(s, KERNEL, (vector + 2) % 0x1_0000, word)
    ensures SameTranslation(s.bus.mmu, t.bus.mmu) && t.bus.ram == s.bus.ram
    ensures t == s.(bus := t.bus, regs := s.regs.(pc := t.regs.pc), psw := s.psw.(mode := KERNEL))
  {
    hide Read;
    var space := if s.bus.mmu.UseDataSpace(KERNEL) then DSpace else ISpace;
    KernelSpace(s.bus, vector);
    var first := Load(InKernel(s), vector, WordWide, space);
    AccessKeepsTranslation(s.bus, KERNEL, vector, WordWide, 0, space);
    AccessKeepsTranslation(first.cpu.bus, KERNEL, Wrap(vector + 2), WordWide, 0, space);
    ReadsStable(s.bus, first.cpu.bus, KERNEL, Wrap(vector + 2), WordWide, space);
    KernelSpace(s.bus, Wrap(vector + 2));
    SameTranslationTransitive(s.bus.mmu, first.cpu.bus.mmu, t.bus.mmu);
  }

  /** The space a trap chooses is the one a read of the data space would use. */
  lemma KernelSpace(b: BusState, address: Word)
    ensures Read(b, KERNEL, address, WordWide, DSpace)
            == Read(b, KERNEL, address, WordWide, if b.mmu.UseDataSpace(KERNEL) then DSpace else ISpace)
  {
  }

  lemma SavesStable(s: Cpu, bus: BusState, mode: Mode, address: Word, value: Word, ram: Ram)
    requires SameTranslation(s.bus.mmu, bus.mmu) && |bus.ram| == |s.bus.ram|
    requires Saves(s.(bus := bus), mode, address, value, ram)
    ensures Saves(s.(bus := s.bus.(ram := bus.ram)), mode, address, value, ram)
  {
    hide VM.Home, StoreWord;
    var before := s.bus.(ram := bus.ram);
    TranslationStable(before.mmu, bus.mmu, mode, address, false, DSpace);
    VM.HomesStable(before, bus, SlotKey(s, mode, address));
  }

  lemma SavesElsewhere(s: Cpu, t: Cpu, mode: Mode, address: Word, value: Word, ram: Ram)
    requires t.bus == s.bus && Saves(s, mode, address, value, ram)
    ensures Saves(t, mode, address, value, ram)
  {
    hide VM.Home, StoreWord;
  }

  /** Wherever the vector leads, and whatever the pages hold: what a trap enters with, and what
      it leaves in memory to come back to. */
  lemma TrapIs(s: Cpu, vector: Word, ipl: Option<Level>, t: Cpu)
    requires Finished(Trap(s, vector, ipl)) == Some(t)
    ensures Vectored(s, vector, ipl, t) && SavesBoth(s, t) && t.queue == s.queue
    ensures var mode, sp := t.psw.mode, s.regs.sp[t.psw.mode];
            var yellow := Yellow(s, mode, sp) || Yellow(s, mode, Wrap(sp as int - 2));
            t.delayedTrap == (if yellow then Some(4) else s.delayedTrap) && t.anyQueued == (s.anyQueued || yellow)
  {
    hide FetchVector, PushStack, Saves, Finds, Decode, Psw.Encode;
    var fetched := FetchVector(s, vector);
    var s2, word := fetched.cpu, fetched.value;
    VectorIs(s, vector, s2, word);
    var s3 := s2.(psw := EntryPsw(word, s.psw, ipl));
    var s4 := PushStack(s3, s.psw.Encode()).cpu;
    PushIs(s3, s.psw.Encode(), s4);
    PushIs(s4, s.regs.pc, t);
    PushesSave(s, s3, s4, t);
  }

  lemma PushesSave(s: Cpu, s3: Cpu, s4: Cpu, t: Cpu)
    requires SameTranslation(s.bus.mmu, s3.bus.mmu) && s3.bus.ram == s.bus.ram
    requires SameTranslation(s3.bus.mmu, s4.bus.mmu) && SameTranslation(s4.bus.mmu, t.bus.mmu)
    requires s3.regs == s.regs.(pc := s3.regs.pc)
    requires Pushed(s3, s4) && Pushed(s4, t) && |s4.bus.ram| == |s3.bus.ram|
    requires Saves(s3, s3.psw.mode, Wrap(s3.Reg(SP) - 2), s.psw.Encode(), s4.bus.ram)
    requires Saves(s4, s4.psw.mode, Wrap(s4.Reg(SP) - 2), s.regs.pc, t.bus.ram)
    ensures SavesBoth(s, t)
  {
    hide Psw.Encode, SameTranslation, Saves, Yellow;
    var mode, sp := t.psw.mode, s.regs.sp[t.psw.mode];
    SameTranslationTransitive(s.bus.mmu, s3.bus.mmu, s4.bus.mmu);
    SameTranslationTransitive(s.bus.mmu, s4.bus.mmu, t.bus.mmu);
    SavesElsewhere(s3, s.(bus := s3.bus), mode, Wrap(sp as int - 2), s.psw.Encode(), s4.bus.ram);
    SavesStable(s, s3.bus, mode, Wrap(sp as int - 2), s.psw.Encode(), s4.bus.ram);
    SavesElsewhere(s4, s.(bus := s4.bus), mode, Wrap(sp as int - 4), s.regs.pc, t.bus.ram);
    SavesStable(s, s4.bus, mode, Wrap(sp as int - 4), s.regs.pc, t.bus.ram);
    assert t.regs.sp == s.regs.sp[mode := Wrap(sp as int - 4)];
  }

  // --- Returns ---

  /** RTI takes PC and the status word from the stack of the mode it runs in; outside kernel mode
      the word may not raise privilege. */
  ghost predicate TakesBoth(s: Cpu, t: Cpu) {
    var mode, sp := s.psw.mode, s.regs.sp[s.psw.mode];
    && Finds(s, mode, sp, t.regs.pc) && t.bus.ram == s.bus.ram
    && t.regs == s.regs.(pc := t.regs.pc, sp := s.regs.sp[mode := Wrap(sp as int + 4)])
    && exists word: Word ::
         && Finds(s, mode, Wrap(sp as int + 2), word)
         && t.psw == if mode == KERNEL then Decode(word) else DecodeLimited(s.psw, word)
  }

  lemma ReturnIs(s: Cpu, t: Cpu)
    requires Finished(Rti(s)) == Some(t)
    ensures TakesBoth(s, t)
  {
    hide Decode, DecodeLimited, Load, Finds, SameTranslation;
    var first := PopStack(s);
    PopIs(s);
    var s1 := first.cpu.WithReg(PC, first.value);
    PopIs(s1);
    var second := PopStack(s1);
    FindsStable(s, s1, s.psw.mode, Wrap(s.Reg(SP) + 2), second.value);
    WrapTwice(s.Reg(SP));
    assert t.regs.sp == s.regs.sp[s.psw.mode := Wrap(s.regs.sp[s.psw.mode] as int + 4)];
  }

  lemma WrapTwice(x: Word)
    ensures Wrap(Wrap(x + 2) + 2) == Wrap(x + 4)
  {
  }

  lemma PopIs(s: Cpu)
    ensures match PopStack(s)
            case Next(value, t) =>
              && Finds(s, s.psw.mode, s.Reg(SP), value) && t == s.AddReg(SP, 2).(bus := t.bus)
              && t.bus.ram == s.bus.ram && SameTranslation(s.bus.mmu, t.bus.mmu)
            case _ => true
  {
    hide Read;
    AccessKeepsTranslation(s.bus, s.psw.mode, s.Reg(SP), WordWide, 0, DSpace);
  }

  lemma FindsStable(s: Cpu, t: Cpu, mode: Mode, address: Word, value: Word)
    requires SameTranslation(s.bus.mmu, t.bus.mmu) && t.bus.ram == s.bus.ram
    ensures Finds(s, mode, address, value) == Finds(t, mode, address, value)
  {
    hide Read;
    ReadsStable(s.bus, t.bus, mode, address, WordWide, DSpace);
  }

  // --- The scan ---

  /** A scan that delivers starts the handler of the first vector of the lowest level above the
      priority, at that level. */
  lemma DeliveryStartsHandler(s: Cpu, t: Cpu)
    requires s.anyQueued && s.delayedTrap == None && Pick(s.queue, s.psw.priority).Some?
    requires Finished(Poll(s)) == Some(t)
    ensures var level := Pick(s.queue, s.psw.priority).value;
            var vector := First(s.queue[level]);
            Vectored(s, vector, Some(level), t) && SavesBoth(s, t) && t.queue == Dequeue(s.queue, level, vector)
            && t.psw.priority == level
  {
    hide Trap, Poll, Saves, Finds, Decode, Psw.Encode;
    PollEntersAbove(s);
    var level := Pick(s.queue, s.psw.priority).value;
    var vector := First(s.queue[level]);
    var ready := s.(queue := Dequeue(s.queue, level, vector));
    TrapIs(ready, vector, Some(level), t);
    EntersAlike(ready, s, vector, Some(level), t);
  }

  /** The queue and the flags are not part of what a trap looks at. */
  lemma EntersAlike(s: Cpu, u: Cpu, vector: Word, ipl: Option<Level>, t: Cpu)
    requires Vectored(s, vector, ipl, t) && SavesBoth(s, t)
    requires u.bus == s.bus && u.regs == s.regs && u.psw == s.psw
    ensures Vectored(u, vector, ipl, t) && SavesBoth(u, t)
  {
    hide Decode, Psw.Encode, Read, VM.Home, StoreWord;
    var mode, sp := t.psw.mode, s.regs.sp[t.psw.mode];
    var between: Ram :| Saves(s, mode, Wrap(sp as int - 2), s.psw.Encode(), between)
      && Saves(s.(bus := s.bus.(ram := between)), mode, Wrap(sp as int - 4), s.regs.pc, t.bus.ram);
    SavesElsewhere(s, u, mode, Wrap(sp as int - 2), s.psw.Encode(), between);
    SavesElsewhere(s.(bus := s.bus.(ram := between)), u.(bus := s.bus.(ram := between)), mode, Wrap(sp as int - 4),
                   s.regs.pc, t.bus.ram);
  }

  /** A delayed trap comes first and at level 7, so that the scan after it delivers nothing:
      the queue is as it was, and the flag is up for what it holds. */
  lemma DelayedTrapFirst(s: Cpu, t: Cpu)
    requires s.anyQueued && s.delayedTrap.Some? && Finished(Poll(s)) == Some(t)
    ensures Vectored(s, s.delayedTrap.value, Some(7), t) && SavesBoth(s, t)
    ensures t.psw.priority == 7 && t.queue == s.queue && t.delayedTrap == None && (!Empty(s.queue) ==> t.anyQueued)
  {
    hide Trap, Saves, Finds, Decode, Psw.Encode;
    var s1 := s.(anyQueued := false);
    var o := Trap(s1, s.delayedTrap.value, Some(7));
    TrapIs(s1, s.delayedTrap.value, Some(7), o.cpu);
    assert o.cpu.psw.priority == 7;
    assert Pick(s.queue, 7) == None;
    SameEntry(s1, o.cpu, t, s.delayedTrap.value);
    EntersAlike(s1, s, s.delayedTrap.value, Some(7), t);
  }

  lemma SameEntry(s: Cpu, e: Cpu, t: Cpu, vector: Word)
    requires Vectored(s, vector, Some(7), e) && SavesBoth(s, e)
    requires t.regs == e.regs && t.psw == e.psw && t.bus == e.bus
    ensures Vectored(s, vector, Some(7), t) && SavesBoth(s, t)
  {
    hide Decode, Psw.Encode, Finds, Saves;
  }
}
