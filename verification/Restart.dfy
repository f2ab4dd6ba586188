/** Instruction restart: wherever a memory abort cuts an instruction short, MMR1 and MMR2
    tell how to put the registers back; and while MMR0 is locked they stay as they are. */
module Restart {
  import opened Words
  import opened Bits
  import opened Mmu
  import opened Bus
  import opened CpuState
  import opened Arithmetic
  import opened Shifter
  import opened Instructions

  function Delta(entry: Byte): int {
    if entry / 8 < 16 then entry / 8 else entry / 8 - 32
  }

  /** Take one logged change back; changes of PC are covered by MMR2. */
  function Unlog(s: Cpu, entry: Byte): Cpu {
    if entry % 8 == PC then s else s.AddReg(entry % 8, -Delta(entry))
  }

  /** What an abort handler does with MMR1 and MMR2. */
  function Restore(s: Cpu): RegisterFile {
    var m := s.bus.mmu;
    Unlog(Unlog(s, Low(m.mmr1)), High(m.mmr1)).regs.(pc := m.mmr2)
  }

  /** MMR1 holds at most `k` entries; an empty entry is zero. */
  predicate AtMost(mmr1: Word, k: nat) {
    if k == 0 then mmr1 == 0 else if k == 1 then mmr1 < 0x100 else true
  }

  /** Nothing but registers has changed since `start`, and they can be put back. */
  predicate Undoable(start: Cpu, s: Cpu) {
    && Restore(s) == start.regs
    && s.psw == start.psw
    && s.bus.ram == start.bus.ram
  }

  predicate OnTrack(start: Cpu, s: Cpu, k: nat) {
    && Undoable(start, s)
    && !s.bus.mmu.Locked()
    && AtMost(s.bus.mmu.mmr1, k)
  }

  /** The two ways part of an instruction may end before its results are stored. */
  predicate Tracks<T>(start: Cpu, o: Outcome<T>, k: nat) {
    match o
    case Next(_, s) => OnTrack(start, s, k)
    case Aborted(s) => Undoable(start, s)
    case _ => true
  }

  lemma EntryDecodes(nr: RegNr, delta: int)
    requires -2 <= delta <= 2
    ensures Entry(nr, delta) % 8 == nr && Delta(Entry(nr, delta)) == delta
  {
  }

  lemma AddRegUndone(s: Cpu, nr: RegNr, delta: int)
    requires nr != PC
    ensures s.AddReg(nr, delta).AddReg(nr, -delta) == s
  {
    var t := s.AddReg(nr, delta);
    assert Wrap(Wrap(s.Reg(nr) + delta) - delta) == s.Reg(nr);
    if nr < 6 {
      assert t.AddReg(nr, -delta).regs.general == s.regs.general;
    } else {
      assert t.AddReg(nr, -delta).regs.sp == s.regs.sp;
    }
  }

  lemma UnlogNothing(s: Cpu)
    ensures Unlog(s, 0) == s
  {
    assert s.AddReg(0, 0).regs.general == s.regs.general;
  }

  /** Taking back an entry only looks at the registers and the status word. */
  lemma UnlogLocal(s: Cpu, t: Cpu, entry: Byte)
    requires s.psw == t.psw && s.regs.(pc := 0) == t.regs.(pc := 0)
    ensures Unlog(s, entry).psw == Unlog(t, entry).psw
    ensures Unlog(s, entry).regs.(pc := 0) == Unlog(t, entry).regs.(pc := 0)
  {
  }

  lemma LogShifts(mmr1: Word, entry: Byte)
    requires mmr1 < 0x100
    ensures var m := mmr1 * 0x100 % 0x1_0000 + entry;
            m < 0x1_0000 && Low(m) == entry && High(m) == mmr1
  {
  }

  lemma BumpFields(s: Cpu, nr: RegNr, delta: int)
    requires !s.bus.mmu.Locked() && s.bus.mmu.mmr1 < 0x100
    ensures var t := Bump(s, nr, delta);
            t.regs == s.AddReg(nr, delta).regs && t.psw == s.psw
            && Low(t.bus.mmu.mmr1) == Entry(nr, delta) && High(t.bus.mmu.mmr1) == s.bus.mmu.mmr1
            && t.bus.mmu.mmr2 == s.bus.mmu.mmr2 && t.bus.mmu.mmr0 == s.bus.mmu.mmr0 && t.bus.ram == s.bus.ram
  {
    LogShifts(s.bus.mmu.mmr1, Entry(nr, delta));
    hide Entry;
  }

  lemma UnlogNewest(s: Cpu, nr: RegNr, delta: int)
    requires -2 <= delta <= 2
    ensures var back := Unlog(s.AddReg(nr, delta), Entry(nr, delta));
            back.psw == s.psw && back.regs.(pc := 0) == s.regs.(pc := 0)
  {
    EntryDecodes(nr, delta);
    hide Entry, Delta;
    if nr != PC {
      AddRegUndone(s, nr, delta);
    }
  }

  /** The newest entry takes the newest change back; only PC may still differ. */
  lemma BumpUndone(s: Cpu, nr: RegNr, delta: int)
    requires !s.bus.mmu.Locked() && s.bus.mmu.mmr1 < 0x100 && -2 <= delta <= 2
    ensures var t := Bump(s, nr, delta);
            var back := Unlog(t, Low(t.bus.mmu.mmr1));
            back.psw == s.psw && back.regs.(pc := 0) == s.regs.(pc := 0)
  {
    BumpFields(s, nr, delta);
    UnlogNewest(s, nr, delta);
    hide Bump, Entry, Unlog;
    UnlogLocal(Bump(s, nr, delta), s.AddReg(nr, delta), Entry(nr, delta));
  }

  /** A logged register change stays undoable: at most one entry was there before. */
  lemma BumpOnTrack(start: Cpu, s: Cpu, k: nat, nr: RegNr, delta: int)
    requires OnTrack(start, s, k) && k <= 1 && -2 <= delta <= 2
    ensures OnTrack(start, Bump(s, nr, delta), k + 1)
  {
    BumpFields(s, nr, delta);
    BumpUndone(s, nr, delta);
    var m, t := s.bus.mmu.mmr1, Bump(s, nr, delta);
    assert Low(m) == m && High(m) == 0;
    hide Bump, Unlog, Entry, Low, High;
    var back := Unlog(t, Low(t.bus.mmu.mmr1));
    UnlogLocal(back, s, m);
    UnlogNothing(Unlog(s, m));
    assert Restore(s) == Unlog(s, m).regs.(pc := s.bus.mmu.mmr2);
  }

  lemma PcOnTrack(start: Cpu, s: Cpu, k: nat, delta: int)
    requires OnTrack(start, s, k)
    ensures OnTrack(start, s.AddReg(PC, delta), k)
  {
    var t := s.AddReg(PC, delta);
    var m := s.bus.mmu.mmr1;
    UnlogLocal(s, t, Low(m));
    UnlogLocal(Unlog(s, Low(m)), Unlog(t, Low(m)), High(m));
  }

  /** A state that differs in the bus only, and there in nothing that matters here. */
  lemma BusOnTrack(start: Cpu, s: Cpu, bus: BusState)
    requires Undoable(start, s)
    requires bus.ram == s.bus.ram && bus.mmu.mmr1 == s.bus.mmu.mmr1 && bus.mmu.mmr2 == s.bus.mmu.mmr2
    ensures Undoable(start, s.(bus := bus))
  {
    var t := s.(bus := bus);
    var m := s.bus.mmu.mmr1;
    UnlogLocal(s, t, Low(m));
    UnlogLocal(Unlog(s, Low(m)), Unlog(t, Low(m)), High(m));
  }

  lemma LoadTracks(start: Cpu, s: Cpu, k: nat, address: Word, width: Width, space: Space)
    requires OnTrack(start, s, k)
    ensures Tracks(start, Load(s, address, width, space), k)
  {
    hide Undoable;
    var r := Read(s.bus, s.psw.mode, address, width, space);
    AbortExactly(s.bus, s.psw.mode, address, width, 0, space);
    AccessKeepsTranslation(s.bus, s.psw.mode, address, width, 0, space);
    if r.Done? || r.Abort? {
      BusOnTrack(start, s, r.bus);
    }
  }

  lemma StoreAbortTracks(start: Cpu, s: Cpu, address: Word, width: Width, value: Word, space: Space)
    requires Undoable(start, s)
    ensures var o := Store(s, address, width, value, space); o.Aborted? ==> Undoable(start, o.cpu)
  {
    hide Undoable;
    var w := Write(s.bus, s.psw.mode, address, width, value, space);
    AbortExactly(s.bus, s.psw.mode, address, width, value, space);
    if w.Abort? {
      BusOnTrack(start, s, w.bus);
    }
  }

  lemma MoreEntries(start: Cpu, s: Cpu, k: nat)
    requires OnTrack(start, s, k)
    ensures OnTrack(start, s, k + 1)
  {
  }

  lemma ReadsTrack(start: Cpu, k: nat)
    ensures KeptByReads((s: Cpu) => OnTrack(start, s, k), (s: Cpu) => Undoable(start, s))
  {
    hide OnTrack, Undoable, Load;
    var on, undoable := (s: Cpu) => OnTrack(start, s, k), (s: Cpu) => Undoable(start, s);
    forall s, address, width, space | on(s) ensures Ends(on, undoable, Load(s, address, width, space)) {
      LoadTracks(start, s, k, address, width, space);
    }
    forall s | on(s) ensures on(s.AddReg(PC, 2)) {
      PcOnTrack(start, s, k, 2);
    }
  }

  lemma StepsTrack(start: Cpu, k: nat)
    requires k <= 1
    ensures Steps((s: Cpu) => OnTrack(start, s, k), (s: Cpu) => OnTrack(start, s, k + 1))
  {
    hide OnTrack, Bump;
    forall s | OnTrack(start, s, k) ensures OnTrack(start, s, k + 1) {
      MoreEntries(start, s, k);
    }
    forall s, nr, delta | OnTrack(start, s, k) && -2 <= delta <= 2 ensures OnTrack(start, Bump(s, nr, delta), k + 1) {
      BumpOnTrack(start, s, k, nr, delta);
    }
  }

  /** Every addressing mode adds at most one entry, and can be undone at any point. */
  lemma GamTracks(start: Cpu, s: Cpu, k: nat, mode: int, nr: RegNr, width: Width, wanted: bool)
    requires OnTrack(start, s, k) && k <= 1 && 0 <= mode < 8
    ensures Tracks(start, GetGam(s, mode, nr, width, wanted), k + 1)
  {
    hide OnTrack, Undoable, GetGam, KeptByReads, Steps;
    ReadsTrack(start, k);
    ReadsTrack(start, k + 1);
    StepsTrack(start, k);
    GamKeeps((t: Cpu) => OnTrack(start, t, k), (t: Cpu) => OnTrack(start, t, k + 1), (t: Cpu) => Undoable(start, t),
             s, mode, nr, width, wanted);
  }

  lemma PutAbortTracks(start: Cpu, s: Cpu, g: Gam, value: Word)
    requires Undoable(start, s)
    ensures PutGam(s, g, value).Aborted? ==> Undoable(start, PutGam(s, g, value).cpu)
  {
    hide Undoable, Store;
    if g.place.AtAddress? {
      StoreAbortTracks(start, s, g.place.address, g.width, value, g.space);
    }
  }

  // --- Whole instructions ---

  predicate Restartable(start: Cpu, o: Outcome<()>) {
    o.Aborted? ==> Undoable(start, o.cpu)
  }

  /** The source operand, and then the destination. */
  lemma TwoOperandsTrack(start: Cpu, s: Cpu, instr: Word, width: Width, wanted: bool)
    requires OnTrack(start, s, 0)
    ensures var o := GetGam(s, SrcMode(instr), SrcReg(instr), width, true);
            Tracks(start, o, 1)
            && (o.Next? ==> Tracks(start, GetGam(o.cpu, DstMode(instr), DstReg(instr), width, wanted), 2))
  {
    hide OnTrack, Undoable, GetGam;
    GamTracks(start, s, 0, SrcMode(instr), SrcReg(instr), width, true);
    var o := GetGam(s, SrcMode(instr), SrcReg(instr), width, true);
    if o.Next? {
      GamTracks(start, o.cpu, 1, DstMode(instr), DstReg(instr), width, wanted);
    }
  }

  lemma MovRestartable(start: Cpu, s: Cpu, instr: Word)
    requires OnTrack(start, s, 0)
    ensures Restartable(start, Mov(s, instr))
  {
    hide GetGam, PutGam, Restore;
    var width := WidthOf(instr);
    TwoOperandsTrack(start, s, instr, width, false);
    var src := GetGam(s, SrcMode(instr), SrcReg(instr), width, true);
    if src.Next? {
      var dst := GetGam(src.cpu, DstMode(instr), DstReg(instr), width, false);
      if dst.Next? {
        PutAbortTracks(start, dst.cpu, dst.value, src.value.value);
      }
    }
  }

  lemma CmpBitRestartable(start: Cpu, s: Cpu, instr: Word)
    requires OnTrack(start, s, 0)
    ensures Restartable(start, CmpBit(s, instr))
  {
    hide GetGam, PutGam, Restore;
    TwoOperandsTrack(start, s, instr, WidthOf(instr), true);
  }

  lemma BicBisRestartable(start: Cpu, s: Cpu, instr: Word)
    requires OnTrack(start, s, 0)
    ensures Restartable(start, BicBis(s, instr))
  {
    hide GetGam, PutGam, Restore;
    var width, clear := WidthOf(instr), instr / 0x1000 % 8 == 4;
    TwoOperandsTrack(start, s, instr, width, true);
    var src := GetGam(s, SrcMode(instr), SrcReg(instr), width, true);
    if src.Next? {
      var dst := GetGam(src.cpu, DstMode(instr), DstReg(instr), width, true);
      if dst.Next? {
        PutAbortTracks(start, dst.cpu, dst.value, Masked(clear, dst.value.value, src.value.value));
      }
    }
  }

  lemma SumRestartable(start: Cpu, s: Cpu, instr: Word)
    requires OnTrack(start, s, 0)
    ensures Restartable(start, Sum(s, instr))
  {
    hide GetGam, PutGam, Restore;
    TwoOperandsTrack(start, s, instr, WordWide, true);
    var src := GetGam(s, SrcMode(instr), SrcReg(instr), WordWide, true);
    if src.Next? {
      var dst := GetGam(src.cpu, DstMode(instr), DstReg(instr), WordWide, true);
      if dst.Next? {
        var (result, f) :=
          if instr >= 0x8000 then Sub(dst.value.value, src.value.value) else Add(dst.value.value, src.value.value);
        PutAbortTracks(start, dst.cpu, dst.value, result);
      }
    }
  }

  lemma ExclusiveOrRestartable(start: Cpu, s: Cpu, instr: Word)
    requires OnTrack(start, s, 0)
    ensures Restartable(start, ExclusiveOr(s, instr))
  {
    hide GetGam, PutGam, Restore;
    GamTracks(start, s, 0, DstMode(instr), DstReg(instr), WordWide, true);
    var dst := GetGam(s, DstMode(instr), DstReg(instr), WordWide, true);
    if dst.Next? {
      PutAbortTracks(start, dst.cpu, dst.value, Xor(dst.value.value, s.Reg(SrcReg(instr))));
    }
  }

  lemma CarryRestartable(start: Cpu, s: Cpu, instr: Word, subtract: bool)
    requires OnTrack(start, s, 0)
    ensures Restartable(start, Carry(s, instr, subtract))
  {
    hide GetGam, PutGam, Restore;
    var width := WidthOf(instr);
    GamTracks(start, s, 0, DstMode(instr), DstReg(instr), width, true);
    var g := GetGam(s, DstMode(instr), DstReg(instr), width, true);
    if g.Next? {
      var x := Mask(g.value.value, width);
      var (r, f) := Carried(x, g.cpu.psw.c, width, subtract);
      PutAbortTracks(start, g.cpu, g.value, r);
    }
  }

  /** MUL, DIV, ASH and ASHC read one operand and then only write registers. */
  lemma RegisterResultRestartable(start: Cpu, s: Cpu, instr: Word)
    requires OnTrack(start, s, 0)
    ensures Restartable(start, Mul(s, instr)) && Restartable(start, Div(s, instr))
    ensures Restartable(start, Ash(s, instr)) && Restartable(start, Ashc(s, instr))
  {
    hide GetGam, Restore, Multiply, Divide, Shifted, Trim, ShiftFlags;
    GamTracks(start, s, 0, DstMode(instr), DstReg(instr), WordWide, true);
  }

  lemma ExecuteRestartable(start: Cpu, s: Cpu, instr: Word)
    requires OnTrack(start, s, 0)
    ensures Restartable(start, Execute(s, instr))
  {
    hide Mov, CmpBit, BicBis, Sum, ExclusiveOr, Carry, Mul, Div, Ash, Ashc, BranchTaken, Undoable, OnTrack;
    MovRestartable(start, s, instr);
    CmpBitRestartable(start, s, instr);
    BicBisRestartable(start, s, instr);
    SumRestartable(start, s, instr);
    ExclusiveOrRestartable(start, s, instr);
    CarryRestartable(start, s, instr, false);
    CarryRestartable(start, s, instr, true);
    RegisterResultRestartable(start, s, instr);
  }

  lemma StartOnTrack(s: Cpu)
    requires !s.bus.mmu.Locked()
    ensures OnTrack(s, StartInstruction(s), 0)
  {
    var t := StartInstruction(s);
    UnlogNothing(t);
  }

  /** Instruction restart: at every abort, of the fetch or of any operand, in any pair of
      addressing modes, subtracting the logged deltas and setting PC to MMR2 gives back the
      registers from before the instruction; status word and RAM have not changed. */
  lemma InstructionRestart(s: Cpu)
    requires !s.bus.mmu.Locked()
    ensures Step(s).Aborted? ==>
            var a := Step(s).cpu;
            Restore(a) == s.regs && a.psw == s.psw && a.bus.ram == s.bus.ram
  {
    hide Execute, Load, Restore;
    StartOnTrack(s);
    var s1 := StartInstruction(s);
    LoadTracks(s, s1, 0, s1.regs.pc, WordWide, ISpace);
    var o := Load(s1, s1.regs.pc, WordWide, ISpace);
    if o.Next? {
      PcOnTrack(s, o.cpu, 0, 2);
      ExecuteRestartable(s, o.cpu.AddReg(PC, 2), o.value);
    }
  }
}
