/** What the eight addressing modes mean (cpu.cpp), told from the state before them alone: where
    the operand is, what it is, and what becomes of the registers. */
module Operands {
  import opened Words
  import opened ProcessorStatus
  import opened Mmu
  import opened Bus
  import opened CpuState
  import opened Instructions

  /** `t` finds in memory what `s` finds there. */
  predicate Sees(s: Cpu, t: Cpu) {
    t.psw == s.psw && t.bus.ram == s.bus.ram && SameTranslation(s.bus.mmu, t.bus.mmu)
  }

  function WordAt(s: Cpu, address: Word, space: Space): Option<Word> {
    match Read(s.bus, s.psw.mode, address, WordWide, space)
    case Done(value, _) => Some(value)
    case _ => None
  }

  /** The address of an operand in memory, as the processor handbook gives it: the register, the
      register stepped back, or the register as it is after PC has moved plus the word at PC; in
      the odd modes but the first the word that is found there. */
  function AddressOf(s: Cpu, mode: int, nr: RegNr, width: Width): Option<Word>
    requires 1 <= mode < 8
  {
    var r, own := s.Reg(nr), if nr == PC then ISpace else DSpace;
    match mode
    case 1 => Some(r)
    case 2 => Some(r)
    case 3 => WordAt(s, r, own)
    case 4 => Some((r - (if width == ByteWide && nr < 6 then 1 else 2)) % 0x1_0000)
    case 5 => WordAt(s, (r - 2) % 0x1_0000, own)
    case _ =>
      match WordAt(s, s.Reg(PC), ISpace)
      case None => None
      case Some(index) =>
        var sum := (r + index + (if nr == PC then 2 else 0)) % 0x1_0000;
        if mode == 6 then Some(sum) else WordAt(s, sum, DSpace)
  }

  /** How far a mode moves a register. */
  function Moves(mode: int, nr: RegNr, width: Width, other: RegNr): int {
    if mode >= 6 then (if other == PC then 2 else 0)
    else if other != nr || mode < 2 then 0
    else
      var step := if width == ByteWide && nr < 6 && (mode == 2 || mode == 4) then 1 else 2;
      if mode < 4 then step else -step
  }

  /** The space an operand is read from: that of its register, unless its address was fetched
      or computed. */
  function ReadSpace(mode: int, nr: RegNr): Space {
    if nr == PC && (mode == 1 || mode == 2 || mode == 4) then ISpace else DSpace
  }

  /** The space a result is written to. */
  function WriteSpace(mode: int, nr: RegNr): Space {
    if nr == PC && mode < 3 then ISpace else DSpace
  }

  /** Whether an operand can be fetched: no read on the way to it fails. */
  predicate Reachable(s: Cpu, mode: int, nr: RegNr, width: Width, wanted: bool)
    requires 0 <= mode < 8
  {
    mode == 0 ||
    match AddressOf(s, mode, nr, width)
    case None => false
    case Some(a) => wanted ==> Read(s.bus, s.psw.mode, a, width, ReadSpace(mode, nr)).Done?
  }

  /** The operand an addressing mode means. */
  predicate Means(s: Cpu, mode: int, nr: RegNr, width: Width, wanted: bool, g: Gam)
    requires 0 <= mode < 8
  {
    g.width == width && g.space == WriteSpace(mode, nr) &&
    if mode == 0 then
      g.place == InRegister(nr) && g.value == s.Reg(nr) % (if width == ByteWide then 0x100 else 0x1_0000)
    else
      match AddressOf(s, mode, nr, width)
      case None => false
      case Some(a) =>
        && g.place == AtAddress(a)
        && (wanted ==> var r := Read(s.bus, s.psw.mode, a, width, ReadSpace(mode, nr)); r.Done? && r.value == g.value)
  }

  /** All registers of the current set and mode have moved as the mode moves them, and nothing
      else has changed but page bits and MMR1. */
  predicate Moved(s: Cpu, mode: int, nr: RegNr, width: Width, t: Cpu) {
    && Sees(s, t) && t == s.(regs := t.regs, bus := t.bus)
    && (forall other: RegNr :: t.Reg(other) == (s.Reg(other) + Moves(mode, nr, width, other)) % 0x1_0000)
    && (forall i :: 0 <= i < 12 && !(nr < 6 && i == s.GeneralIndex(nr)) ==> t.regs.general[i] == s.regs.general[i])
    && (forall m :: 0 <= m < 4 && m != s.psw.mode ==> t.regs.sp[m] == s.regs.sp[m])
  }

  // --- Steps ---

  lemma SeesTransitive(s: Cpu, t: Cpu, u: Cpu)
    requires Sees(s, t) && Sees(t, u)
    ensures Sees(s, u)
  {
    SameTranslationTransitive(s.bus.mmu, t.bus.mmu, u.bus.mmu);
  }

  /** A read in a later state of the same instruction is one in the first state. */
  lemma LoadIs(s: Cpu, u: Cpu, address: Word, width: Width, space: Space)
    requires Sees(s, u)
    ensures var o, r := Load(u, address, width, space), Read(s.bus, s.psw.mode, address, width, space);
            (o.Next? <==> r.Done?)
            && (o.Next? ==> o.value == r.value && o.cpu == u.(bus := o.cpu.bus) && Sees(s, o.cpu))
  {
    hide Read;
    ReadsStable(s.bus, u.bus, s.psw.mode, address, width, space);
    AccessKeepsTranslation(u.bus, u.psw.mode, address, width, 0, space);
    var o := Load(u, address, width, space);
    if o.Next? {
      SeesTransitive(s, u, o.cpu);
    }
  }

  lemma FetchIs(s: Cpu, u: Cpu, address: Word, width: Width, from: Space, to: Space, wanted: bool)
    requires Sees(s, u)
    ensures var o, r := Fetch(u, address, width, from, to, wanted), Read(s.bus, s.psw.mode, address, width, from);
            (o.Next? <==> (wanted ==> r.Done?))
            && (o.Next? ==> o.value == Gam(width, to, AtAddress(address), if wanted then r.value else 0)
                            && o.cpu == u.(bus := o.cpu.bus) && Sees(s, o.cpu))
  {
    hide Load, Read, Sees;
    LoadIs(s, u, address, width, from);
  }

  lemma BumpIs(s: Cpu, u: Cpu, nr: RegNr, delta: int)
    requires Sees(s, u)
    ensures var t := Bump(u, nr, delta);
            Sees(s, t) && t.regs == u.WithReg(nr, Wrap(u.Reg(nr) + delta)).regs
            && t == u.(regs := t.regs, bus := t.bus)
            && t.Reg(nr) == (u.Reg(nr) + delta) % 0x1_0000
  {
  }

  lemma IndexedIs(s: Cpu, nr: RegNr)
    ensures var o, index := Indexed(s, nr), WordAt(s, s.Reg(PC), ISpace);
            (o.Next? <==> index.Some?)
            && (o.Next? ==> o.value == (s.Reg(nr) + index.value + (if nr == PC then 2 else 0)) % 0x1_0000
                            && Sees(s, o.cpu) && o.cpu == s.(regs := o.cpu.regs, bus := o.cpu.bus)
                            && o.cpu.regs == s.WithReg(PC, Wrap(s.Reg(PC) + 2)).regs)
  {
    hide Load, Read;
    LoadIs(s, s, s.Reg(PC), WordWide, ISpace);
  }

  lemma Unmoved(s: Cpu, nr: RegNr)
    ensures s.WithReg(nr, Wrap(s.Reg(nr) + 0)) == s
  {
    if nr < 6 {
      assert s.regs.general[s.GeneralIndex(nr) := s.Reg(nr)] == s.regs.general;
    } else if nr == SP {
      assert s.regs.sp[s.psw.mode := s.Reg(SP)] == s.regs.sp;
    }
  }

  /** Assigning one register. */
  lemma OneAssigned(s: Cpu, nr: RegNr, value: Word, other: RegNr)
    ensures s.WithReg(nr, value).Reg(other) == if other == nr then value else s.Reg(other)
  {
  }

  /** The two sets of registers and the four stack pointers are apart: what is assigned in one is
      not seen from another. */
  lemma BanksApart(s: Cpu, nr: RegNr, value: Word, other: Psw)
    ensures nr < 6 && other.registerSet != s.psw.registerSet ==>
              forall r: RegNr :: s.WithReg(nr, value).(psw := other).Reg(r) == s.(psw := other).Reg(r)
    ensures nr == SP && other.mode != s.psw.mode ==>
              forall r: RegNr :: s.WithReg(nr, value).(psw := other).Reg(r) == s.(psw := other).Reg(r)
  {
  }

  lemma OthersKept(s: Cpu, nr: RegNr, value: Word)
    ensures var t := s.WithReg(nr, value);
            t == s.(regs := t.regs)
            && (forall i :: 0 <= i < 12 && !(nr < 6 && i == s.GeneralIndex(nr)) ==>
                  t.regs.general[i] == s.regs.general[i])
            && (forall m :: 0 <= m < 4 && m != s.psw.mode ==> t.regs.sp[m] == s.regs.sp[m])
  {
  }

  /** The state in which a mode has moved its register and reads its operand. */
  predicate Stepped(s: Cpu, mode: int, nr: RegNr, width: Width, u: Cpu)
    requires 0 <= mode < 8
  {
    var moved: RegNr := if mode < 6 then nr else PC;
    && Sees(s, u) && u == s.(regs := u.regs, bus := u.bus)
    && u.regs == s.WithReg(moved, Wrap(s.Reg(moved) + Moves(mode, nr, width, moved))).regs
  }

  lemma SteppedMoves(s: Cpu, mode: int, nr: RegNr, width: Width, u: Cpu)
    requires 0 <= mode < 8 && Stepped(s, mode, nr, width, u)
    ensures Moved(s, mode, nr, width, u)
  {
    hide Sees, Cpu.WithReg, Cpu.Reg;
    var moved: RegNr := if mode < 6 then nr else PC;
    var value := Wrap(s.Reg(moved) + Moves(mode, nr, width, moved));
    OthersKept(s, moved, value);
    forall other: RegNr ensures u.Reg(other) == (s.Reg(other) + Moves(mode, nr, width, other)) % 0x1_0000 {
      OneAssigned(s, moved, value, other);
      SameRegs(s.WithReg(moved, value), u, other);
    }
  }

  lemma SameRegs(s: Cpu, t: Cpu, nr: RegNr)
    requires t.regs == s.regs && t.psw == s.psw
    ensures t.Reg(nr) == s.Reg(nr)
  {
  }

  /** An operand as it should be, or no operand because it cannot be reached. */
  predicate Correct(s: Cpu, mode: int, nr: RegNr, width: Width, wanted: bool, o: Outcome<Gam>)
    requires 0 <= mode < 8
  {
    (o.Next? <==> Reachable(s, mode, nr, width, wanted))
    && (o.Next? ==> Means(s, mode, nr, width, wanted, o.value) && Moved(s, mode, nr, width, o.cpu))
  }

  lemma FetchCorrect(s: Cpu, mode: int, nr: RegNr, width: Width, wanted: bool, u: Cpu, a: Word)
    requires 1 <= mode < 8 && Stepped(s, mode, nr, width, u) && AddressOf(s, mode, nr, width) == Some(a)
    ensures Correct(s, mode, nr, width, wanted,
                    Fetch(u, a, width, ReadSpace(mode, nr), WriteSpace(mode, nr), wanted))
  {
    hide Fetch, Read, Sees, Moves, Moved, AddressOf, ReadSpace, WriteSpace, Cpu.WithReg, Cpu.Reg;
    FetchIs(s, u, a, width, ReadSpace(mode, nr), WriteSpace(mode, nr), wanted);
    var o := Fetch(u, a, width, ReadSpace(mode, nr), WriteSpace(mode, nr), wanted);
    if o.Next? {
      SteppedMoves(s, mode, nr, width, o.cpu);
    }
  }

  lemma RegisterCorrect(s: Cpu, nr: RegNr, width: Width, wanted: bool)
    ensures Correct(s, 0, nr, width, wanted, GetGam(s, 0, nr, width, wanted))
  {
    assert Sees(s, s);
    hide Sees, Moved;
    Unmoved(s, nr);
    SteppedMoves(s, 0, nr, width, s);
  }

  lemma DirectCorrect(s: Cpu, mode: int, nr: RegNr, width: Width, wanted: bool)
    requires mode == 1 || mode == 2 || mode == 4
    ensures Correct(s, mode, nr, width, wanted, GetGam(s, mode, nr, width, wanted))
  {
    hide Fetch, Bump, Sees, Correct, AddressOf, Stepped, Cpu.Reg, Cpu.WithReg;
    var u := if mode == 1 then s
             else Bump(s, nr, if mode == 2 then StepSize(nr, width) else -StepSize(nr, width));
    DirectStepped(s, mode, nr, width, u);
    FetchCorrect(s, mode, nr, width, wanted, u, if mode == 4 then u.Reg(nr) else s.Reg(nr));
  }

  lemma DirectStepped(s: Cpu, mode: int, nr: RegNr, width: Width, u: Cpu)
    requires mode == 1 || mode == 2 || mode == 4
    requires u == if mode == 1 then s
                  else Bump(s, nr, if mode == 2 then StepSize(nr, width) else -StepSize(nr, width))
    ensures Stepped(s, mode, nr, width, u)
    ensures AddressOf(s, mode, nr, width) == Some(if mode == 4 then u.Reg(nr) else s.Reg(nr))
  {
    assert Sees(s, s);
    hide Bump, Sees, Cpu.Reg, Cpu.WithReg;
    Unmoved(s, nr);
    BumpIs(s, s, nr, StepSize(nr, width));
    BumpIs(s, s, nr, -StepSize(nr, width));
  }

  lemma DeferredCorrect(s: Cpu, nr: RegNr, width: Width, wanted: bool)
    ensures Correct(s, 3, nr, width, wanted, GetGam(s, 3, nr, width, wanted))
  {
    hide Load, Fetch, Bump, Sees, Means, Moved, AddressOf, Stepped, Cpu.Reg, Cpu.WithReg;
    DeferredStepped(s, nr, width);
    var p := Load(s, s.Reg(nr), WordWide, RegisterSpace(nr));
    if p.Next? {
      FetchCorrect(s, 3, nr, width, wanted, Bump(p.cpu, nr, 2), p.value);
    }
  }

  lemma DeferredStepped(s: Cpu, nr: RegNr, width: Width)
    ensures var p, a := Load(s, s.Reg(nr), WordWide, RegisterSpace(nr)), AddressOf(s, 3, nr, width);
            (p.Next? <==> a.Some?)
            && (p.Next? ==> a == Some(p.value) && Stepped(s, 3, nr, width, Bump(p.cpu, nr, 2)))
  {
    assert Sees(s, s);
    hide Load, Bump, Read, Sees, Wrap, Cpu.Reg, Cpu.WithReg;
    LoadIs(s, s, s.Reg(nr), WordWide, RegisterSpace(nr));
    var p := Load(s, s.Reg(nr), WordWide, RegisterSpace(nr));
    if p.Next? {
      BumpIs(s, p.cpu, nr, 2);
      SameRegs(s, p.cpu, nr);
      BusApart(s, p.cpu, nr, Wrap(s.Reg(nr) + 2));
    }
  }

  lemma BusApart(s: Cpu, t: Cpu, nr: RegNr, value: Word)
    requires t.regs == s.regs && t.psw == s.psw
    ensures t.WithReg(nr, value).regs == s.WithReg(nr, value).regs
  {
  }

  lemma DownDeferredCorrect(s: Cpu, nr: RegNr, width: Width, wanted: bool)
    ensures Correct(s, 5, nr, width, wanted, GetGam(s, 5, nr, width, wanted))
  {
    hide Load, Fetch, Bump, Sees, Means, Moved, AddressOf, Stepped, Cpu.Reg, Cpu.WithReg;
    DownDeferredStepped(s, nr, width);
    var s1 := Bump(s, nr, -2);
    var p := Load(s1, s1.Reg(nr), WordWide, RegisterSpace(nr));
    if p.Next? {
      FetchCorrect(s, 5, nr, width, wanted, p.cpu, p.value);
    }
  }

  lemma DownDeferredStepped(s: Cpu, nr: RegNr, width: Width)
    ensures var s1, a := Bump(s, nr, -2), AddressOf(s, 5, nr, width);
            var p := Load(s1, s1.Reg(nr), WordWide, RegisterSpace(nr));
            (p.Next? <==> a.Some?) && (p.Next? ==> a == Some(p.value) && Stepped(s, 5, nr, width, p.cpu))
  {
    assert Sees(s, s);
    hide Load, Bump, Read, Sees, Cpu.Reg, Cpu.WithReg;
    BumpIs(s, s, nr, -2);
    var s1 := Bump(s, nr, -2);
    LoadIs(s, s1, s1.Reg(nr), WordWide, RegisterSpace(nr));
  }

  lemma IndexedCorrect(s: Cpu, mode: int, nr: RegNr, width: Width, wanted: bool)
    requires mode == 6 || mode == 7
    ensures Correct(s, mode, nr, width, wanted, GetGam(s, mode, nr, width, wanted))
  {
    hide Load, Fetch, Indexed, Read, Sees, Moved;
    IndexedIs(s, nr);
    var p := Indexed(s, nr);
    if p.Next? {
      LoadIs(s, p.cpu, p.value, WordWide, DSpace);
      var q := Load(p.cpu, p.value, WordWide, DSpace);
      if mode == 6 {
        FetchCorrect(s, mode, nr, width, wanted, p.cpu, p.value);
      } else if q.Next? {
        FetchCorrect(s, mode, nr, width, wanted, q.cpu, q.value);
      }
    }
  }

  /** Where each addressing mode finds its operand, when it does, and what it does to the
      registers: everything from the state before it. */
  lemma OperandIs(s: Cpu, mode: int, nr: RegNr, width: Width, wanted: bool)
    requires 0 <= mode < 8
    ensures var o := GetGam(s, mode, nr, width, wanted);
            (o.Next? <==> Reachable(s, mode, nr, width, wanted))
            && (o.Next? ==> Means(s, mode, nr, width, wanted, o.value) && Moved(s, mode, nr, width, o.cpu))
  {
    hide GetGam, Reachable, Means, Moved;
    match mode
    case 0 => RegisterCorrect(s, nr, width, wanted);
    case 3 => DeferredCorrect(s, nr, width, wanted);
    case 5 => DownDeferredCorrect(s, nr, width, wanted);
    case 6 => IndexedCorrect(s, mode, nr, width, wanted);
    case 7 => IndexedCorrect(s, mode, nr, width, wanted);
    case _ => DirectCorrect(s, mode, nr, width, wanted);
  }

  // --- Results ---

  /** Only the bytes of one address have changed. */
  predicate StoredIn(s: Cpu, address: Word, width: Width, space: Space, ram: Ram) {
    match Locate(s.bus, s.psw.mode, address, space)
    case Cell(home, _) =>
      |ram| == |s.bus.ram|
      && forall i :: 0 <= i < |ram| && i != home && !(width == WordWide && i == home + 1) ==> ram[i] == s.bus.ram[i]
    case _ => false
  }

  /** A finished store changes the bytes it has room for, and a read finds them. */
  lemma StoreIs(s: Cpu, address: Word, width: Width, value: Word, space: Space)
    requires Store(s, address, width, value, space).Next?
    ensures var t := Store(s, address, width, value, space).cpu;
            t == s.(bus := t.bus) && SameTranslation(s.bus.mmu, t.bus.mmu)
            && StoredIn(s, address, width, space, t.bus.ram)
            && var r := Read(t.bus, s.psw.mode, address, width, space);
               r.Done? && r.value == value % (if width == ByteWide then 0x100 else 0x1_0000)
  {
    StoreSpares(s, address, width, value, space);
    hide Write, Read, StoredIn;
    WriteReadBack(s.bus, s.psw.mode, address, width, value, space);
    AccessKeepsTranslation(s.bus, s.psw.mode, address, width, value, space);
  }

  lemma StoreSpares(s: Cpu, address: Word, width: Width, value: Word, space: Space)
    requires Store(s, address, width, value, space).Next?
    ensures StoredIn(s, address, width, space, Store(s, address, width, value, space).cpu.bus.ram)
  {
    hide Locate;
  }

  /** What is put back into an operand is found again at its place, and nothing else changes. */
  lemma PutIs(s: Cpu, g: Gam, value: Word)
    ensures match PutGam(s, g, value)
            case Next(_, t) =>
              (match g.place
               case InRegister(nr) => t == s.WithReg(nr, value) && t.Reg(nr) == value
               case AtAddress(a) =>
                 t == s.(bus := t.bus) && SameTranslation(s.bus.mmu, t.bus.mmu)
                 && StoredIn(s, a, g.width, g.space, t.bus.ram)
                 && var r := Read(t.bus, s.psw.mode, a, g.width, g.space);
                    r.Done? && r.value == value % (if g.width == ByteWide then 0x100 else 0x1_0000))
            case _ => true
  {
    hide Cpu.WithReg, Cpu.Reg, Store, Read, StoredIn;
    match g.place
    case InRegister(nr) => OneAssigned(s, nr, value, nr);
    case AtAddress(a) =>
      if Store(s, a, g.width, value, g.space).Next? {
        StoreIs(s, a, g.width, value, g.space);
      }
  }
}
