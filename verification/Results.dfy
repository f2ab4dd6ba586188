/** What executed instructions make of their operands (cpu.cpp), bit by bit and as numbers. Where
    the operands are is the business of Operands.dfy. */
module Results {
  import opened Words
  import opened Bits
  import opened Division
  import opened Mmu
  import opened Bus
  import opened CpuState
  import opened Arithmetic
  import opened Instructions
  import opened Operands

  /** Only condition codes differ: N and Z say what `result` is at this width, V is clear and C
      is as it was. */
  predicate Tested(s: Cpu, result: Word, width: Width, t: Cpu) {
    && t == s.(psw := s.psw.(n := t.psw.n, z := t.psw.z, v := false))
    && (t.psw.n <==> BitOf(result, if width == ByteWide then 7 else 15))
    && (t.psw.z <==> result % (if width == ByteWide then 0x100 else 0x1_0000) == 0)
  }

  lemma TopBit(x: Word, width: Width)
    ensures Negative(x, width) <==> BitOf(x, if width == ByteWide then 7 else 15)
  {
    assert Pow2(7) == 0x80;
    Pow2Sum(7, 8);
    assert Pow2(8) == 0x100;
    QuotientIs(x, 0x100, x / 0x80 / 2, x / 0x80 % 2 * 0x80 + x % 0x80);
  }

  lemma NzvIs(s: Cpu, result: Word, width: Width)
    ensures Tested(s, result, width, Nzv(s, result, width))
  {
    hide BitOf, Negative;
    TopBit(result, width);
  }

  // --- MOV, BIT, BIC, BIS and XOR ---

  /** The instruction has put `result` into `dst`, in the state `s2`, and set the condition codes
      by it. */
  predicate Put(s2: Cpu, dst: Gam, result: Word, width: Width, o: Outcome<()>) {
    PutGam(s2, dst, result).Next? && o.Next? && Tested(PutGam(s2, dst, result).cpu, result, width, o.cpu)
  }

  lemma MovCode(s: Cpu, instr: Word)
    requires instr / 0x1000 % 8 == 1
    ensures Execute(s, instr) == Mov(s, instr)
  {
    hide Mov;
  }

  /** MOV stores its source; MOVB into a register fills the high byte with the sign. */
  lemma MovIs(s: Cpu, instr: Word, src: Gam, s1: Cpu)
    requires instr / 0x1000 % 8 == 1 && Execute(s, instr).Next?
    requires GetGam(s, SrcMode(instr), SrcReg(instr), WidthOf(instr), true) == Next(src, s1)
    ensures if WidthOf(instr) == ByteWide && DstMode(instr) == 0 then
              var moved := src.value % 0x100 + (if src.value / 0x80 % 2 == 1 then 0xFF00 else 0);
              Tested(s1.WithReg(DstReg(instr), moved), src.value, ByteWide, Execute(s, instr).cpu)
            else
              var dst := GetGam(s1, DstMode(instr), DstReg(instr), WidthOf(instr), false);
              dst.Next? && Put(dst.cpu, dst.value, src.value, WidthOf(instr), Execute(s, instr))
  {
    hide GetGam, PutGam, Nzv, Tested, Cpu.WithReg, SrcReg, DstReg, SrcMode, WidthOf;
    MovCode(s, instr);
    SignExtended(src.value);
    var moved := Wrap(SignedByte(Low(src.value)));
    NzvIs(s1.WithReg(DstReg(instr), moved), src.value, ByteWide);
    var dst := GetGam(s1, DstMode(instr), DstReg(instr), WidthOf(instr), false);
    if dst.Next? && PutGam(dst.cpu, dst.value, src.value).Next? {
      NzvIs(PutGam(dst.cpu, dst.value, src.value).cpu, src.value, WidthOf(instr));
    }
  }

  lemma SignExtended(x: Word)
    ensures Wrap(SignedByte(Low(x))) == x % 0x100 + (if x / 0x80 % 2 == 1 then 0xFF00 else 0)
  {
    QuotientIs(x, 0x100, x / 0x80 / 2, x / 0x80 % 2 * 0x80 + x % 0x80);
  }

  /** BIT leaves both operands alone and tests the bits they share. */
  lemma BitIs(s: Cpu, instr: Word, src: Gam, s1: Cpu, dst: Gam, s2: Cpu) returns (result: Word)
    requires instr / 0x1000 % 8 == 3
    requires GetGam(s, SrcMode(instr), SrcReg(instr), WidthOf(instr), true) == Next(src, s1)
    requires GetGam(s1, DstMode(instr), DstReg(instr), WidthOf(instr), true) == Next(dst, s2)
    ensures Execute(s, instr).Next? && Tested(s2, result, WidthOf(instr), Execute(s, instr).cpu)
    ensures forall i :: 0 <= i < (if WidthOf(instr) == ByteWide then 8 else 16) ==>
              BitOf(result, i) == (BitOf(dst.value, i) && BitOf(src.value, i))
  {
    hide GetGam, Nzv, Tested, BitOf, And, SrcReg, DstReg, SrcMode, WidthOf, Mask;
    result := Mask(And(dst.value, src.value), WidthOf(instr));
    assert Execute(s, instr) == CmpBit(s, instr);
    NzvIs(s2, result, WidthOf(instr));
    forall i | 0 <= i < (if WidthOf(instr) == ByteWide then 8 else 16)
      ensures BitOf(result, i) == (BitOf(dst.value, i) && BitOf(src.value, i))
    {
      OperatorBits(dst.value, src.value, i);
      MaskedBit(And(dst.value, src.value), WidthOf(instr), i);
    }
  }

  lemma MaskedBit(x: Word, width: Width, i: nat)
    requires i < if width == ByteWide then 8 else 16
    ensures BitOf(Mask(x, width), i) == BitOf(x, i)
  {
    hide BitOf;
    assert Pow2(8) == 0x100;
    LowBit(x, 8, if i < 8 then i else 0);
  }

  /** The destination of BIC and BIS: all of a register also for the byte forms. */
  function WholeDestination(s: Cpu, instr: Word): Outcome<Gam> {
    if DstMode(instr) == 0 then
      Next(Gam(WidthOf(instr), RegisterSpace(DstReg(instr)), InRegister(DstReg(instr)), s.Reg(DstReg(instr))), s)
    else GetGam(s, DstMode(instr), DstReg(instr), WidthOf(instr), true)
  }

  /** BIC clears the source's bits in the destination, BIS sets them. */
  lemma BicBisIs(s: Cpu, instr: Word, src: Gam, s1: Cpu, dst: Gam, s2: Cpu) returns (result: Word)
    requires (instr / 0x1000 % 8 == 4 || instr / 0x1000 % 8 == 5) && Execute(s, instr).Next?
    requires GetGam(s, SrcMode(instr), SrcReg(instr), WidthOf(instr), true) == Next(src, s1)
    requires WholeDestination(s1, instr) == Next(dst, s2)
    ensures Put(s2, dst, result, WidthOf(instr), Execute(s, instr))
    ensures forall i :: 0 <= i < 16 ==>
              BitOf(result, i) == if instr / 0x1000 % 8 == 4 then BitOf(dst.value, i) && !BitOf(src.value, i)
                                  else BitOf(dst.value, i) || BitOf(src.value, i)
  {
    hide GetGam, PutGam, Nzv, Tested, BitOf, And, Or, Not, SrcReg, DstReg, SrcMode, WidthOf, Cpu.WithReg, Cpu.Reg;
    var clear := instr / 0x1000 % 8 == 4;
    result := Masked(clear, dst.value, src.value);
    assert Execute(s, instr) == BicBis(s, instr);
    if DstMode(instr) == 0 {
      WholePut(s1, instr, result);
    }
    NzvIs(PutGam(s2, dst, result).cpu, result, WidthOf(instr));
    forall i | 0 <= i < 16
      ensures BitOf(result, i) == if clear then BitOf(dst.value, i) && !BitOf(src.value, i)
                                  else BitOf(dst.value, i) || BitOf(src.value, i)
    {
      OperatorBits(dst.value, src.value, i);
      OperatorBits(dst.value, Not(src.value), i);
      OperatorBits(src.value, 0, i);
    }
  }

  lemma WholePut(s: Cpu, instr: Word, result: Word)
    requires DstMode(instr) == 0
    ensures WholeDestination(s, instr).Next?
    ensures var o := WholeDestination(s, instr);
            PutGam(o.cpu, o.value, result).Next?
            && PutGam(o.cpu, o.value, result).cpu == s.WithReg(DstReg(instr), result)
  {
    hide Cpu.WithReg, Cpu.Reg, DstReg, WidthOf;
  }

  /** XOR puts the bits in which its register and its destination differ. */
  lemma XorIs(s: Cpu, instr: Word, dst: Gam, s1: Cpu) returns (result: Word)
    requires instr / 0x200 == 0x3C && Execute(s, instr).Next?
    requires GetGam(s, DstMode(instr), DstReg(instr), WordWide, true) == Next(dst, s1)
    ensures Put(s1, dst, result, WordWide, Execute(s, instr)) && result == Xor(dst.value, s.Reg(SrcReg(instr)))
    ensures forall i :: 0 <= i < 16 ==> BitOf(result, i) == (BitOf(dst.value, i) != BitOf(s.Reg(SrcReg(instr)), i))
  {
    hide GetGam, PutGam, Nzv, Tested, BitOf, Xor, SrcReg, DstReg, Cpu.Reg;
    var x := s.Reg(SrcReg(instr));
    result := Xor(dst.value, x);
    assert instr / 0x1000 % 8 == 7 && instr / 0x200 % 8 == 4 && instr < 0x8000;
    assert Execute(s, instr) == ExclusiveOr(s, instr);
    NzvIs(PutGam(s1, dst, result).cpu, result, WordWide);
    forall i | 0 <= i < 16 ensures BitOf(result, i) == (BitOf(dst.value, i) != BitOf(x, i)) {
      OperatorBits(dst.value, x, i);
    }
  }

  lemma XorCancels(x: Word, y: Word)
    ensures Xor(Xor(x, y), y) == x
  {
    hide BitOf, Xor;
    SixteenBits();
    forall i | 0 <= i < 16 ensures BitOf(Xor(Xor(x, y), y), i) == BitOf(x, i) {
      OperatorBits(Xor(x, y), y, i);
      OperatorBits(x, y, i);
    }
    BitsDetermine(Xor(Xor(x, y), y), x, 16);
  }

  /** The destination of XOR when it is a register, or the word a register points to. */
  function Near(s: Cpu, instr: Word): Option<Word>
    requires DstMode(instr) <= 1
  {
    var nr := DstReg(instr);
    if DstMode(instr) == 0 then Some(s.Reg(nr)) else WordAt(s, s.Reg(nr), if nr == PC then ISpace else DSpace)
  }

  lemma XorFetches(s: Cpu, instr: Word)
    requires instr / 0x200 == 0x3C && Execute(s, instr).Next?
    ensures GetGam(s, DstMode(instr), DstReg(instr), WordWide, true).Next?
  {
    hide GetGam, PutGam, Xor;
    assert instr / 0x1000 % 8 == 7 && instr / 0x200 % 8 == 4 && instr < 0x8000;
  }

  lemma TestedKeeps(s: Cpu, result: Word, width: Width, t: Cpu)
    requires Tested(s, result, width, t)
    ensures t.bus == s.bus && t.psw.mode == s.psw.mode && forall nr: RegNr :: t.Reg(nr) == s.Reg(nr)
  {
  }

  lemma XorOnce(s: Cpu, instr: Word, t: Cpu)
    requires instr / 0x200 == 0x3C && DstMode(instr) <= 1
    requires Execute(s, instr).Next? && t == Execute(s, instr).cpu
    ensures Near(s, instr).Some?
            && Near(t, instr) == Some(Xor(Near(s, instr).value, s.Reg(SrcReg(instr))))
    ensures forall nr: RegNr :: DstMode(instr) == 1 || nr != DstReg(instr) ==> t.Reg(nr) == s.Reg(nr)
  {
    hide GetGam, Execute, Xor, Sees, SrcReg, DstReg, Read, Cpu.Reg, Cpu.WithReg, Tested, Store, BitOf;
    var nr, mode := DstReg(instr), DstMode(instr);
    XorFetches(s, instr);
    OperandIs(s, mode, nr, WordWide, true);
    var g := GetGam(s, mode, nr, WordWide, true);
    var result := XorIs(s, instr, g.value, g.cpu);
    PutIs(g.cpu, g.value, result);
    var put := PutGam(g.cpu, g.value, result).cpu;
    TestedKeeps(put, result, WordWide, t);
    forall r: RegNr ensures put.Reg(r) == if mode == 0 && r == nr then result else s.Reg(r) {
      NearPut(s, instr, g.cpu, put, result, r);
    }
  }

  /** What putting the result does to one register. */
  lemma NearPut(s: Cpu, instr: Word, fetched: Cpu, put: Cpu, result: Word, r: RegNr)
    requires DstMode(instr) <= 1 && Moved(s, DstMode(instr), DstReg(instr), WordWide, fetched)
    requires if DstMode(instr) == 0 then put == fetched.WithReg(DstReg(instr), result)
             else put == fetched.(bus := put.bus)
    ensures put.Reg(r) == if DstMode(instr) == 0 && r == DstReg(instr) then result else s.Reg(r)
  {
    hide Sees, DstReg, Cpu.Reg, Cpu.WithReg;
    if DstMode(instr) == 0 {
      OneAssigned(fetched, DstReg(instr), result, r);
    } else {
      SameRegs(fetched, put, r);
    }
  }

  /** XOR twice puts a register, or the word a register points to, back as it was. */
  lemma XorTwice(s: Cpu, instr: Word, t: Cpu, u: Cpu)
    requires instr / 0x200 == 0x3C && DstMode(instr) <= 1 && SrcReg(instr) != DstReg(instr)
    requires Execute(s, instr).Next? && t == Execute(s, instr).cpu
    requires Execute(t, instr).Next? && u == Execute(t, instr).cpu
    ensures Near(s, instr).Some? && Near(u, instr) == Near(s, instr)
  {
    hide Execute, Xor, SrcReg, DstReg, Near;
    XorOnce(s, instr, t);
    XorOnce(t, instr, u);
    XorCancels(Near(s, instr).value, s.Reg(SrcReg(instr)));
  }

  // --- The fetch ---

  /** PC has moved past the instruction; MMR2 has its address and MMR1 is empty, unless they are
      frozen. Nothing else has changed but page bits. */
  predicate Fetched(s: Cpu, ready: Cpu) {
    && Sees(s, ready) && ready == s.(regs := s.regs.(pc := (s.regs.pc + 2) % 0x1_0000), bus := ready.bus)
    && var was, now := s.bus.mmu, ready.bus.mmu;
       if was.mmr0 / 0x2000 == 0 then now.mmr2 == s.regs.pc && now.mmr1 == 0
       else now.mmr2 == was.mmr2 && now.mmr1 == was.mmr1
  }

  /** A step runs the instruction word it finds at PC. */
  lemma StepIs(s: Cpu) returns (ready: Cpu)
    ensures match WordAt(s, s.regs.pc, ISpace)
            case None => !Step(s).Next?
            case Some(instr) => Step(s) == Execute(ready, instr) && Fetched(s, ready)
  {
    var s1 := StartInstruction(s);
    Started(s);
    hide Read, Execute, StartInstruction, Load;
    LoadIs(s, s1, s.regs.pc, WordWide, ISpace);
    var o := Load(s1, s.regs.pc, WordWide, ISpace);
    ready := s;
    if o.Next? {
      LoadKeepsLog(s1, s.regs.pc, ISpace);
      PcMoved(s, o.cpu);
      ready := o.cpu.AddReg(PC, 2);
    }
  }

  lemma Started(s: Cpu)
    ensures var t := StartInstruction(s);
            && Sees(s, t) && t == s.(bus := t.bus)
            && if s.bus.mmu.mmr0 / 0x2000 == 0 then t.bus.mmu.mmr2 == s.regs.pc && t.bus.mmu.mmr1 == 0
               else t.bus.mmu == s.bus.mmu
  {
  }

  lemma LoadKeepsLog(s: Cpu, address: Word, space: Space)
    ensures match Load(s, address, WordWide, space)
            case Next(_, t) => t.bus.mmu.mmr1 == s.bus.mmu.mmr1 && t.bus.mmu.mmr2 == s.bus.mmu.mmr2
            case _ => true
  {
    hide Read;
    AccessKeepsTranslation(s.bus, s.psw.mode, address, WordWide, 0, space);
  }

  lemma PcMoved(s: Cpu, t: Cpu)
    requires Sees(s, t)
    ensures Sees(s, t.AddReg(PC, 2)) && t.AddReg(PC, 2).bus == t.bus
    ensures t.AddReg(PC, 2) == t.(regs := t.regs.(pc := (t.regs.pc + 2) % 0x1_0000))
  {
  }
}
