/** Addressing modes and the instructions that read and write operands (cpu.cpp), on values.
    Every register change of an addressing mode is logged in MMR1, so that an instruction a
    memory abort cuts short can be undone and started again. */
module Instructions {
  import opened Words
  import opened Bits
  import opened Mmu
  import opened Bus
  import opened CpuState
  import opened Arithmetic
  import opened Shifter

  // --- Addressing modes ---

  datatype Place = InRegister(nr: RegNr) | AtAddress(address: Word)

  /** An operand: `space` is where a result goes, `value` what was read. */
  datatype Gam = Gam(width: Width, space: Space, place: Place, value: Word)

  /** One MMR1 entry: a 5-bit signed delta above a register number. */
  function Entry(nr: RegNr, delta: int): Byte {
    delta % 32 * 8 + nr
  }

  /** `add_to_MMR1`: entries push older ones up a byte. */
  function Log(s: Cpu, nr: RegNr, delta: int): Cpu {
    if s.bus.mmu.Locked() then s
    else s.WithMmr1(s.bus.mmu.mmr1 * 0x100 % 0x1_0000 + Entry(nr, delta))
  }

  function Bump(s: Cpu, nr: RegNr, delta: int): Cpu {
    Log(s.AddReg(nr, delta), nr, delta)
  }

  function RegisterSpace(nr: RegNr): Space {
    if nr == PC then ISpace else DSpace
  }

  /** Byte operands step by one, except through SP and PC. */
  function StepSize(nr: RegNr, width: Width): int {
    if width == WordWide || nr >= 6 then 2 else 1
  }

  /** The last part of `getGAM`: read the operand if its value is wanted. */
  function Fetch(s: Cpu, address: Word, width: Width, readSpace: Space, writeSpace: Space, wanted: bool): Outcome<Gam> {
    if !wanted then Next(Gam(width, writeSpace, AtAddress(address), 0), s)
    else
      var (value, s1) :- Load(s, address, width, readSpace);
      Next(Gam(width, writeSpace, AtAddress(address), value), s1)
  }

  /** The address word of modes 6 and 7: the word at PC added to the register. */
  function Indexed(s: Cpu, nr: RegNr): Outcome<Word> {
    var (index, s1) :- Load(s, s.regs.pc, WordWide, ISpace);
    var s2 := s1.AddReg(PC, 2);
    Next(Wrap(s2.Reg(nr) + index), s2)
  }

  /** `getGAM`. */
  function GetGam(s: Cpu, mode: int, nr: RegNr, width: Width, wanted: bool): Outcome<Gam>
    requires 0 <= mode < 8
  {
    var own := RegisterSpace(nr);
    match mode
    case 0 => Next(Gam(width, own, InRegister(nr), Mask(s.Reg(nr), width)), s)
    case 1 => Fetch(s, s.Reg(nr), width, own, own, wanted)
    case 2 => Fetch(Bump(s, nr, StepSize(nr, width)), s.Reg(nr), width, own, own, wanted)
    case 3 =>
      var (address, s1) :- Load(s, s.Reg(nr), WordWide, own);
      Fetch(Bump(s1, nr, 2), address, width, DSpace, DSpace, wanted)
    case 4 =>
      var s1 := Bump(s, nr, -StepSize(nr, width));
      Fetch(s1, s1.Reg(nr), width, own, DSpace, wanted)
    case 5 =>
      var s1 := Bump(s, nr, -2);
      var (address, s2) :- Load(s1, s1.Reg(nr), WordWide, own);
      Fetch(s2, address, width, DSpace, DSpace, wanted)
    case 6 =>
      var (address, s1) :- Indexed(s, nr);
      Fetch(s1, address, width, DSpace, DSpace, wanted)
    case _ =>
      var (pointer, s1) :- Indexed(s, nr);
      var (address, s2) :- Load(s1, pointer, WordWide, DSpace);
      Fetch(s2, address, width, DSpace, DSpace, wanted)
  }

  /** `putGAM`. */
  function PutGam(s: Cpu, g: Gam, value: Word): Outcome<()> {
    match g.place
    case InRegister(nr) => Next((), s.WithReg(nr, value))
    case AtAddress(address) => Store(s, address, g.width, value, g.space)
  }

  // --- Instructions ---

  /** `setPSW_flags_nzv`. */
  function Nzv(s: Cpu, value: Word, width: Width): Cpu {
    s.WithFlags(Negative(value, width), Mask(value, width) == 0, false, s.psw.c)
  }

  function SetFlags(s: Cpu, f: Flags): Cpu {
    s.WithFlags(f.n, f.z, f.v, f.c)
  }

  /** The register operand of a pair instruction's odd half: `reg | 1`. */
  function OddHalf(nr: RegNr): RegNr {
    nr / 2 * 2 + 1
  }

  function SrcMode(instr: Word): int { instr / 0x200 % 8 }
  function SrcReg(instr: Word): RegNr { instr / 0x40 % 8 }
  function DstMode(instr: Word): int { instr / 8 % 8 }
  function DstReg(instr: Word): RegNr { instr % 8 }
  function WidthOf(instr: Word): Width { if instr >= 0x8000 then ByteWide else WordWide }

  function Mov(s: Cpu, instr: Word): Outcome<()> {
    var width := WidthOf(instr);
    var (src, s1) :- GetGam(s, SrcMode(instr), SrcReg(instr), width, true);
    if width == ByteWide && DstMode(instr) == 0 then
      Next((), Nzv(s1.WithReg(DstReg(instr), Wrap(SignedByte(Low(src.value)))), src.value, width))
    else
      var (dst, s2) :- GetGam(s1, DstMode(instr), DstReg(instr), width, false);
      var (_, s3) :- PutGam(s2, dst, src.value);
      Next((), Nzv(s3, src.value, width))
  }

  /** CMP and BIT: two operands in, condition codes out. */
  function CmpBit(s: Cpu, instr: Word): Outcome<()> {
    var width := WidthOf(instr);
    var (src, s1) :- GetGam(s, SrcMode(instr), SrcReg(instr), width, true);
    var (dst, s2) :- GetGam(s1, DstMode(instr), DstReg(instr), width, true);
    if instr / 0x1000 % 8 == 2 then Next((), SetFlags(s2, Compare(src.value, dst.value, width)))
    else Next((), Nzv(s2, Mask(And(dst.value, src.value), width), width))
  }

  function Masked(clear: bool, dst: Word, src: Word): Word {
    if clear then And(dst, Not(src)) else Or(dst, src)
  }

  /** BIC and BIS; on a register the whole word takes part, also for the byte form. */
  function BicBis(s: Cpu, instr: Word): Outcome<()> {
    var width, clear := WidthOf(instr), instr / 0x1000 % 8 == 4;
    var (src, s1) :- GetGam(s, SrcMode(instr), SrcReg(instr), width, true);
    if DstMode(instr) == 0 then
      var result := Masked(clear, s1.Reg(DstReg(instr)), src.value);
      Next((), Nzv(s1.WithReg(DstReg(instr), result), result, width))
    else
      var (dst, s2) :- GetGam(s1, DstMode(instr), DstReg(instr), width, true);
      var result := Masked(clear, dst.value, src.value);
      var (_, s3) :- PutGam(s2, dst, result);
      Next((), Nzv(s3, result, width))
  }

  /** ADD and SUB, always on words. */
  function Sum(s: Cpu, instr: Word): Outcome<()> {
    var (src, s1) :- GetGam(s, SrcMode(instr), SrcReg(instr), WordWide, true);
    var (dst, s2) :- GetGam(s1, DstMode(instr), DstReg(instr), WordWide, true);
    var (result, f) := if instr >= 0x8000 then Sub(dst.value, src.value) else Add(dst.value, src.value);
    var (_, s3) :- PutGam(s2, dst, result);
    Next((), SetFlags(s3, f))
  }

  function Mul(s: Cpu, instr: Word): Outcome<()> {
    var nr := SrcReg(instr);
    var (g, s1) :- GetGam(s, DstMode(instr), DstReg(instr), WordWide, true);
    var (high, low, f) := Multiply(s.Reg(nr), g.value);
    Next((), SetFlags(s1.WithReg(nr, high).WithReg(OddHalf(nr), low), f))
  }

  function Div(s: Cpu, instr: Word): Outcome<()> {
    var nr := SrcReg(instr);
    var (g, s1) :- GetGam(s, DstMode(instr), DstReg(instr), WordWide, true);
    var (result, f) := Divide(s1.Reg(nr), s1.Reg(OddHalf(nr)), g.value);
    match result
    case None => Next((), SetFlags(s1, f))
    case Some((q, r)) => Next((), SetFlags(s1.WithReg(nr, q).WithReg(OddHalf(nr), r), f))
  }

  function Ash(s: Cpu, instr: Word): Outcome<()> {
    var nr := SrcReg(instr);
    var (g, s1) :- GetGam(s, DstMode(instr), DstReg(instr), WordWide, true);
    var count := g.value % 64;
    var r := Trim(Shifted(s.Reg(nr), count, false), false);
    Next((), SetFlags(s1.WithReg(nr, r), ShiftFlags(s.Reg(nr), count, false)))
  }

  function LongReg(s: Cpu, nr: RegNr): Long {
    s.Reg(nr) as int * 0x1_0000 + s.Reg(OddHalf(nr))
  }

  function Ashc(s: Cpu, instr: Word): Outcome<()> {
    var nr := SrcReg(instr);
    var (g, s1) :- GetGam(s, DstMode(instr), DstReg(instr), WordWide, true);
    var count := g.value % 64;
    var r := Trim(Shifted(LongReg(s, nr), count, true), true);
    Next((), SetFlags(s1.WithReg(nr, r / 0x1_0000).WithReg(OddHalf(nr), r % 0x1_0000),
                      ShiftFlags(LongReg(s, nr), count, true)))
  }

  function ExclusiveOr(s: Cpu, instr: Word): Outcome<()> {
    var (dst, s1) :- GetGam(s, DstMode(instr), DstReg(instr), WordWide, true);
    var result := Xor(dst.value, s.Reg(SrcReg(instr)));
    var (_, s2) :- PutGam(s1, dst, result);
    Next((), Nzv(s2, result, WordWide))
  }

  /** SOB: count the register down and branch back while it is not zero. */
  function Sob(s: Cpu, instr: Word): Outcome<()> {
    var s1 := s.AddReg(SrcReg(instr), -1);
    Next((), if s1.Reg(SrcReg(instr)) != 0 then s1.AddReg(PC, -(instr % 64 * 2)) else s1)
  }

  /** The word or byte an ADC or SBC makes of `x` and the carry, and the condition codes. */
  function Carried(x: Word, c: bool, width: Width, subtract: bool): (Word, Flags)
    requires x < Modulus(width)
  {
    if subtract then SubCarry(x, c, width) else AddCarry(x, c, width)
  }

  /** ADC(B) and SBC(B); a byte in a register leaves the register's high byte alone. */
  function Carry(s: Cpu, instr: Word, subtract: bool): Outcome<()> {
    var width, nr := WidthOf(instr), DstReg(instr);
    if DstMode(instr) == 0 then
      var x := Mask(s.Reg(nr), width);
      var (r, f) := Carried(x, s.psw.c, width, subtract);
      var kept := if width == ByteWide then s.Reg(nr) / 0x100 * 0x100 else 0;
      Next((), SetFlags(s.WithReg(nr, Wrap(kept + r)), f))
    else
      var (g, s1) :- GetGam(s, DstMode(instr), nr, width, true);
      var x := Mask(g.value, width);
      var (r, f) := Carried(x, s1.psw.c, width, subtract);
      var (_, s2) :- PutGam(s1, g, r);
      Next((), SetFlags(s2, f))
  }

  function CurrentFlags(s: Cpu): Flags {
    Flags(s.psw.n, s.psw.z, s.psw.v, s.psw.c)
  }

  function Branch(s: Cpu, instr: Word): Outcome<()> {
    match BranchTaken(instr, CurrentFlags(s))
    case None => Halted
    case Some(taken) => Next((), if taken then s.AddReg(PC, SignedByte(Low(instr)) * 2) else s)
  }

  /** One instruction of the modelled set, after the fetch. */
  function Execute(s: Cpu, instr: Word): Outcome<()> {
    match instr / 0x1000 % 8
    case 1 => Mov(s, instr)
    case 2 => CmpBit(s, instr)
    case 3 => CmpBit(s, instr)
    case 4 => BicBis(s, instr)
    case 5 => BicBis(s, instr)
    case 6 => Sum(s, instr)
    case 7 =>
      if instr >= 0x8000 then Halted
      else (match instr / 0x200 % 8
            case 0 => Mul(s, instr)
            case 1 => Div(s, instr)
            case 2 => Ash(s, instr)
            case 3 => Ashc(s, instr)
            case 4 => ExclusiveOr(s, instr)
            case 7 => Sob(s, instr)
            case _ => Halted)
    case _ =>
      if instr / 0x40 % 0x200 == 0x2D then Carry(s, instr, false)
      else if instr / 0x40 % 0x200 == 0x2E then Carry(s, instr, true)
      else Branch(s, instr)
  }

  /** `MMRStartInstruction`. */
  function StartInstruction(s: Cpu): Cpu {
    if s.bus.mmu.Locked() then s
    else s.(bus := s.bus.(mmu := s.bus.mmu.(mmr2 := s.regs.pc, mmr1 := 0)))
  }

  /** `cpu::step` from the fetch on. */
  function Step(s: Cpu): Outcome<()> {
    var s1 := StartInstruction(s);
    var (instr, s2) :- Load(s1, s1.regs.pc, WordWide, ISpace);
    Execute(s2.AddReg(PC, 2), instr)
  }

  // --- What all addressing modes have in common ---

  /** How a part of an instruction ends: with `p` when it finishes, with `a` when it aborts. */
  predicate Ends<T>(p: Cpu -> bool, a: Cpu -> bool, o: Outcome<T>) {
    match o
    case Next(_, t) => p(t)
    case Aborted(t) => a(t)
    case _ => true
  }

  /** Reading memory and stepping PC keep `p`. */
  ghost predicate KeptByReads(p: Cpu -> bool, a: Cpu -> bool) {
    && (forall s, address, width, space :: p(s) ==> Ends(p, a, Load(s, address, width, space)))
    && (forall s: Cpu {:trigger s.AddReg(PC, 2)} :: p(s) ==> p(s.AddReg(PC, 2)))
  }

  /** `p` becomes `q` with one logged register change. */
  ghost predicate Steps(p: Cpu -> bool, q: Cpu -> bool) {
    && (forall s :: p(s) ==> q(s))
    && (forall s, nr, delta :: p(s) && -2 <= delta <= 2 ==> q(Bump(s, nr, delta)))
  }

  lemma FetchKeeps(p: Cpu -> bool, a: Cpu -> bool, s: Cpu, address: Word, width: Width, from: Space, to: Space,
                   wanted: bool)
    requires KeptByReads(p, a) && p(s)
    ensures Ends(p, a, Fetch(s, address, width, from, to, wanted))
  {
    hide Load;
  }

  lemma IndexedKeeps(p: Cpu -> bool, a: Cpu -> bool, s: Cpu, nr: RegNr)
    requires KeptByReads(p, a) && p(s)
    ensures Ends(p, a, Indexed(s, nr))
  {
    hide Load;
  }

  /** Every addressing mode reads, steps PC, and changes at most one register, logging it. */
  lemma GamKeeps(p: Cpu -> bool, q: Cpu -> bool, a: Cpu -> bool, s: Cpu, mode: int, nr: RegNr, width: Width,
                 wanted: bool)
    requires KeptByReads(p, a) && KeptByReads(q, a) && Steps(p, q) && p(s) && 0 <= mode < 8
    ensures Ends(q, a, GetGam(s, mode, nr, width, wanted))
  {
    hide Load, Fetch, Indexed, Bump;
    var own := RegisterSpace(nr);
    match mode
    case 0 =>
    case 1 =>
      FetchKeeps(q, a, s, s.Reg(nr), width, own, own, wanted);
    case 2 =>
      FetchKeeps(q, a, Bump(s, nr, StepSize(nr, width)), s.Reg(nr), width, own, own, wanted);
    case 3 =>
      var o := Load(s, s.Reg(nr), WordWide, own);
      assert Ends(p, a, o);
      if o.Next? {
        FetchKeeps(q, a, Bump(o.cpu, nr, 2), o.value, width, DSpace, DSpace, wanted);
      }
    case 4 =>
      var s1 := Bump(s, nr, -StepSize(nr, width));
      FetchKeeps(q, a, s1, s1.Reg(nr), width, own, DSpace, wanted);
    case 5 =>
      var s1 := Bump(s, nr, -2);
      var o := Load(s1, s1.Reg(nr), WordWide, own);
      assert Ends(q, a, o);
      if o.Next? {
        FetchKeeps(q, a, o.cpu, o.value, width, DSpace, DSpace, wanted);
      }
    case 6 =>
      IndexedKeeps(q, a, s, nr);
      var o := Indexed(s, nr);
      if o.Next? {
        FetchKeeps(q, a, o.cpu, o.value, width, DSpace, DSpace, wanted);
      }
    case _ =>
      IndexedKeeps(q, a, s, nr);
      var o := Indexed(s, nr);
      if o.Next? {
        var r := Load(o.cpu, o.value, WordWide, DSpace);
        assert Ends(q, a, r);
        if r.Next? {
          FetchKeeps(q, a, r.cpu, r.value, width, DSpace, DSpace, wanted);
        }
      }
  }
}
