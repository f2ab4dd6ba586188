/** What the arithmetic instructions make of their operands when they are run (cpu.cpp), as signed
    and unsigned numbers. */
module Numbers {
  import opened Words
  import opened Bits
  import opened Bus
  import opened CpuState
  import opened Arithmetic
  import opened Shifter
  import opened Instructions
  import Pairs = InstructionPairs

  /** `f` are the condition codes of a result `r` that stands for the number `exact`, signed, of
      a sum or difference with this carry. */
  predicate Codes(f: Flags, r: int, exact: int, carry: bool) {
    (f.n <==> r < 0) && (f.z <==> r == 0) && (f.v <==> r != exact) && (f.c <==> carry)
  }

  // --- ADD and SUB, and a branch on their condition codes ---

  /** The result is stored where the second operand came from, and nothing but condition codes
      changes besides. */
  predicate Puts(s2: Cpu, dst: Gam, r: Word, f: Flags, o: Outcome<()>) {
    PutGam(s2, dst, r).Next? && o.Next? && o.cpu == SetFlags(PutGam(s2, dst, r).cpu, f)
  }

  lemma SumIs(s: Cpu, code: Word, subtract: bool, src: Gam, s1: Cpu, dst: Gam, s2: Cpu) returns (r: Word, f: Flags)
    requires Pairs.IsSum(code, subtract) && Execute(s, code).Next?
    requires GetGam(s, SrcMode(code), SrcReg(code), WordWide, true) == Next(src, s1)
    requires GetGam(s1, DstMode(code), DstReg(code), WordWide, true) == Next(dst, s2)
    ensures Puts(s2, dst, r, f, Execute(s, code))
    ensures var x, y := dst.value as int, src.value as int;
            if subtract then r == (x - y) % 0x1_0000 && Codes(f, Signed(r), Signed(x) - Signed(y), x < y)
            else r == (x + y) % 0x1_0000 && Codes(f, Signed(r), Signed(x) + Signed(y), x + y >= 0x1_0000)
  {
    hide GetGam, PutGam, SetFlags, Sub, Add, Execute, Pairs.BeforeDestination, Pairs.Destination;
    Pairs.SumDispatch(s, code, subtract);
    var result := if subtract then Sub(dst.value, src.value) else Add(dst.value, src.value);
    r, f := result.0, result.1;
    AddExact(dst.value, src.value);
    SubExact(dst.value, src.value);
    SumStores(s, code, src, s1, dst, s2);
  }

  lemma SumStores(s: Cpu, code: Word, src: Gam, s1: Cpu, dst: Gam, s2: Cpu)
    requires GetGam(s, SrcMode(code), SrcReg(code), WordWide, true) == Next(src, s1)
    requires GetGam(s1, DstMode(code), DstReg(code), WordWide, true) == Next(dst, s2)
    requires Instructions.Sum(s, code).Next?
    ensures var (r, f) := if code >= 0x8000 then Sub(dst.value, src.value) else Add(dst.value, src.value);
            Puts(s2, dst, r, f, Instructions.Sum(s, code))
  {
    hide GetGam, PutGam, Sub, Add, SetFlags, SrcMode, SrcReg, DstReg;
  }

  /** What a conditional branch decides after a sum or difference `exact` of signed numbers that
      was stored as `r`, with a carry out of the unsigned ones. */
  function Decided(branch: Word, exact: int, r: Word, carry: bool): Option<bool> {
    match branch / 0x100
    case 0x01 => Some(true)
    case 0x02 => Some(r != 0)
    case 0x03 => Some(r == 0)
    case 0x04 => Some(exact >= 0)
    case 0x05 => Some(exact < 0)
    case 0x06 => Some(exact > 0)
    case 0x07 => Some(exact <= 0)
    case 0x80 => Some(Signed(r) >= 0)
    case 0x81 => Some(Signed(r) < 0)
    case 0x82 => Some(!carry && r != 0)
    case 0x83 => Some(carry || r == 0)
    case 0x84 => Some(-0x8000 <= exact < 0x8000)
    case 0x85 => Some(!(-0x8000 <= exact < 0x8000))
    case 0x86 => Some(!carry)
    case 0x87 => Some(carry)
    case _ => None
  }

  lemma BranchDecides(branch: Word, f: Flags, r: Word, exact: int, carry: bool)
    requires Codes(f, Signed(r), exact, carry) && -0x1_0000 <= exact < 0x1_0000 && r == exact % 0x1_0000
    ensures BranchTaken(branch, f) == Decided(branch, exact, r, carry)
  {
    var n := Signed(r);
    assert n == exact || n == exact + 0x1_0000 || n == exact - 0x1_0000;
    assert n == exact <==> -0x8000 <= exact < 0x8000;
    assert f.n != f.v <==> exact < 0;
    assert exact >= 0 ==> (r == 0 <==> exact == 0);
  }

  function Exact(x: Word, y: Word, subtract: bool): int {
    if subtract then Signed(x) - Signed(y) else Signed(x) + Signed(y)
  }

  predicate CarryOut(x: Word, y: Word, subtract: bool) {
    if subtract then x < y else x as int + y as int >= 0x1_0000
  }

  /** A branch moves PC, and nothing else, by twice its signed offset when it is taken. */
  predicate Goes(t: Cpu, branch: Word, taken: bool, o: Outcome<()>) {
    var offset := branch % 0x100;
    var target := t.regs.pc as int + 2 * if offset < 0x80 then offset else offset - 0x100;
    o.Next? && o.cpu == if taken then t.WithReg(PC, target % 0x1_0000) else t
  }

  predicate IsBranch(branch: Word) {
    (0x01 <= branch / 0x100 <= 0x07) || (0x80 <= branch / 0x100 <= 0x87)
  }

  /** Any branch of the 15 after an ADD or SUB goes where the numbers say. */
  lemma BranchAfterSum(s: Cpu, code: Word, branch: Word, subtract: bool, src: Gam, s1: Cpu, dst: Gam, s2: Cpu)
    requires Pairs.IsSum(code, subtract) && Execute(s, code).Next? && IsBranch(branch)
    requires GetGam(s, SrcMode(code), SrcReg(code), WordWide, true) == Next(src, s1)
    requires GetGam(s1, DstMode(code), DstReg(code), WordWide, true) == Next(dst, s2)
    ensures var exact, carry := Exact(dst.value, src.value, subtract), CarryOut(dst.value, src.value, subtract);
            var t, taken := Execute(s, code).cpu, Decided(branch, exact, exact % 0x1_0000, carry);
            taken.Some? && Goes(t, branch, taken.value, Execute(t, branch))
  {
    hide GetGam, Execute, Pairs.IsSum, BranchTaken, Decided, SetFlags, PutGam, Goes;
    var r, f := SumIs(s, code, subtract, src, s1, dst, s2);
    var exact, carry := Exact(dst.value, src.value, subtract), CarryOut(dst.value, src.value, subtract);
    SameResidue(dst.value, src.value, subtract);
    BranchDecides(branch, f, r, exact, carry);
    FlagsSet(PutGam(s2, dst, r).cpu, f);
    BranchRuns(Execute(s, code).cpu, branch);
    AllDecided(branch, exact, r, carry);
  }

  lemma AllDecided(branch: Word, exact: int, r: Word, carry: bool)
    requires IsBranch(branch)
    ensures Decided(branch, exact, r, carry).Some?
  {
  }

  lemma SameResidue(x: Word, y: Word, subtract: bool)
    ensures if subtract then (Signed(x) - Signed(y)) % 0x1_0000 == (x - y) % 0x1_0000
            else (Signed(x) + Signed(y)) % 0x1_0000 == (x + y) % 0x1_0000
  {
  }

  lemma FlagsSet(s: Cpu, f: Flags)
    ensures CurrentFlags(SetFlags(s, f)) == f
  {
  }

  lemma BranchRuns(t: Cpu, branch: Word)
    requires IsBranch(branch)
    ensures var taken := BranchTaken(branch, CurrentFlags(t));
            taken.Some? ==> Goes(t, branch, taken.value, Execute(t, branch))
  {
    hide BranchTaken;
    assert branch / 0x1000 % 8 == 0 && branch / 0x40 % 0x200 < 0x20 by {
      assert branch / 0x1000 == branch / 0x100 / 0x10;
    }
  }

  // --- ADC and SBC ---

  predicate IsCarry(code: Word, subtract: bool) {
    code / 0x40 % 0x200 == (if subtract then 0x2E else 0x2D) && code / 0x1000 % 8 == 0
  }

  /** ADC(B) or SBC(B): the carry is added to or taken from the operand, in its width; a byte in
      a register leaves the register's high byte alone. */
  lemma CarryIs(s: Cpu, code: Word, subtract: bool, dst: Gam, s1: Cpu) returns (r: Word, f: Flags)
    requires IsCarry(code, subtract) && Execute(s, code).Next?
    requires GetGam(s, DstMode(code), DstReg(code), WidthOf(code), true) == Next(dst, s1)
    ensures var put := if WidthOf(code) == ByteWide && DstMode(code) == 0
                       then s.Reg(DstReg(code)) / 0x100 * 0x100 + r else r;
            put < 0x1_0000 && Puts(s1, dst, put, f, Execute(s, code))
    ensures var m, c := if WidthOf(code) == ByteWide then 0x100 else 0x1_0000, if s.psw.c then 1 else 0;
            var x := dst.value;
            x < m && r < m
            && var before, after := SignedOf(x, WidthOf(code)), SignedOf(r, WidthOf(code));
               if subtract then r == (x - c) % m && Codes(f, after, before - c, x < c)
               else r == (x + c) % m && Codes(f, after, before + c, x + c >= m)
  {
    hide GetGam, PutGam, SetFlags, Execute, Carry, SignedOf, AddCarry, SubCarry, DstReg, WidthOf;
    var width := WidthOf(code);
    Pairs.OperandKeepsPsw(s, DstMode(code), DstReg(code), width);
    Pairs.OperandInRange(s, DstMode(code), DstReg(code), width);
    var carried := Carried(dst.value, s.psw.c, width, subtract);
    r, f := carried.0, carried.1;
    AddCarryExact(dst.value, s.psw.c, width);
    SubCarryExact(dst.value, s.psw.c, width);
    CarriedRange(dst.value, s.psw.c, width, subtract);
    SignOf(r, width);
    CarryRuns(s, code, subtract);
    if DstMode(code) == 0 {
      CarryInRegister(s, code, subtract, dst, s1);
    } else {
      CarryInMemory(s, code, subtract, dst, s1);
    }
  }

  lemma CarriedRange(x: Word, c: bool, width: Width, subtract: bool)
    requires x < Modulus(width)
    ensures var (r, f) := Carried(x, c, width, subtract);
            r < Modulus(width) && r == (if subtract then x - Bit(c) else x + Bit(c)) % Modulus(width)
            && (f.c <==> if subtract then x < Bit(c) else x + Bit(c) >= Modulus(width))
  {
  }

  lemma CarryRuns(s: Cpu, code: Word, subtract: bool)
    requires IsCarry(code, subtract)
    ensures Execute(s, code) == Carry(s, code, subtract)
  {
    hide Carry;
  }

  lemma CarryInRegister(s: Cpu, code: Word, subtract: bool, dst: Gam, s1: Cpu)
    requires DstMode(code) == 0 && GetGam(s, 0, DstReg(code), WidthOf(code), true) == Next(dst, s1)
    requires dst.value < Modulus(WidthOf(code))
    ensures var (r, f) := Carried(dst.value, s.psw.c, WidthOf(code), subtract);
            var kept := if WidthOf(code) == ByteWide then s.Reg(DstReg(code)) / 0x100 * 0x100 else 0;
            r < Modulus(WidthOf(code)) && kept + r < 0x1_0000
            && Puts(s1, dst, kept + r, f, Carry(s, code, subtract))
  {
    hide SetFlags, Carried, DstReg, WidthOf, Cpu.Reg, Cpu.WithReg, Modulus;
    var width, nr := WidthOf(code), DstReg(code);
    RegisterFetched(s, nr, width);
    hide GetGam, Mask;
    CarriedRange(dst.value, s.psw.c, width, subtract);
    KeptFits(s.Reg(nr), Carried(dst.value, s.psw.c, width, subtract).0, width);
    hide Wrap;
  }

  lemma RegisterFetched(s: Cpu, nr: RegNr, width: Width)
    ensures var o := GetGam(s, 0, nr, width, true);
            o.Next? && o.cpu == s && o.value.value == Mask(s.Reg(nr), width) && o.value.place == InRegister(nr)
  {
  }

  lemma KeptFits(x: Word, r: Word, width: Width)
    requires r < Modulus(width)
    ensures var kept := if width == ByteWide then x / 0x100 * 0x100 else 0;
            kept + r < 0x1_0000 && Wrap(kept + r) == kept + r
  {
  }

  lemma CarryInMemory(s: Cpu, code: Word, subtract: bool, dst: Gam, s1: Cpu)
    requires DstMode(code) != 0 && Carry(s, code, subtract).Next? && s1.psw == s.psw
    requires GetGam(s, DstMode(code), DstReg(code), WidthOf(code), true) == Next(dst, s1)
    requires dst.value < Modulus(WidthOf(code))
    ensures var (r, f) := Carried(dst.value, s.psw.c, WidthOf(code), subtract);
            Puts(s1, dst, r, f, Carry(s, code, subtract))
  {
    hide GetGam, PutGam, SetFlags, Carried, DstReg, WidthOf;
    assert Mask(dst.value, WidthOf(code)) == dst.value;
  }

  // --- MUL and DIV ---

  /** The signed product of two words in a register pair, or its low word in an odd register. */
  predicate HasProduct(t: Cpu, nr: RegNr, a: Word, b: Word) {
    var product := Signed(a) * Signed(b);
    && (if nr % 2 == 0 then Pair(t.Reg(nr), t.Reg(nr + 1)) == product else t.Reg(nr) == product % 0x1_0000)
    && CurrentFlags(t) == Flags(product < 0, product == 0, false, !(-0x8000 <= product < 0x8000))
  }

  predicate OthersKept(s: Cpu, nr: RegNr, t: Cpu) {
    forall other: RegNr :: other != nr && other != OddHalf(nr) ==> t.Reg(other) == s.Reg(other)
  }

  /** MUL leaves the product of its register and its operand. */
  lemma MulIs(s: Cpu, code: Word, g: Gam, s1: Cpu)
    requires code / 0x200 == 0x38 && GetGam(s, DstMode(code), DstReg(code), WordWide, true) == Next(g, s1)
    ensures var nr, o := SrcReg(code), Execute(s, code);
            o.Next? && HasProduct(o.cpu, nr, s.Reg(nr), g.value) && OthersKept(s1, nr, o.cpu)
  {
    hide GetGam, Execute, Cpu.Reg, Cpu.WithReg, SetFlags, SrcReg, DstReg, Multiply, Pair;
    Pairs.MulIs(s, code);
    var nr := SrcReg(code);
    var (high, low, f) := Multiply(s.Reg(nr), g.value);
    DivideUndoesMultiply(s.Reg(nr), g.value);
    ProductFits(s.Reg(nr), g.value);
    TwoAssigned(s1, nr, high, low, f);
  }

  lemma ProductFits(a: Word, b: Word)
    ensures var (high, low, _) := Multiply(a, b);
            low == Signed(a) * Signed(b) % 0x1_0000
            && (Signed(low) == Signed(a) * Signed(b) <==> -0x8000 <= Signed(a) * Signed(b) < 0x8000)
  {
    hide Signed, Pair, Wrap;
    var p := Signed(a) * Signed(b);
    SignedRange(a);
    SignedRange(b);
    ProductRange(Signed(a), Signed(b));
    PairOfProduct(p);
    WrapIs(p);
  }

  lemma WrapIs(x: int)
    ensures Wrap(x) == x % 0x1_0000
  {
  }

  /** The registers after a pair instruction has stored its two words. */
  lemma TwoAssigned(s: Cpu, nr: RegNr, high: Word, low: Word, f: Flags)
    ensures var t := SetFlags(s.WithReg(nr, high).WithReg(OddHalf(nr), low), f);
            && t.Reg(OddHalf(nr)) == low && (nr % 2 == 0 ==> OddHalf(nr) == nr + 1 && t.Reg(nr) == high)
            && (nr % 2 == 1 ==> OddHalf(nr) == nr)
            && CurrentFlags(t) == f
            && OthersKept(s, nr, t)
  {
  }

  /** DIV leaves the truncated quotient and the remainder of the register pair by its operand, or
      everything but the condition codes as it was when there is no quotient of 16 bits. */
  lemma DivIs(s: Cpu, code: Word, g: Gam, s1: Cpu, q: int, r: int)
    requires code / 0x200 == 0x39 && GetGam(s, DstMode(code), DstReg(code), WordWide, true) == Next(g, s1)
    requires var nr, d := SrcReg(code), Signed(g.value);
             d != 0 ==> Divides(Pair(s1.Reg(nr), s1.Reg(OddHalf(nr))), d, q, r)
    ensures var nr, d := SrcReg(code), Signed(g.value);
            Execute(s, code).Next? && var t := Execute(s, code).cpu;
            if d != 0 && -0x8000 <= q < 0x8000 then
              && (nr % 2 == 0 ==> Signed(t.Reg(nr)) == q) && Signed(t.Reg(OddHalf(nr))) == r
              && CurrentFlags(t) == Flags(q < 0, q == 0, false, false)
              && OthersKept(s1, nr, t)
            else t == SetFlags(s1, if d == 0 then Flags(false, true, true, true) else Flags(q < 0, q == 0, true, false))
  {
    hide GetGam, Execute, Cpu.Reg, Cpu.WithReg, SetFlags, SrcReg, DstReg, Divide, Pair, Divides, Signed;
    Pairs.DivIs(s, code);
    var nr := SrcReg(code);
    DivideExact(s1.Reg(nr), s1.Reg(OddHalf(nr)), g.value, q, r);
    var (result, f) := Divide(s1.Reg(nr), s1.Reg(OddHalf(nr)), g.value);
    if result.Some? {
      TwoAssigned(s1, nr, result.value.0, result.value.1, f);
    }
  }

  // --- ASH and ASHC ---

  /** The low six bits of an operand as a signed number. */
  function SixBits(x: Word): int {
    if x % 64 < 32 then x % 64 else x % 64 - 64
  }

  /** A signed number shifted: to the left by multiplying, to the right by dividing downwards. */
  function Scaled(x: int, n: int): int {
    if n >= 0 then x * Pow2(n) else x / Pow2(-n)
  }

  /** The condition codes of a shift of `x` in `size` bits' worth of numbers: V when the moved
      number does not fit, C the last bit moved out. */
  predicate ShiftCodes(f: Flags, x: int, n: int, size: nat, stored: int)
    requires size > 0
  {
    var m := Scaled(x, n);
    && (f.n <==> stored < 0) && (f.z <==> stored == 0)
    && (f.v <==> !(-(size / 2) <= m < size / 2))
    && (f.c <==> if n == 0 then false else if n > 0 then m / size % 2 == 1 else Scaled(x, n + 1) % 2 == 1)
  }

  lemma AshIs(s: Cpu, code: Word, g: Gam, s1: Cpu)
    requires code / 0x200 == 0x3A && GetGam(s, DstMode(code), DstReg(code), WordWide, true) == Next(g, s1)
    ensures var nr, x, n := SrcReg(code), Signed(s.Reg(SrcReg(code))), SixBits(g.value);
            var r := Scaled(x, n) % 0x1_0000;
            Execute(s, code).Next? && var t := Execute(s, code).cpu;
            && t == SetFlags(s1.WithReg(nr, r), CurrentFlags(t))
            && ShiftCodes(CurrentFlags(t), x, n, 0x1_0000, Signed(r))
  {
    hide GetGam, Execute, Cpu.Reg, Cpu.WithReg, SrcReg, DstReg, Shifted, ShiftFlags;
    ShiftDispatch(s, code);
    var x := s.Reg(SrcReg(code));
    ShiftIs(x, g.value, false);
  }

  /** ASHC on the 32-bit number of its register pair. */
  lemma AshcIs(s: Cpu, code: Word, g: Gam, s1: Cpu)
    requires code / 0x200 == 0x3B && GetGam(s, DstMode(code), DstReg(code), WordWide, true) == Next(g, s1)
    ensures var nr, x, n := SrcReg(code), Pair(s.Reg(SrcReg(code)), s.Reg(OddHalf(SrcReg(code)))), SixBits(g.value);
            var r := Scaled(x, n) % 0x1_0000_0000;
            Execute(s, code).Next? && var t := Execute(s, code).cpu;
            && t == SetFlags(s1.WithReg(nr, r / 0x1_0000).WithReg(OddHalf(nr), r % 0x1_0000), CurrentFlags(t))
            && ShiftCodes(CurrentFlags(t), x, n, 0x1_0000_0000, Pair(r / 0x1_0000, r % 0x1_0000))
  {
    hide GetGam, Execute, Cpu.Reg, Cpu.WithReg, SrcReg, DstReg, OddHalf, Shifted, ShiftFlags, Scaled, Trim, Value, Pair;
    hide SetFlags, ShiftCodes;
    ShiftDispatch(s, code);
    var x := LongReg(s, SrcReg(code));
    var r := Trim(Shifted(x, g.value % 64, true), true);
    PairIs(x);
    PairIs(r);
    ShiftIs(x, g.value, true);
    AshcRuns(s, code, g, s1);
    FlagsSet(s1.WithReg(SrcReg(code), r / 0x1_0000).WithReg(OddHalf(SrcReg(code)), r % 0x1_0000),
             ShiftFlags(x, g.value % 64, true));
  }

  lemma AshcRuns(s: Cpu, code: Word, g: Gam, s1: Cpu)
    requires GetGam(s, DstMode(code), DstReg(code), WordWide, true) == Next(g, s1)
    ensures var nr, x := SrcReg(code), LongReg(s, SrcReg(code));
            var r := Trim(Shifted(x, g.value % 64, true), true);
            Ashc(s, code).Next?
            && Ashc(s, code).cpu == SetFlags(s1.WithReg(nr, r / 0x1_0000).WithReg(OddHalf(nr), r % 0x1_0000),
                                             ShiftFlags(x, g.value % 64, true))
  {
    hide GetGam, Cpu.Reg, Cpu.WithReg, SrcReg, DstReg, OddHalf, Shifted, ShiftFlags, SetFlags;
  }

  lemma PairIs(x: Long)
    ensures Pair(x / 0x1_0000, x % 0x1_0000) == Value(x, true)
  {
  }

  lemma ShiftDispatch(s: Cpu, code: Word)
    requires code / 0x200 == 0x3A || code / 0x200 == 0x3B
    ensures Execute(s, code) == if code / 0x200 == 0x3A then Ash(s, code) else Ashc(s, code)
  {
    hide Ash, Ashc;
    assert code / 0x1000 % 8 == 7 && code < 0x8000;
  }

  lemma ShiftIs(x: Long, operand: Word, is32: bool)
    requires x < Range(is32)
    ensures var v, n, r := Value(x, is32), SixBits(operand), Trim(Shifted(x, operand % 64, is32), is32);
            r == Scaled(v, n) % Range(is32)
            && ShiftCodes(ShiftFlags(x, operand % 64, is32), v, n, Range(is32), Value(r, is32))
  {
    assert Pow2(0) == 1;
    hide Pow2, Value, Fits, Trim;
    TrimIs(Shifted(x, operand % 64, is32), is32);
    LastIs(x, operand, is32);
    FitsIs(Shifted(x, operand % 64, is32), is32);
  }

  lemma TrimIs(x: int, is32: bool)
    ensures Trim(x, is32) == x % Range(is32)
  {
  }

  lemma FitsIs(x: int, is32: bool)
    ensures Fits(x, is32) <==> -(Range(is32) / 2) <= x < Range(is32) / 2
  {
  }

  lemma LastIs(x: Long, operand: Word, is32: bool)
    requires x < Range(is32)
    ensures var v, n, count := Value(x, is32), SixBits(operand), operand % 64;
            LastOut(x, count, is32) ==
            if n == 0 then false else if n > 0 then Scaled(v, n) / Range(is32) % 2 == 1 else Scaled(v, n + 1) % 2 == 1
  {
    assert Pow2(0) == 1;
    hide Pow2, Value;
  }

  // --- SOB ---

  lemma SobIs(s: Cpu, code: Word)
    requires code / 0x200 == 0x3F && SrcReg(code) != PC
    ensures var left := (s.Reg(SrcReg(code)) - 1) % 0x1_0000;
            Execute(s, code).Next? && var t := Execute(s, code).cpu;
            && t.Reg(SrcReg(code)) == left
            && t == s.WithReg(SrcReg(code), left)
                     .WithReg(PC, if left == 0 then s.regs.pc else (s.regs.pc - 2 * (code % 0x40)) % 0x1_0000)
  {
    hide SrcReg;
    assert code / 0x1000 % 8 == 7 && code < 0x8000 && code / 0x200 % 8 == 7;
    assert Execute(s, code) == Sob(s, code);
  }

  /** How often a loop runs that a SOB closes: the register's value, 65536 for zero. */
  function Rounds(counter: Word): nat {
    if counter == 0 then 0x1_0000 else counter
  }

  /** The SOB at the end of each round; the next round leaves the counter alone. */
  predicate Loops(states: seq<Cpu>, code: Word) {
    forall i :: 0 < i < |states| ==>
      var o := Execute(states[i - 1], code); o.Next? && states[i].Reg(SrcReg(code)) == o.cpu.Reg(SrcReg(code))
  }

  /** A SOB loop goes back in every round but the last one, which is the one its counter says. */
  lemma {:induction false} SobCounts(states: seq<Cpu>, code: Word, i: nat)
    requires code / 0x200 == 0x3F && SrcReg(code) != PC && Loops(states, code)
    requires i < |states| && i < Rounds(states[0].Reg(SrcReg(code)))
    ensures Execute(states[i], code).Next?
    ensures var back := (states[i].regs.pc - 2 * (code % 0x40)) % 0x1_0000;
            Execute(states[i], code).cpu.regs.pc ==
            if i + 1 < Rounds(states[0].Reg(SrcReg(code))) then back else states[i].regs.pc
  {
    hide Execute, SrcReg, Cpu.Reg, Cpu.WithReg;
    Counted(states, code, i);
    SobIs(states[i], code);
    var left := (states[i].Reg(SrcReg(code)) - 1) % 0x1_0000;
    PcAssigned(states[i].WithReg(SrcReg(code), left),
               if left == 0 then states[i].regs.pc else (states[i].regs.pc - 2 * (code % 0x40)) % 0x1_0000);
  }

  lemma PcAssigned(s: Cpu, value: Word)
    ensures s.WithReg(PC, value).regs.pc == value
  {
  }

  lemma {:induction false} Counted(states: seq<Cpu>, code: Word, i: nat)
    requires code / 0x200 == 0x3F && SrcReg(code) != PC && Loops(states, code)
    requires i < |states| && i < Rounds(states[0].Reg(SrcReg(code)))
    ensures Rounds(states[i].Reg(SrcReg(code))) == Rounds(states[0].Reg(SrcReg(code))) - i
    decreases i
  {
    hide Execute, SrcReg, Cpu.Reg, Cpu.WithReg;
    if i > 0 {
      Counted(states, code, i - 1);
      SobIs(states[i - 1], code);
    }
  }
}
