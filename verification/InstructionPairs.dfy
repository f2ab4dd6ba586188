/** What instructions do one after the other (cpu.cpp). */
module InstructionPairs {
  import opened Words
  import opened Division
  import opened Mmu
  import opened Bus
  import opened CpuState
  import opened Arithmetic
  import opened Instructions

  /** MUL of register pair `nr` by register `dr`. */
  function MulCode(nr: RegNr, dr: RegNr): Word {
    0x7000 + nr * 0x40 + dr
  }

  function DivCode(nr: RegNr, dr: RegNr): Word {
    0x7200 + nr * 0x40 + dr
  }

  lemma PairCode(operation: nat, nr: RegNr, dr: RegNr)
    requires operation < 8
    ensures var code: Word := 0x7000 + operation * 0x200 + nr * 0x40 + dr;
            DstMode(code) == 0 && DstReg(code) == dr && SrcReg(code) == nr && code / 0x1000 % 8 == 7 && code < 0x8000
            && code / 0x200 == 0x38 + operation
  {
    var code := 0x7000 + operation * 0x200 + nr * 0x40 + dr;
    QuotientIs(code, 8, 0xE00 + operation * 0x40 + nr * 8, dr);
    QuotientIs(code, 0x40, 0x1C0 + operation * 8 + nr, dr);
    QuotientIs(code, 0x200, 0x38 + operation, nr * 0x40 + dr);
    QuotientIs(code, 0x1000, 7, operation * 0x200 + nr * 0x40 + dr);
    QuotientIs(0x1C0 + operation * 8 + nr, 8, 0x38 + operation, nr);
    QuotientIs(0x38 + operation, 8, 7, operation);
    QuotientIs(0xE00 + operation * 0x40 + nr * 8, 8, 0x1C0 + operation * 8 + nr, 0);
  }

  /** One instruction after the other. */
  function Both(s: Cpu, first: Word, second: Word): Outcome<()> {
    var (_, t) :- Execute(s, first);
    Execute(t, second)
  }

  /** Both instructions finished; the pair holds these words and V is clear. */
  predicate PairHolds(o: Outcome<()>, nr: RegNr, high: Word, low: Word) {
    o.Next? && o.cpu.Reg(nr) == high && o.cpu.Reg(OddHalf(nr)) == low && !o.cpu.psw.v
  }

  lemma RegAfter(s: Cpu, nr: RegNr, value: Word, other: RegNr)
    ensures s.WithReg(nr, value).Reg(other) == if other == nr then value else s.Reg(other)
    ensures s.WithReg(nr, value).psw == s.psw
  {
  }

  lemma RegKept(s: Cpu, f: Flags, nr: RegNr)
    ensures SetFlags(s, f).Reg(nr) == s.Reg(nr)
  {
  }

  /** The registers after a register pair has been assigned. */
  lemma PairAfter(s: Cpu, nr: RegNr, high: Word, low: Word, f: Flags, other: RegNr)
    requires nr % 2 == 0
    ensures OddHalf(nr) == nr + 1
    ensures SetFlags(s.WithReg(nr, high).WithReg(OddHalf(nr), low), f).Reg(other)
            == if other == nr + 1 then low else if other == nr then high else s.Reg(other)
  {
    RegAfter(s, nr, high, other);
    RegAfter(s.WithReg(nr, high), OddHalf(nr), low, other);
    RegKept(s.WithReg(nr, high).WithReg(OddHalf(nr), low), f, other);
  }

  /** The state MUL leaves, from its operand and the state after fetching it. */
  function Multiplied(s: Cpu, mul: Word, operand: Word, fetched: Cpu): Cpu {
    var nr := SrcReg(mul);
    var (high, low, f) := Multiply(s.Reg(nr), operand);
    SetFlags(fetched.WithReg(nr, high).WithReg(OddHalf(nr), low), f)
  }

  /** MUL on an even register, then DIV of the same pair, in any addressing modes: when both
      fetch the same non-zero operand and the second fetch leaves the pair alone, the
      multiplicand is back, the remainder is zero and V is clear. */
  lemma DivUndoesMul(s: Cpu, mul: Word, div: Word, g: Gam, s1: Cpu, h: Gam, t1: Cpu)
    requires mul / 0x200 == 0x38 && div / 0x200 == 0x39 && SrcReg(mul) == SrcReg(div) && SrcReg(mul) % 2 == 0
    requires GetGam(s, DstMode(mul), DstReg(mul), WordWide, true) == Next(g, s1)
    requires GetGam(Multiplied(s, mul, g.value, s1), DstMode(div), DstReg(div), WordWide, true) == Next(h, t1)
    requires h.value == g.value != 0
    requires var t, nr := Multiplied(s, mul, g.value, s1), SrcReg(mul);
             t1.Reg(nr) == t.Reg(nr) && t1.Reg(OddHalf(nr)) == t.Reg(OddHalf(nr))
    ensures PairHolds(Both(s, mul, div), SrcReg(mul), s.Reg(SrcReg(mul)), 0)
  {
    hide Multiply, Divide, Execute, GetGam;
    var nr := SrcReg(mul);
    var a, b := s.Reg(nr), g.value;
    var (high, low, f) := Multiply(a, b);
    MulIs(s, mul);
    PairAfter(s1, nr, high, low, f, nr);
    PairAfter(s1, nr, high, low, f, nr + 1);
    DivideUndoesMultiply(a, b);
    NoOverflow(high, low, b, a);
    DivIs(Multiplied(s, mul, b, s1), div);
    PairAfter(t1, nr, a, 0, Divide(high, low, b).1, nr);
    PairAfter(t1, nr, a, 0, Divide(high, low, b).1, nr + 1);
  }

  lemma OutsidePair(s: Cpu, mul: Word, operand: Word, other: RegNr)
    requires SrcReg(mul) % 2 == 0 && other != SrcReg(mul) && other != SrcReg(mul) + 1
    ensures Multiplied(s, mul, operand, s).Reg(other) == s.Reg(other)
  {
    hide Multiply, SrcReg;
    var (high, low, f) := Multiply(s.Reg(SrcReg(mul)), operand);
    PairAfter(s, SrcReg(mul), high, low, f, other);
  }

  /** In particular with the operand in a register outside the pair. */
  lemma DivUndoesMulOfRegister(s: Cpu, nr: RegNr, dr: RegNr)
    requires nr % 2 == 0 && dr != nr && dr != nr + 1 && s.Reg(dr) != 0
    ensures PairHolds(Both(s, MulCode(nr, dr), DivCode(nr, dr)), nr, s.Reg(nr), 0)
  {
    hide Multiply, SrcReg, DstReg, DstMode, Both, Multiplied, GetGam, PairHolds, OddHalf, RegisterSpace;
    PairCode(0, nr, dr);
    PairCode(1, nr, dr);
    var operand := Gam(WordWide, RegisterSpace(dr), InRegister(dr), s.Reg(dr));
    var t := Multiplied(s, MulCode(nr, dr), s.Reg(dr), s);
    OutsidePair(s, MulCode(nr, dr), s.Reg(dr), dr);
    RegisterOperand(s, dr);
    RegisterOperand(t, dr);
    DivUndoesMul(s, MulCode(nr, dr), DivCode(nr, dr), operand, s, operand, t);
  }

  lemma RegisterOperand(s: Cpu, dr: RegNr)
    ensures GetGam(s, 0, dr, WordWide, true) == Next(Gam(WordWide, RegisterSpace(dr), InRegister(dr), s.Reg(dr)), s)
  {
  }

  lemma NoOverflow(high: Word, low: Word, d: Word, q: Word)
    requires Divide(high, low, d).0 == Some((q, 0))
    ensures !Divide(high, low, d).1.v
  {
  }

  lemma MulIs(s: Cpu, mul: Word)
    requires mul / 0x200 == 0x38
    ensures Execute(s, mul) ==
            match GetGam(s, DstMode(mul), DstReg(mul), WordWide, true)
            case Next(g, s1) => Next((), Multiplied(s, mul, g.value, s1))
            case Aborted(cpu) => Aborted(cpu)
            case Device => Outcome.Device
            case Halted => Halted
  {
    hide Multiply, OddHalf, SrcReg, DstReg, GetGam;
    assert mul / 0x1000 % 8 == 7 && mul / 0x200 % 8 == 0;
  }

  /** What DIV does after fetching its operand. */
  function Divided(nr: RegNr, operand: Word, fetched: Cpu): Cpu {
    var (result, f) := Divide(fetched.Reg(nr), fetched.Reg(OddHalf(nr)), operand);
    match result
    case None => SetFlags(fetched, f)
    case Some((q, r)) => SetFlags(fetched.WithReg(nr, q).WithReg(OddHalf(nr), r), f)
  }

  lemma DivIs(s: Cpu, div: Word)
    requires div / 0x200 == 0x39
    ensures Execute(s, div) ==
            match GetGam(s, DstMode(div), DstReg(div), WordWide, true)
            case Next(g, s1) => Next((), Divided(SrcReg(div), g.value, s1))
            case Aborted(cpu) => Aborted(cpu)
            case Device => Outcome.Device
            case Halted => Halted
  {
    hide Divide, OddHalf, SrcReg, DstReg, GetGam;
    assert div / 0x1000 % 8 == 7 && div / 0x200 % 8 == 1;
  }

  // --- Multi-word addition and subtraction ---

  lemma LoadKeepsPsw(s: Cpu, address: Word, width: Width, space: Space)
    ensures match Load(s, address, width, space)
            case Next(_, t) => t.psw == s.psw
            case _ => true
  {
    hide Bus.Read;
  }

  /** Fetching an operand does not touch the condition codes. */
  lemma OperandKeepsPsw(s: Cpu, mode: int, nr: RegNr, width: Width)
    requires 0 <= mode < 8
    ensures match GetGam(s, mode, nr, width, true)
            case Next(_, t) => t.psw == s.psw
            case _ => true
  {
    hide Load, GetGam;
    var same, any := (t: Cpu) => t.psw == s.psw, (t: Cpu) => true;
    forall t, address, width, space | same(t) ensures Ends(same, any, Load(t, address, width, space)) {
      LoadKeepsPsw(t, address, width, space);
    }
    GamKeeps(same, same, any, s, mode, nr, width, true);
  }

  /** ADC or SBC of a word. */
  predicate IsCarry(code: Word, subtract: bool) {
    code / 0x40 == if subtract then 0x2E else 0x2D
  }

  /** ADD or SUB. */
  predicate IsSum(code: Word, subtract: bool) {
    code / 0x1000 == if subtract then 0xE else 6
  }

  /** The state an instruction's destination operand is looked up in: for ADD and SUB after
      their source operand. */
  function BeforeDestination(s: Cpu, code: Word): Outcome<Word> {
    if code / 0x1000 % 8 == 6 then
      var (src, s1) :- GetGam(s, SrcMode(code), SrcReg(code), WordWide, true);
      Next(src.value, s1)
    else Next(0, s)
  }

  function Destination(s: Cpu, code: Word): Outcome<Gam> {
    var (_, s1) :- BeforeDestination(s, code);
    GetGam(s1, DstMode(code), DstReg(code), WordWide, true)
  }

  /** The instruction finds `word` in its destination, replaces it with `result`, and changes
      nothing more but condition codes. */
  predicate Replaces(s: Cpu, code: Word, word: Word, result: Word, t: Cpu) {
    match Destination(s, code)
    case Next(g, fetched) =>
      g.value == word &&
      (match PutGam(fetched, g, result)
       case Next(_, u) => t == u.WithFlags(t.psw.n, t.psw.z, t.psw.v, t.psw.c)
       case _ => false)
    case _ => false
  }

  lemma CarryInMemory(s: Cpu, code: Word, subtract: bool, g: Gam, fetched: Cpu, t: Cpu) returns (u: Cpu)
    requires DstMode(code) != 0 && WidthOf(code) == WordWide && Carry(s, code, subtract) == Next((), t)
    requires GetGam(s, DstMode(code), DstReg(code), WordWide, true) == Next(g, fetched)
    ensures var (r, f) := Carried(g.value, fetched.psw.c, WordWide, subtract);
            PutGam(fetched, g, r).Next? && u == PutGam(fetched, g, r).cpu && t == SetFlags(u, f)
  {
    hide GetGam, PutGam, SetFlags, Carried, DstReg, WidthOf;
    assert Mask(g.value, WordWide) == g.value;
    u := PutGam(fetched, g, Carried(g.value, fetched.psw.c, WordWide, subtract).0).cpu;
  }

  lemma CarryInRegister(s: Cpu, code: Word, subtract: bool, t: Cpu) returns (u: Cpu)
    requires DstMode(code) == 0 && WidthOf(code) == WordWide && Carry(s, code, subtract) == Next((), t)
    ensures var nr := DstReg(code);
            var (r, f) := Carried(s.Reg(nr), s.psw.c, WordWide, subtract);
            PutGam(s, Gam(WordWide, RegisterSpace(nr), InRegister(nr), s.Reg(nr)), r) == Next((), u)
            && t == SetFlags(u, f)
  {
    hide SetFlags, Carried, DstMode, DstReg, WidthOf, RegisterSpace;
    u := s.WithReg(DstReg(code), Carried(s.Reg(DstReg(code)), s.psw.c, WordWide, subtract).0);
  }

  lemma FlagsOnly(u: Cpu, f: Flags, t: Cpu)
    requires t == SetFlags(u, f)
    ensures t == u.WithFlags(t.psw.n, t.psw.z, t.psw.v, t.psw.c) && t.psw.c == f.c
  {
  }

  lemma CarryStep(s: Cpu, code: Word, subtract: bool, g: Gam, fetched: Cpu, t: Cpu)
    requires IsCarry(code, subtract) && Destination(s, code) == Next(g, fetched) && Execute(s, code) == Next((), t)
    ensures var (r, f) := Carried(g.value, s.psw.c, WordWide, subtract);
            Replaces(s, code, g.value, r, t) && t.psw.c == f.c
  {
    hide GetGam, PutGam, SetFlags, Carried, Execute, Carry, Destination, DstReg, WidthOf;
    CarryDispatch(s, code, subtract);
    OperandKeepsPsw(s, DstMode(code), DstReg(code), WordWide);
    var f := Carried(g.value, s.psw.c, WordWide, subtract).1;
    if DstMode(code) == 0 {
      RegisterOperand(s, DstReg(code));
      var u := CarryInRegister(s, code, subtract, t);
      FlagsOnly(u, f, t);
    } else {
      var u := CarryInMemory(s, code, subtract, g, fetched, t);
      FlagsOnly(u, f, t);
    }
  }

  lemma CarryDispatch(s: Cpu, code: Word, subtract: bool)
    requires IsCarry(code, subtract)
    ensures Execute(s, code) == Carry(s, code, subtract) && WidthOf(code) == WordWide
    ensures Destination(s, code) == GetGam(s, DstMode(code), DstReg(code), WordWide, true)
  {
    hide Carry, GetGam;
    assert code / 0x1000 % 8 == 0 && code / 0x40 % 0x200 == code / 0x40;
  }

  lemma SumDispatch(s: Cpu, code: Word, subtract: bool)
    requires IsSum(code, subtract)
    ensures Execute(s, code) == Instructions.Sum(s, code) && (code >= 0x8000 <==> subtract)
    ensures BeforeDestination(s, code) ==
            match GetGam(s, SrcMode(code), SrcReg(code), WordWide, true)
            case Next(src, s1) => Next(src.value, s1)
            case Aborted(cpu) => Aborted(cpu)
            case Device => Outcome.Device
            case Halted => Halted
  {
    hide GetGam, Instructions.Sum, SrcReg;
    assert code / 0x1000 % 8 == 6;
  }

  lemma SumPuts(s: Cpu, code: Word, src: Gam, s1: Cpu, g: Gam, fetched: Cpu, t: Cpu) returns (u: Cpu)
    requires GetGam(s, SrcMode(code), SrcReg(code), WordWide, true) == Next(src, s1)
    requires GetGam(s1, DstMode(code), DstReg(code), WordWide, true) == Next(g, fetched)
    requires Instructions.Sum(s, code) == Next((), t)
    ensures var (r, f) := if code >= 0x8000 then Sub(g.value, src.value) else Add(g.value, src.value);
            PutGam(fetched, g, r).Next? && u == PutGam(fetched, g, r).cpu && t == SetFlags(u, f)
  {
    hide GetGam, PutGam, Sub, Add, SetFlags, SrcMode, SrcReg, DstMode, DstReg;
    u := PutGam(fetched, g, (if code >= 0x8000 then Sub(g.value, src.value) else Add(g.value, src.value)).0).cpu;
  }

  lemma SumStep(s: Cpu, code: Word, subtract: bool, x: Word, s1: Cpu, g: Gam, fetched: Cpu, t: Cpu)
    requires IsSum(code, subtract) && BeforeDestination(s, code) == Next(x, s1)
    requires Destination(s, code) == Next(g, fetched) && Execute(s, code) == Next((), t)
    ensures var (r, f) := if subtract then Sub(g.value, x) else Add(g.value, x);
            Replaces(s, code, g.value, r, t) && t.psw.c == f.c
  {
    hide GetGam, PutGam, Sub, Add, SetFlags, Execute, BeforeDestination, IsSum, Instructions.Sum;
    SumDispatch(s, code, subtract);
    var src := GetGam(s, SrcMode(code), SrcReg(code), WordWide, true).value;
    var u := SumPuts(s, code, src, s1, g, fetched, t);
    FlagsOnly(u, (if subtract then Sub(g.value, x) else Add(g.value, x)).1, t);
  }

  /** `states` is what the instructions `codes` do one after the other. */
  predicate Executed(codes: seq<Word>, states: seq<Cpu>) {
    |states| == |codes| + 1 && forall i :: 0 <= i < |codes| ==> Execute(states[i], codes[i]) == Next((), states[i + 1])
  }

  /** Each instruction finds its word of `words` in its destination. */
  predicate Finds(codes: seq<Word>, states: seq<Cpu>, words: seq<Word>)
    requires |states| == |codes| + 1 && |words| == |codes|
  {
    forall i :: 0 <= i < |codes| ==> FindsWord(states[i], codes[i], words[i])
  }

  predicate FindsWord(s: Cpu, code: Word, word: Word) {
    match Destination(s, code)
    case Next(g, _) => g.value == word
    case _ => false
  }

  /** Each instruction replaces its word of `words` with that of `results`. */
  predicate ReplacesAll(codes: seq<Word>, states: seq<Cpu>, words: seq<Word>, results: seq<Word>)
    requires |states| == |codes| + 1 && |words| == |results| == |codes|
  {
    forall i :: 0 <= i < |codes| ==> Replaces(states[i], codes[i], words[i], results[i], states[i + 1])
  }

  lemma {:induction false} RippleRuns(codes: seq<Word>, states: seq<Cpu>, words: seq<Word>, subtract: bool)
    requires Executed(codes, states) && |words| == |codes| && Finds(codes, states, words)
    requires forall i :: 0 <= i < |codes| ==> IsCarry(codes[i], subtract)
    ensures var (results, last) := Ripple(words, states[0].psw.c, subtract);
            ReplacesAll(codes, states, words, results) && states[|codes|].psw.c == last
    decreases codes
  {
    hide Execute, Destination, Replaces, IsCarry, SubCarry, AddCarry;
    if codes != [] {
      var g, fetched := Destination(states[0], codes[0]).value, Destination(states[0], codes[0]).cpu;
      assert FindsWord(states[0], codes[0], words[0]);
      CarryStep(states[0], codes[0], subtract, g, fetched, states[1]);
      forall i | 0 <= i < |codes[1..]| ensures FindsWord(states[1..][i], codes[1..][i], words[1..][i]) {
        assert FindsWord(states[i + 1], codes[i + 1], words[i + 1]);
      }
      RippleRuns(codes[1..], states[1..], words[1..], subtract);
      var (rest, _) := Ripple(words[1..], states[1].psw.c, subtract);
      var (results, _) := Ripple(words, states[0].psw.c, subtract);
      assert results[1..] == rest;
      forall i | 0 <= i < |codes| ensures Replaces(states[i], codes[i], words[i], results[i], states[i + 1]) {
        if i > 0 {
          assert Replaces(states[1..][i - 1], codes[1..][i - 1], words[1..][i - 1], rest[i - 1], states[1..][i]);
        }
      }
    }
  }

  /** ADD, then ADC on each higher word (or SUB, then SBC), in whatever addressing modes: the
      words put back and the carry left in the status word are those of the whole number. */
  lemma ChainRuns(codes: seq<Word>, states: seq<Cpu>, words: seq<Word>, x: Word, s1: Cpu, subtract: bool)
    requires codes != [] && |words| == |codes| && Executed(codes, states) && Finds(codes, states, words)
    requires IsSum(codes[0], subtract) && BeforeDestination(states[0], codes[0]) == Next(x, s1)
    requires forall i :: 0 < i < |codes| ==> IsCarry(codes[i], subtract)
    ensures var (results, last) := Chain(words, x, subtract);
            ReplacesAll(codes, states, words, results) && states[|codes|].psw.c == last
            && (if subtract then Number(results) - Weighted(last, Power(|words|)) == Number(words) - x
                else Number(results) + Weighted(last, Power(|words|)) == Number(words) + x)
  {
    hide Execute, Destination, Replaces, IsCarry, IsSum, Sub, Add, BeforeDestination, Ripple, Number, Power;
    var g, fetched := Destination(states[0], codes[0]).value, Destination(states[0], codes[0]).cpu;
    assert FindsWord(states[0], codes[0], words[0]);
    SumStep(states[0], codes[0], subtract, x, s1, g, fetched, states[1]);
    forall i | 0 <= i < |codes[1..]| ensures FindsWord(states[1..][i], codes[1..][i], words[1..][i]) {
      assert FindsWord(states[i + 1], codes[i + 1], words[i + 1]);
    }
    RippleRuns(codes[1..], states[1..], words[1..], subtract);
    var (rest, _) := Ripple(words[1..], states[1].psw.c, subtract);
    var (results, _) := Chain(words, x, subtract);
    assert results[1..] == rest;
    forall i | 0 <= i < |codes| ensures Replaces(states[i], codes[i], words[i], results[i], states[i + 1]) {
      if i > 0 {
        assert Replaces(states[1..][i - 1], codes[1..][i - 1], words[1..][i - 1], rest[i - 1], states[1..][i]);
      }
    }
    ChainExact(words, x, subtract);
  }

  // --- Compare, then branch ---

  /** What a conditional branch after CMP of `src` with `dst` decides. */
  predicate Decides(branch: Word, src: Word, dst: Word, width: Width) {
    var s, d := SignedOf(src, width), SignedOf(dst, width);
    match branch / 0x100
    case 0x02 => src != dst
    case 0x03 => src == dst
    case 0x04 => s >= d
    case 0x05 => s < d
    case 0x06 => s > d
    case 0x07 => s <= d
    case 0x82 => src > dst
    case 0x83 => src <= dst
    case 0x86 => src >= dst
    case 0x87 => src < dst
    case _ => false
  }

  predicate IsOrderBranch(branch: Word) {
    branch / 0x100 in {0x02, 0x03, 0x04, 0x05, 0x06, 0x07, 0x82, 0x83, 0x86, 0x87}
  }

  /** What CMP fetches, in whatever addressing modes: source, destination, and the state then. */
  function Operands(s: Cpu, cmp: Word): Outcome<(Word, Word)> {
    var (src, s1) :- GetGam(s, SrcMode(cmp), SrcReg(cmp), WidthOf(cmp), true);
    var (dst, s2) :- GetGam(s1, DstMode(cmp), DstReg(cmp), WidthOf(cmp), true);
    Next((src.value, dst.value), s2)
  }

  lemma LoadInRange(s: Cpu, address: Word, width: Width, space: Space)
    ensures Load(s, address, width, space).Next? ==> Load(s, address, width, space).value < Modulus(width)
  {
  }

  lemma FetchInRange(s: Cpu, address: Word, width: Width, readSpace: Space, writeSpace: Space)
    ensures var o := Fetch(s, address, width, readSpace, writeSpace, true); o.Next? ==> o.value.value < Modulus(width)
  {
    hide Load, Modulus;
    LoadInRange(s, address, width, readSpace);
  }

  /** A fetched operand fits the width of the instruction. */
  lemma OperandInRange(s: Cpu, mode: int, nr: RegNr, width: Width)
    requires 0 <= mode < 8
    ensures var o := GetGam(s, mode, nr, width, true); o.Next? ==> o.value.value < Modulus(width)
  {
    hide Load, Bump, Indexed, Fetch, StepSize, RegisterSpace;
    var own := RegisterSpace(nr);
    match mode
    case 0 =>
    case 1 => FetchInRange(s, s.Reg(nr), width, own, own);
    case 2 => FetchInRange(Bump(s, nr, StepSize(nr, width)), s.Reg(nr), width, own, own);
    case 3 =>
      var o := Load(s, s.Reg(nr), WordWide, own);
      if o.Next? {
        FetchInRange(Bump(o.cpu, nr, 2), o.value, width, DSpace, DSpace);
      }
    case 4 =>
      var s1 := Bump(s, nr, -StepSize(nr, width));
      FetchInRange(s1, s1.Reg(nr), width, own, DSpace);
    case 5 =>
      var s1 := Bump(s, nr, -2);
      var o := Load(s1, s1.Reg(nr), WordWide, own);
      if o.Next? {
        FetchInRange(o.cpu, o.value, width, DSpace, DSpace);
      }
    case 6 =>
      var o := Indexed(s, nr);
      if o.Next? {
        FetchInRange(o.cpu, o.value, width, DSpace, DSpace);
      }
    case _ =>
      var o := Indexed(s, nr);
      if o.Next? {
        var p := Load(o.cpu, o.value, WordWide, DSpace);
        if p.Next? {
          FetchInRange(p.cpu, p.value, width, DSpace, DSpace);
        }
      }
  }

  /** CMP or CMPB in any addressing modes, then a conditional branch: the branch is taken
      exactly as the order of the two operands says, and moves nothing but PC. */
  lemma BranchAfterCompare(s: Cpu, cmp: Word, branch: Word)
    requires cmp / 0x1000 % 8 == 2 && IsOrderBranch(branch)
    ensures match Operands(s, cmp)
            case Next((src, dst), fetched) =>
              var t := SetFlags(fetched, Compare(src, dst, WidthOf(cmp)));
              Execute(s, cmp) == Next((), t)
              && Execute(t, branch) ==
                 Next((), if Decides(branch, src, dst, WidthOf(cmp))
                          then t.AddReg(PC, SignedByte(Low(branch)) * 2) else t)
            case _ => !Execute(s, cmp).Next?
  {
    hide Compare, SignedOf, BranchTaken, GetGam, Execute, IsOrderBranch;
    CompareIs(s, cmp);
    match Operands(s, cmp)
    case Next((src, dst), fetched) =>
      OperandsInRange(s, cmp);
      var f := Compare(src, dst, WidthOf(cmp));
      BranchesDecideOrder(branch, src, dst, WidthOf(cmp));
      TakenIs(branch, f, src, dst, WidthOf(cmp));
      BranchIs(SetFlags(fetched, f), branch, f);
    case _ =>
  }

  lemma OperandsInRange(s: Cpu, cmp: Word)
    ensures match Operands(s, cmp)
            case Next((src, dst), _) => src < Modulus(WidthOf(cmp)) && dst < Modulus(WidthOf(cmp))
            case _ => true
  {
    hide GetGam, Modulus;
    OperandInRange(s, SrcMode(cmp), SrcReg(cmp), WidthOf(cmp));
    var o := GetGam(s, SrcMode(cmp), SrcReg(cmp), WidthOf(cmp), true);
    if o.Next? {
      OperandInRange(o.cpu, DstMode(cmp), DstReg(cmp), WidthOf(cmp));
    }
  }

  lemma TakenIs(branch: Word, f: Flags, src: Word, dst: Word, width: Width)
    requires IsOrderBranch(branch) && f == Compare(src, dst, width) && src < Modulus(width) && dst < Modulus(width)
    ensures BranchTaken(branch, f) == Some(Decides(branch, src, dst, width))
  {
    hide Compare, SignedOf, BranchTaken, Modulus;
    BranchesDecideOrder(branch, src, dst, width);
  }

  lemma CompareIs(s: Cpu, cmp: Word)
    requires cmp / 0x1000 % 8 == 2
    ensures match Operands(s, cmp)
            case Next((src, dst), fetched) =>
              Execute(s, cmp) == Next((), SetFlags(fetched, Compare(src, dst, WidthOf(cmp))))
            case _ => !Execute(s, cmp).Next?
  {
    hide Compare, GetGam;
  }

  lemma OrderBranchCode(branch: Word)
    requires IsOrderBranch(branch)
    ensures branch / 0x1000 % 8 == 0 && branch / 0x40 % 0x200 < 0x20
  {
    assert branch / 0x1000 % 8 == branch / 0x100 / 0x10 % 8 == 0;
  }

  lemma BranchIs(t: Cpu, branch: Word, f: Flags)
    requires IsOrderBranch(branch) && CurrentFlags(t) == f && BranchTaken(branch, f).Some?
    ensures Execute(t, branch) ==
            Next((), if BranchTaken(branch, f).value then t.AddReg(PC, SignedByte(Low(branch)) * 2) else t)
  {
    hide BranchTaken, IsOrderBranch, SignedByte, Low, CurrentFlags;
    OrderBranchCode(branch);
    assert Execute(t, branch) == Branch(t, branch);
  }
}
