/** The processor as an object that is updated in place (cpu.cpp). Every method is proved
    against the value functions of Instructions.dfy, ControlFlow.dfy and Interrupts.dfy; a
    failing `:-` stands for the C++ exception of a memory abort. */
module Processor {
  import opened Words
  import opened Bits
  import opened WordSets
  import opened ProcessorStatus
  import opened Mmu
  import opened Bus
  import opened CpuState
  import opened Arithmetic
  import opened Shifter
  import opened Instructions
  import opened ControlFlow
  import opened Interrupts
  import opened Hardware

  /** How a method returns: normally, by an exception, or by leaving what is modelled. */
  datatype Ending<+T> = Ok(value: T) | Raised | OutOfModel {
    predicate IsFailure() { !Ok? }

    function PropagateFailure<U>(): Ending<U>
      requires IsFailure()
    {
      if Raised? then Raised else OutOfModel
    }

    function Extract(): T
      requires Ok?
    {
      value
    }
  }

  predicate Meets<T(==)>(r: Ending<T>, now: Cpu, spec: Outcome<T>) {
    match spec
    case Next(value, after) => r == Ok(value) && now == after
    case Aborted(after) => r == Raised && now == after
    case _ => r == OutOfModel
  }

  class Processor {
    var regs0_5: seq<Word>
    var sp: seq<Word>
    var pc: Word
    var psw: Psw
    var stackLimit: Word
    var delayedTrap: Option<Word>
    var queue: Queue
    var anyQueued: bool
    const bus: BusUnit

    predicate Valid()
      reads this, bus, bus.mmu, bus.mmu.pages, bus.ram
    {
      |regs0_5| == 12 && |sp| == 4 && bus.Valid()
    }

    function State(): Cpu
      requires Valid()
      reads this, bus, bus.mmu, bus.mmu.pages, bus.ram
    {
      Cpu(Registers(regs0_5, sp, pc), psw, bus.State(), stackLimit, delayedTrap, queue, anyQueued)
    }

    constructor (bus: BusUnit)
      requires bus.Valid()
      ensures Valid() && this.bus == bus
      ensures State() == Cpu(Registers(seq(12, i => 0), seq(4, i => 0), 0), Decode(0), bus.State(),
                             0x100, None, seq(8, i => {}), false)
    {
      this.bus := bus;
      regs0_5, sp, pc := seq(12, i => 0), seq(4, i => 0), 0;
      psw, stackLimit, delayedTrap := Decode(0), 0x100, None;
      queue, anyQueued := seq(8, i => {}), false;
    }

    method GetRegister(nr: RegNr) returns (value: Word)
      requires Valid()
      ensures value == State().Reg(nr)
    {
      if nr < 6 {
        value := regs0_5[(if psw.registerSet then 6 else 0) + nr];
      } else if nr == SP {
        value := sp[psw.mode];
      } else {
        value := pc;
      }
    }

    method SetRegister(nr: RegNr, value: Word)
      requires Valid()
      modifies this
      ensures Valid() && State() == old(State()).WithReg(nr, value)
    {
      if nr < 6 {
        regs0_5 := regs0_5[(if psw.registerSet then 6 else 0) + nr := value];
      } else if nr == SP {
        sp := sp[psw.mode := value];
      } else {
        pc := value;
      }
    }

    method AddRegister(nr: RegNr, delta: int) returns (value: Word)
      requires Valid()
      modifies this
      ensures Valid() && State() == old(State()).AddReg(nr, delta) && value == State().Reg(nr)
    {
      value := GetRegister(nr);
      value := Wrap(value + delta);
      SetRegister(nr, value);
    }

    method SetFlags(f: Flags)
      requires Valid()
      modifies this`psw
      ensures Valid() && State() == Instructions.SetFlags(old(State()), f)
    {
      psw := psw.(n := f.n, z := f.z, v := f.v, c := f.c);
    }

    method SetStatus(p: Psw)
      requires Valid()
      modifies this`psw
      ensures Valid() && State() == old(State()).(psw := p)
    {
      psw := p;
    }

    /** `setPSW_flags_nzv`. */
    method SetNzv(value: Word, width: Width)
      requires Valid()
      modifies this`psw
      ensures Valid() && State() == Nzv(old(State()), value, width)
    {
      psw := psw.(n := Negative(value, width), z := Mask(value, width) == 0, v := false);
    }

    method Load(address: Word, width: Width, space: Space) returns (r: Ending<Word>)
      requires Valid()
      modifies this, bus.mmu, bus.mmu.pages
      ensures Valid() && Meets(r, State(), CpuState.Load(old(State()), address, width, space))
    {
      hide Bus.Read;
      var reply := bus.Read(psw.mode, address, width, space);
      r := match reply case Got(v) => Ok(v) case Trapped => Raised case IoSpace => OutOfModel;
    }

    method Store(address: Word, width: Width, value: Word, space: Space) returns (r: Ending<()>)
      requires Valid()
      modifies this, bus.mmu, bus.mmu.pages, bus.ram
      ensures Valid() && Meets(r, State(), CpuState.Store(old(State()), address, width, value, space))
    {
      hide Bus.Write;
      var reply := bus.Write(psw.mode, address, width, value, space);
      r := match reply case Got(v) => Ok(()) case Trapped => Raised case IoSpace => OutOfModel;
    }

    method AddToMMR1(nr: RegNr, delta: int)
      requires Valid() && -2 <= delta <= 2
      modifies bus.mmu
      ensures Valid() && State() == Log(old(State()), nr, delta)
    {
      bus.mmu.AddToMMR1(nr, delta);
    }

    // --- Addressing modes ---

    method FetchOperand(address: Word, width: Width, readSpace: Space, writeSpace: Space, wanted: bool)
        returns (r: Ending<Gam>)
      requires Valid()
      modifies this, bus.mmu, bus.mmu.pages
      ensures Valid() && Meets(r, State(), Fetch(old(State()), address, width, readSpace, writeSpace, wanted))
    {
      hide CpuState.Load;
      var value: Word := 0;
      if wanted {
        value :- Load(address, width, readSpace);
      }
      r := Ok(Gam(width, writeSpace, AtAddress(address), value));
    }

    /** A register change of an addressing mode, with its MMR1 entry. */
    method BumpRegister(nr: RegNr, delta: int) returns (value: Word)
      requires Valid() && -2 <= delta <= 2
      modifies this, bus.mmu
      ensures Valid() && State() == Bump(old(State()), nr, delta) && value == State().Reg(nr)
    {
      value := AddRegister(nr, delta);
      AddToMMR1(nr, delta);
    }

    /** The word at PC added to a register: the address of mode 6, the pointer of mode 7. */
    method IndexedAddress(nr: RegNr) returns (r: Ending<Word>)
      requires Valid()
      modifies this, bus.mmu, bus.mmu.pages
      ensures Valid() && Meets(r, State(), Indexed(old(State()), nr))
    {
      hide CpuState.Load;
      var index :- Load(pc, WordWide, ISpace);
      var _ := AddRegister(PC, 2);
      var base := GetRegister(nr);
      r := Ok(Wrap(base as int + index));
    }

    /** `getGAM`. */
    method GetGAM(mode: int, nr: RegNr, width: Width, wanted: bool) returns (r: Ending<Gam>)
      requires Valid() && 0 <= mode < 8
      modifies this, bus.mmu, bus.mmu.pages
      ensures Valid() && Meets(r, State(), GetGam(old(State()), mode, nr, width, wanted))
    {
      hide CpuState.Load, Fetch, Bump, Indexed;
      var own := RegisterSpace(nr);
      var address := GetRegister(nr);
      if mode == 0 {
        return Ok(Gam(width, own, InRegister(nr), Mask(address, width)));
      }
      var readSpace, writeSpace := DSpace, DSpace;
      match mode {
        case 1 =>
          readSpace, writeSpace := own, own;
        case 2 =>
          var _ := BumpRegister(nr, StepSize(nr, width));
          readSpace, writeSpace := own, own;
        case 3 =>
          address :- Load(address, WordWide, own);
          var _ := BumpRegister(nr, 2);
        case 4 =>
          address := BumpRegister(nr, -StepSize(nr, width));
          readSpace := own;
        case 5 =>
          address := BumpRegister(nr, -2);
          address :- Load(address, WordWide, own);
        case 6 =>
          address :- IndexedAddress(nr);
        case _ =>
          address :- IndexedAddress(nr);
          address :- Load(address, WordWide, DSpace);
      }
      r := FetchOperand(address, width, readSpace, writeSpace, wanted);
    }

    /** `putGAM`. */
    method PutGAM(g: Gam, value: Word) returns (r: Ending<()>)
      requires Valid()
      modifies this, bus.mmu, bus.mmu.pages, bus.ram
      ensures Valid() && Meets(r, State(), PutGam(old(State()), g, value))
    {
      hide CpuState.Store;
      match g.place
      case InRegister(nr) =>
        SetRegister(nr, value);
        r := Ok(());
      case AtAddress(address) =>
        r := Store(address, g.width, value, g.space);
    }

    // --- Instructions ---

    method ExecuteMov(instr: Word) returns (r: Ending<()>)
      requires Valid()
      modifies this, bus.mmu, bus.mmu.pages, bus.ram
      ensures Valid() && Meets(r, State(), Mov(old(State()), instr))
    {
      hide GetGam, PutGam;
      var width := WidthOf(instr);
      var src :- GetGAM(SrcMode(instr), SrcReg(instr), width, true);
      if width == ByteWide && DstMode(instr) == 0 {
        SetRegister(DstReg(instr), Wrap(SignedByte(Low(src.value))));
      } else {
        var dst :- GetGAM(DstMode(instr), DstReg(instr), width, false);
        var _ :- PutGAM(dst, src.value);
      }
      SetNzv(src.value, width);
      r := Ok(());
    }

    /** CMP and BIT. */
    method ExecuteCmpBit(instr: Word) returns (r: Ending<()>)
      requires Valid()
      modifies this, bus.mmu, bus.mmu.pages
      ensures Valid() && Meets(r, State(), CmpBit(old(State()), instr))
    {
      hide GetGam, Compare;
      var width := WidthOf(instr);
      var src :- GetGAM(SrcMode(instr), SrcReg(instr), width, true);
      var dst :- GetGAM(DstMode(instr), DstReg(instr), width, true);
      if instr / 0x1000 % 8 == 2 {
        SetFlags(Compare(src.value, dst.value, width));
      } else {
        SetNzv(Mask(And(dst.value, src.value), width), width);
      }
      r := Ok(());
    }

    /** BIC and BIS. */
    method ExecuteBicBis(instr: Word) returns (r: Ending<()>)
      requires Valid()
      modifies this, bus.mmu, bus.mmu.pages, bus.ram
      ensures Valid() && Meets(r, State(), BicBis(old(State()), instr))
    {
      hide GetGam, PutGam, And, Or;
      var width, clear := WidthOf(instr), instr / 0x1000 % 8 == 4;
      var src :- GetGAM(SrcMode(instr), SrcReg(instr), width, true);
      var result;
      if DstMode(instr) == 0 {
        var whole := GetRegister(DstReg(instr));
        result := Masked(clear, whole, src.value);
        SetRegister(DstReg(instr), result);
      } else {
        var dst :- GetGAM(DstMode(instr), DstReg(instr), width, true);
        result := Masked(clear, dst.value, src.value);
        var _ :- PutGAM(dst, result);
      }
      SetNzv(result, width);
      r := Ok(());
    }

    /** ADD and SUB. */
    method ExecuteSum(instr: Word) returns (r: Ending<()>)
      requires Valid()
      modifies this, bus.mmu, bus.mmu.pages, bus.ram
      ensures Valid() && Meets(r, State(), Sum(old(State()), instr))
    {
      hide GetGam, PutGam;
      var src :- GetGAM(SrcMode(instr), SrcReg(instr), WordWide, true);
      var dst :- GetGAM(DstMode(instr), DstReg(instr), WordWide, true);
      var (result, f) := if instr >= 0x8000 then Sub(dst.value, src.value) else Add(dst.value, src.value);
      var _ :- PutGAM(dst, result);
      SetFlags(f);
      r := Ok(());
    }

    method ExecuteMul(instr: Word) returns (r: Ending<()>)
      requires Valid()
      modifies this, bus.mmu, bus.mmu.pages
      ensures Valid() && Meets(r, State(), Mul(old(State()), instr))
    {
      hide GetGam;
      var nr := SrcReg(instr);
      var multiplicand := GetRegister(nr);
      var g :- GetGAM(DstMode(instr), DstReg(instr), WordWide, true);
      var (high, low, f) := Multiply(multiplicand, g.value);
      SetRegister(nr, high);
      SetRegister(OddHalf(nr), low);
      SetFlags(f);
      r := Ok(());
    }

    method ExecuteDiv(instr: Word) returns (r: Ending<()>)
      requires Valid()
      modifies this, bus.mmu, bus.mmu.pages
      ensures Valid() && Meets(r, State(), Div(old(State()), instr))
    {
      hide GetGam;
      var nr := SrcReg(instr);
      var g :- GetGAM(DstMode(instr), DstReg(instr), WordWide, true);
      var high := GetRegister(nr);
      var low := GetRegister(OddHalf(nr));
      var (result, f) := Divide(high, low, g.value);
      if result.Some? {
        SetRegister(nr, result.value.0);
        SetRegister(OddHalf(nr), result.value.1);
      }
      SetFlags(f);
      r := Ok(());
    }

    /** ASH, by the bit-by-bit shifter. */
    method ExecuteAsh(instr: Word) returns (r: Ending<()>)
      requires Valid()
      modifies this, bus.mmu, bus.mmu.pages
      ensures Valid() && Meets(r, State(), Ash(old(State()), instr))
    {
      hide GetGam, Shifted, ShiftFlags, Trim;
      var nr := SrcReg(instr);
      var value := GetRegister(nr);
      var g :- GetGAM(DstMode(instr), DstReg(instr), WordWide, true);
      var shifted, f := Shift(value, g.value % 64, false);
      SetRegister(nr, shifted);
      SetFlags(f);
      r := Ok(());
    }

    method ExecuteAshc(instr: Word) returns (r: Ending<()>)
      requires Valid()
      modifies this, bus.mmu, bus.mmu.pages
      ensures Valid() && Meets(r, State(), Ashc(old(State()), instr))
    {
      hide GetGam, Shifted, ShiftFlags, Trim;
      var nr := SrcReg(instr);
      var high := GetRegister(nr);
      var low := GetRegister(OddHalf(nr));
      assert LongReg(State(), nr) == high as int * 0x1_0000 + low;
      hide LongReg;
      var g :- GetGAM(DstMode(instr), DstReg(instr), WordWide, true);
      var shifted, f := Shift(high as int * 0x1_0000 + low, g.value % 64, true);
      SetRegister(nr, shifted / 0x1_0000);
      SetRegister(OddHalf(nr), shifted % 0x1_0000);
      SetFlags(f);
      r := Ok(());
    }

    method ExecuteXor(instr: Word) returns (r: Ending<()>)
      requires Valid()
      modifies this, bus.mmu, bus.mmu.pages, bus.ram
      ensures Valid() && Meets(r, State(), ExclusiveOr(old(State()), instr))
    {
      hide GetGam, PutGam, Xor;
      var value := GetRegister(SrcReg(instr));
      var dst :- GetGAM(DstMode(instr), DstReg(instr), WordWide, true);
      var result := Xor(dst.value, value);
      var _ :- PutGAM(dst, result);
      SetNzv(result, WordWide);
      r := Ok(());
    }

    method ExecuteSob(instr: Word) returns (r: Ending<()>)
      requires Valid()
      modifies this
      ensures Valid() && Meets(r, State(), Sob(old(State()), instr))
    {
      var left := AddRegister(SrcReg(instr), -1);
      if left != 0 {
        pc := Wrap(pc - instr % 64 * 2);
      }
      r := Ok(());
    }

    /** ADC(B) and SBC(B). */
    method ExecuteCarry(instr: Word, subtract: bool) returns (r: Ending<()>)
      requires Valid()
      modifies this, bus.mmu, bus.mmu.pages, bus.ram
      ensures Valid() && Meets(r, State(), Carry(old(State()), instr, subtract))
    {
      hide GetGam, PutGam, Carried;
      var width, nr := WidthOf(instr), DstReg(instr);
      if DstMode(instr) == 0 {
        var whole := GetRegister(nr);
        var x := Mask(whole, width);
        var (result, f) := Carried(x, psw.c, width, subtract);
        var kept := if width == ByteWide then whole / 0x100 * 0x100 else 0;
        SetRegister(nr, Wrap(kept + result));
        SetFlags(f);
      } else {
        var g :- GetGAM(DstMode(instr), nr, width, true);
        var x := Mask(g.value, width);
        var (result, f) := Carried(x, psw.c, width, subtract);
        var _ :- PutGAM(g, result);
        SetFlags(f);
      }
      r := Ok(());
    }

    /** `conditional_branch_instructions`. */
    method ExecuteBranch(instr: Word) returns (r: Ending<()>)
      requires Valid()
      modifies this
      ensures Valid() && Meets(r, State(), Branch(old(State()), instr))
    {
      hide BranchTaken;
      var taken := BranchTaken(instr, Flags(psw.n, psw.z, psw.v, psw.c));
      if taken == None {
        return OutOfModel;
      }
      if taken.value {
        var _ := AddRegister(PC, SignedByte(Low(instr)) * 2);
      }
      r := Ok(());
    }

    /** The dispatch of `step` over the modelled instructions. */
    method ExecuteInstruction(instr: Word) returns (r: Ending<()>)
      requires Valid()
      modifies this, bus.mmu, bus.mmu.pages, bus.ram
      ensures Valid() && Meets(r, State(), Execute(old(State()), instr))
    {
      hide Mov, CmpBit, BicBis, Sum, Mul, Div, Ash, Ashc, ExclusiveOr, Sob, Carry, Branch;
      match instr / 0x1000 % 8
      case 1 => r := ExecuteMov(instr);
      case 2 => r := ExecuteCmpBit(instr);
      case 3 => r := ExecuteCmpBit(instr);
      case 4 => r := ExecuteBicBis(instr);
      case 5 => r := ExecuteBicBis(instr);
      case 6 => r := ExecuteSum(instr);
      case 7 =>
        if instr >= 0x8000 {
          return OutOfModel;
        }
        match instr / 0x200 % 8 {
          case 0 => r := ExecuteMul(instr);
          case 1 => r := ExecuteDiv(instr);
          case 2 => r := ExecuteAsh(instr);
          case 3 => r := ExecuteAshc(instr);
          case 4 => r := ExecuteXor(instr);
          case 7 => r := ExecuteSob(instr);
          case _ => r := OutOfModel;
        }
      case _ =>
        if instr / 0x40 % 0x200 == 0x2D {
          r := ExecuteCarry(instr, false);
        } else if instr / 0x40 % 0x200 == 0x2E {
          r := ExecuteCarry(instr, true);
        } else {
          r := ExecuteBranch(instr);
        }
    }

    /** `step` from the fetch on. */
    method FetchAndExecute() returns (r: Ending<()>)
      requires Valid()
      modifies this, bus.mmu, bus.mmu.pages, bus.ram
      ensures Valid() && Meets(r, State(), Step(old(State())))
    {
      hide CpuState.Load, Execute;
      bus.mmu.MMRStartInstruction(pc);
      assert State() == StartInstruction(old(State()));
      var instr :- Load(pc, WordWide, ISpace);
      var _ := AddRegister(PC, 2);
      r := ExecuteInstruction(instr);
    }

    // --- Stack, calls and traps ---

    /** `push_stack`. */
    method Push(value: Word) returns (r: Ending<()>)
      requires Valid()
      modifies this, bus.mmu, bus.mmu.pages, bus.ram
      ensures Valid() && Meets(r, State(), PushStack(old(State()), value))
    {
      hide CpuState.Store;
      var yellow := false;
      if psw.mode == KERNEL {
        var limit := if stackLimit == 0 then 0x100 else stackLimit;
        var current := GetRegister(SP);
        if current < limit {
          if current < limit - 32 {
            return OutOfModel;
          }
          yellow := true;
        }
      }
      var a := AddRegister(SP, -2);
      var _ :- Store(a, WordWide, value, DSpace);
      if yellow {
        delayedTrap, anyQueued := Some(4), true;
      }
      r := Ok(());
    }

    /** `pop_stack`. */
    method Pop() returns (r: Ending<Word>)
      requires Valid()
      modifies this, bus.mmu, bus.mmu.pages
      ensures Valid() && Meets(r, State(), PopStack(old(State())))
    {
      hide CpuState.Load;
      var a := GetRegister(SP);
      var value :- Load(a, WordWide, DSpace);
      var _ := AddRegister(SP, 2);
      r := Ok(value);
    }

    method JumpToSubroutine(link: RegNr, target: Word) returns (r: Ending<()>)
      requires Valid()
      modifies this, bus.mmu, bus.mmu.pages, bus.ram
      ensures Valid() && Meets(r, State(), Jsr(old(State()), link, target))
    {
      hide PushStack;
      var value := GetRegister(link);
      var _ :- Push(value);
      AddToMMR1(SP, -2);
      SetRegister(link, pc);
      SetRegister(PC, target);
      r := Ok(());
    }

    method ReturnFromSubroutine(link: RegNr) returns (r: Ending<()>)
      requires Valid()
      modifies this, bus.mmu, bus.mmu.pages
      ensures Valid() && Meets(r, State(), Rts(old(State()), link))
    {
      hide CpuState.Load;
      var target := GetRegister(link);
      SetRegister(PC, target);
      var a := GetRegister(SP);
      var word :- Load(a, WordWide, DSpace);
      SetRegister(link, word);
      if link != SP {
        var _ := AddRegister(SP, 2);
      }
      r := Ok(());
    }

    method ReturnFromInterrupt() returns (r: Ending<()>)
      requires Valid()
      modifies this, bus.mmu, bus.mmu.pages
      ensures Valid() && Meets(r, State(), Rti(old(State())))
    {
      hide PopStack, SetPsw;
      var target :- Pop();
      SetRegister(PC, target);
      var word :- Pop();
      psw := SetPsw(psw, word, psw.mode != KERNEL);
      r := Ok(());
    }

    /** The first part of `trap`: kernel mode, and the words of the vector. */
    method FetchVector(vector: Word) returns (r: Ending<Word>)
      requires Valid()
      modifies this, bus.mmu, bus.mmu.pages
      ensures Valid() && Meets(r, State(), ControlFlow.FetchVector(old(State()), vector))
    {
      hide CpuState.Load;
      SetStatus(psw.(mode := KERNEL));
      assert State() == InKernel(old(State()));
      var space := if bus.mmu.State().UseDataSpace(KERNEL) then DSpace else ISpace;
      var target :- Load(vector, WordWide, space);
      SetRegister(PC, target);
      r := Load(Wrap(vector + 2), WordWide, space);
    }

    /** `trap`, when nothing in it traps again. */
    method EnterTrap(vector: Word, ipl: Option<Level>) returns (r: Ending<()>)
      requires Valid()
      modifies this, bus.mmu, bus.mmu.pages, bus.ram
      ensures Valid() && Meets(r, State(), Trap(old(State()), vector, ipl))
    {
      hide ControlFlow.FetchVector, PushStack, EntryPsw, Psw.Encode;
      var left, leftPc := psw, pc;
      var word :- FetchVector(vector);
      SetStatus(EntryPsw(word, left, ipl));
      var _ :- Push(left.Encode());
      r := Push(leftPc);
    }

    // --- Interrupts ---

    method QueueInterrupt(level: Level, vector: Word)
      requires Valid()
      modifies this`queue, this`anyQueued
      ensures Valid() && State() == old(State()).(queue := Enqueue(old(queue), level, vector), anyQueued := true)
    {
      queue := queue[level := queue[level] + {vector}];
      anyQueued := true;
    }

    method UnqueueInterrupt(level: Level, vector: Word)
      requires Valid()
      modifies this`queue
      ensures Valid() && State() == old(State()).(queue := Dequeue(old(queue), level, vector))
    {
      queue := queue[level := queue[level] - {vector}];
    }

    /** `check_pending_interrupts`. */
    method CheckPendingInterrupts() returns (pending: bool)
      requires Valid()
      ensures pending <==> Pending(queue, psw.priority)
    {
      var i: int := psw.priority + 1;
      while i < 8
        invariant psw.priority < i <= 8
        invariant forall j :: psw.priority < j < i ==> queue[j] == {}
      {
        if queue[i] != {} {
          return true;
        }
        i := i + 1;
      }
      pending := false;
    }

    /** `execute_any_pending_interrupt`. */
    method ExecuteAnyPendingInterrupt() returns (r: Ending<()>)
      requires Valid()
      modifies this, bus.mmu, bus.mmu.pages, bus.ram
      ensures Valid() && Meets(r, State(), ExecutePending(old(State())))
    {
      hide Trap;
      ghost var before := State();
      for i := 0 to 8
        invariant Valid()
        invariant State() == before.(anyQueued := before.anyQueued || exists j :: 0 <= j < i && queue[j] != {})
        invariant PickFrom(queue, psw.priority, 0) == PickFrom(queue, psw.priority, i)
      {
        if queue[i] != {} {
          anyQueued := true;
          if psw.priority < i {
            var vector := First(queue[i]);
            queue := queue[i := queue[i] - {vector}];
            r := EnterTrap(vector, Some(i));
            return;
          }
        }
      }
      r := Ok(());
    }

    /** The first part of `step`: lower the flag, take a delayed trap, scan. */
    method PollInterrupts() returns (r: Ending<()>)
      requires Valid()
      modifies this, bus.mmu, bus.mmu.pages, bus.ram
      ensures Valid() && Meets(r, State(), Poll(old(State())))
    {
      hide Trap, ExecutePending;
      var raised := anyQueued;
      anyQueued := false;
      if raised {
        if delayedTrap.Some? {
          var _ :- EnterTrap(delayedTrap.value, Some(7));
          delayedTrap := None;
        }
        r := ExecuteAnyPendingInterrupt();
      } else {
        r := Ok(());
      }
    }
  }
}
