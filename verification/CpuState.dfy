/** The registers and the other state of the processor that instructions work on (cpu.h). */
module CpuState {
  import opened Words
  import opened ProcessorStatus
  import opened Mmu
  import opened Bus

  /** R0..R5 in two sets, a stack pointer per mode, and the program counter. */
  datatype Registers = Registers(general: seq<Word>, sp: seq<Word>, pc: Word)

  type RegisterFile = r: Registers | |r.general| == 12 && |r.sp| == 4
    witness Registers(seq(12, i => 0), seq(4, i => 0), 0)

  type RegNr = n: int | 0 <= n < 8

  const SP: RegNr := 6
  const PC: RegNr := 7

  /** Vectors waiting at each of the eight levels. */
  type Queue = q: seq<set<Word>> | |q| == 8 witness seq(8, i => {})

  datatype Cpu = Cpu(
    regs: RegisterFile,
    psw: Psw,
    bus: BusState,
    stackLimit: Word,
    delayedTrap: Option<Word>,
    queue: Queue,
    anyQueued: bool)
  {
    function GeneralIndex(nr: RegNr): nat
      requires nr < 6
      ensures GeneralIndex(nr) < 12
    {
      (if psw.registerSet then 6 else 0) + nr
    }

    function Reg(nr: RegNr): Word {
      if nr < 6 then regs.general[GeneralIndex(nr)]
      else if nr == SP then regs.sp[psw.mode]
      else regs.pc
    }

    function WithReg(nr: RegNr, value: Word): Cpu {
      if nr < 6 then this.(regs := regs.(general := regs.general[GeneralIndex(nr) := value]))
      else if nr == SP then this.(regs := regs.(sp := regs.sp[psw.mode := value]))
      else this.(regs := regs.(pc := value))
    }

    function AddReg(nr: RegNr, delta: int): Cpu {
      WithReg(nr, Wrap(Reg(nr) + delta))
    }

    function WithMmr1(value: Word): Cpu {
      this.(bus := bus.(mmu := bus.mmu.(mmr1 := value)))
    }

    function WithFlags(n: bool, z: bool, v: bool, c: bool): Cpu {
      this.(psw := psw.(n := n, z := z, v := v, c := c))
    }
  }

  /** How an instruction, or part of one, ends. A memory abort carries the state at the moment
      it is detected; `Device` is an access to the I/O page and `Halted` a red-zone stack or an
      instruction outside the modelled set, after which the model says nothing. */
  datatype Outcome<+T> =
    | Next(value: T, cpu: Cpu)
    | Aborted(cpu: Cpu)
    | Device
    | Halted
  {
    predicate IsFailure() { !Next? }

    function PropagateFailure<U>(): Outcome<U>
      requires IsFailure()
    {
      match this
      case Aborted(cpu) => Outcome.Aborted(cpu)
      case Device => Outcome.Device
      case Halted => Outcome.Halted
    }

    function Extract(): (T, Cpu)
      requires !IsFailure()
    {
      (value, cpu)
    }
  }

  /** `bus::read` and `bus::write` in the current mode. */
  function Load(s: Cpu, address: Word, width: Width, space: Space): Outcome<Word> {
    match Read(s.bus, s.psw.mode, address, width, space)
    case Done(value, bus) => Next(value, s.(bus := bus))
    case Abort(bus) => Aborted(s.(bus := bus))
    case Device => Outcome.Device
  }

  function Store(s: Cpu, address: Word, width: Width, value: Word, space: Space): Outcome<()> {
    match Write(s.bus, s.psw.mode, address, width, value, space)
    case Done(_, bus) => Next((), s.(bus := bus))
    case Abort(bus) => Aborted(s.(bus := bus))
    case Device => Outcome.Device
  }
}
