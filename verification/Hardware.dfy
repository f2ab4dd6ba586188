/** The MMU and the bus as objects that are updated in place (mmu.cpp, bus.cpp, memory.h),
    proved against the values of Mmu.dfy and Bus.dfy. */
module Hardware {
  import opened Words
  import opened ProcessorStatus
  import opened Mmu
  import opened Bus

  /** Registers and page table; `ioBase` is kept next to MMR0 and MMR3, which determine it. */
  class MmuUnit {
    const pages: array<Page>
    var mmr0: Word
    var mmr1: Word
    var mmr2: Word
    var mmr3: Word
    var ioBase: nat

    predicate Valid()
      reads this, pages
    {
      pages.Length == PAGES && ioBase == State().IoBase()
    }

    function State(): MmuState
      requires pages.Length == PAGES
      reads this, pages
    {
      MmuState(pages[..], mmr0, mmr1, mmr2, mmr3)
    }

    constructor ()
      ensures Valid() && fresh(pages)
      ensures State() == MmuState(seq(PAGES, i => Page(0, 0)), 0, 0, 0, 0)
    {
      pages := new Page[PAGES](i => Page(0, 0));
      mmr0, mmr1, mmr2, mmr3, ioBase := 0, 0, 0, 0, 0xE000;
      new;
      assert pages[..] == seq(PAGES, i => Page(0, 0));
    }

    method UpdateIoBase()
      requires pages.Length == PAGES
      modifies this`ioBase
      ensures Valid() && State() == old(State())
    {
      ioBase := State().IoBase();
    }

    method SetMMR0AsIs(value: Word)
      requires Valid()
      modifies this
      ensures Valid() && State() == old(State()).(mmr0 := value)
    {
      mmr0 := value;
      UpdateIoBase();
    }

    method SetMMR0(value: Word)
      requires Valid()
      modifies this
      ensures Valid() && State() == old(State()).(mmr0 := ProgramStore(old(mmr0), value))
    {
      var v := value / 0x1000 * 0x1000 + value % 0x400;
      if v % 2 == 1 {
        v := v % 0x2000;
      } else if mmr0 / 0x2000 != 0 {
        v := v % 0x100;
      }
      SetMMR0AsIs(v);
    }

    method SetMMR3(value: Word)
      requires Valid()
      modifies this
      ensures Valid() && State() == old(State()).(mmr3 := value)
    {
      mmr3 := value;
      UpdateIoBase();
    }

    method SetPageAccessed(page: nat)
      requires Valid() && page < PAGES
      modifies pages
      ensures Valid() && State() == TouchPage(old(State()), page, false)
    {
      pages[page] := pages[page].Accessed();
    }

    method SetPageWrittenTo(page: nat)
      requires Valid() && page < PAGES
      modifies pages
      ensures Valid() && State() == TouchPage(old(State()), page, true)
    {
      pages[page] := pages[page].Written();
    }

    method TrapIfOdd(apf: nat)
      requires Valid() && apf < 8
      modifies this
      ensures Valid() && State() == old(State()).(mmr0 := MarkOdd(old(mmr0), apf))
    {
      SetMMR0AsIs(MarkOdd(mmr0, apf));
    }

    /** False stands for the trap through 0250 and the exception. */
    method VerifyPageAccess(page: nat, isWrite: bool) returns (ok: bool)
      requires Valid() && page < PAGES
      modifies this
      ensures Valid()
      ensures ok == (GetTrapAction(pages[page].AccessControl(), isWrite) == Proceed)
      ensures State() == if ok then old(State()) else old(State()).(mmr0 := LockForAccess(old(State()), page, isWrite))
    {
      var access := pages[page].AccessControl();
      ok := GetTrapAction(access, isWrite) == Proceed;
      if !ok && mmr0 / 0x2000 == 0 {
        var temp := mmr0 / 0x80 % 0x20 * 0x80 + mmr0 % 2;
        var bit13 := isWrite && access != 6;
        if access == 0 || access == 4 || access == 3 || access == 7 {
          temp := temp + 0x8000;
        } else if access == 1 || access == 2 {
          bit13 := true;
        }
        if bit13 {
          temp := temp + 0x2000;
        }
        SetMMR0AsIs(temp + page % 8 * 2);
      }
    }

    method VerifyPageLength(address: Word, page: nat) returns (ok: bool)
      requires Valid() && page < PAGES
      modifies this
      ensures Valid()
      ensures ok == WithinLength(pages[page], address)
      ensures State() == if ok then old(State()) else old(State()).(mmr0 := LockForLength(old(State()), page))
    {
      var block := address / 0x40 % 0x80;
      ok := if pages[page].GrowsDown() then block >= pages[page].Limit() else block <= pages[page].Limit();
      if !ok && mmr0 / 0x2000 == 0 {
        SetMMR0AsIs(Retained(mmr0) + 0x4000 + page / 16 * 0x20 + page / 8 % 2 * 0x10 + page % 8 * 2);
      }
    }

    /** `calculate_physical_address`; a fault has been recorded in MMR0. */
    method CalculatePhysicalAddress(mode: Mode, address: Word, isWrite: bool, space: Space) returns (t: Translation)
      requires Valid()
      modifies this
      ensures Valid() && t == Translate(old(State()), mode, address, isWrite, space)
      ensures State() == match t case Physical(_, _) => old(State()) case Fault(m) => old(State()).(mmr0 := m)
    {
      if mmr0 % 2 == 1 || (isWrite && mmr0 / 0x100 % 2 == 1) {
        var apf := address / 0x2000;
        var page := PageIndex(mode, space, apf);
        var offset := pages[page].par * 0x40 + address % 0x2000;
        if mmr3 / 0x10 % 2 == 0 {
          offset := offset % 0x4_0000;
        }
        var ok := VerifyPageAccess(page, isWrite);
        if ok {
          ok := VerifyPageLength(address, page);
        }
        t := if ok then Physical(offset, page) else Fault(mmr0);
      } else {
        t := Physical(address, address / 0x2000);
      }
    }

    /** `add_to_MMR1`, with the lock test its callers make. */
    method AddToMMR1(nr: int, delta: int)
      requires Valid() && 0 <= nr < 8 && -2 <= delta <= 2
      modifies this`mmr1
      ensures Valid()
      ensures State() == if old(State()).Locked() then old(State())
                         else old(State()).(mmr1 := old(mmr1) * 0x100 % 0x1_0000 + (delta % 32 * 8 + nr))
    {
      if mmr0 / 0x2000 == 0 {
        mmr1 := mmr1 * 0x100 % 0x1_0000;
        mmr1 := mmr1 + (delta % 32 * 8 + nr);
      }
    }

    method MMRStartInstruction(pc: Word)
      requires Valid()
      modifies this`mmr1, this`mmr2
      ensures Valid()
      ensures State() == if old(State()).Locked() then old(State()) else old(State()).(mmr2 := pc, mmr1 := 0)
    {
      if mmr0 / 0x2000 == 0 {
        mmr2, mmr1 := pc, 0;
      }
    }
  }

  /** What an access comes back with: a value, an exception, or the I/O page. */
  datatype Reply = Got(value: Word) | Trapped | IoSpace

  /** The outcome of a method call matches the outcome of its specification. */
  predicate Answers(r: Reply, now: BusState, was: BusState, spec: Access<Word>) {
    match spec
    case Done(value, after) => r == Got(value) && now == after
    case Abort(after) => r == Trapped && now == after
    case Device => r == IoSpace && now == was
  }

  function Valued(a: Access<()>): Access<Word> {
    match a
    case Done(_, after) => Done(0, after)
    case Abort(after) => Abort(after)
    case Device => Device
  }

  class BusUnit {
    const mmu: MmuUnit
    const ram: array<Byte>

    predicate Valid()
      reads this, mmu, mmu.pages, ram
    {
      mmu.Valid() && ram.Length % 2 == 0
    }

    function State(): BusState
      requires Valid()
      reads this, mmu, mmu.pages, ram
    {
      BusState(mmu.State(), ram[..])
    }

    constructor (mmu: MmuUnit, ram: array<Byte>)
      requires mmu.Valid() && ram.Length % 2 == 0
      ensures Valid() && this.mmu == mmu && this.ram == ram && State() == BusState(mmu.State(), ram[..])
    {
      this.mmu, this.ram := mmu, ram;
    }

    method VerifyPointerBounds(offset: nat, page: nat) returns (ok: bool)
      requires Valid() && page < PAGES
      modifies mmu
      ensures Valid() && ok == (offset < ram.Length)
      ensures State() == if ok then old(State())
                         else old(State()).(mmu := old(State()).mmu.(mmr0 := LockForBounds(old(State()).mmu, page)))
    {
      ok := offset < ram.Length;
      if !ok && mmu.mmr0 / 0x2000 == 0 {
        var m := mmu.mmr0;
        mmu.SetMMR0AsIs(Retained(m) + 0x8000 + page / 16 * 0x20 + m / 0x10 % 2 * 0x10 + page % 8 * 2);
      }
    }

    /** The checks `read` and `write` start with; a refusal has been recorded in MMR0. */
    method Find(mode: Mode, address: Word, space: Space) returns (t: Target)
      requires Valid()
      modifies mmu
      ensures Valid() && t == Locate(old(State()), mode, address, space)
      ensures State() == if t.Refused? then t.bus else old(State())
    {
      var p := mmu.CalculatePhysicalAddress(mode, address, false,
                                            if mmu.State().UseDataSpace(mode) then space else ISpace);
      hide Translate;
      if p.Fault? {
        return Refused(State());
      }
      if p.offset >= mmu.ioBase {
        return IoPage;
      }
      var ok := VerifyPointerBounds(p.offset, p.page);
      t := if ok then Cell(p.offset, p.page) else Refused(State());
    }

    /** `bus::read`. */
    method Read(mode: Mode, address: Word, width: Width, space: Space) returns (r: Reply)
      requires Valid()
      modifies mmu, mmu.pages
      ensures Valid() && Answers(r, State(), old(State()), Bus.Read(old(State()), mode, address, width, space))
    {
      hide Locate;
      var t := Find(mode, address, space);
      match t
      case Refused(_) => r := Trapped;
      case IoPage => r := IoSpace;
      case Cell(offset, page) =>
        mmu.SetPageAccessed(page);
        if width == ByteWide {
          r := Got(ram[offset]);
        } else if offset % 2 == 1 {
          mmu.TrapIfOdd(address / 0x2000);
          r := Trapped;
        } else {
          r := Got(ram[offset] as int + ram[offset + 1] as int * 0x100);
        }
    }

    /** `bus::write`. */
    method Write(mode: Mode, address: Word, width: Width, value: Word, space: Space) returns (r: Reply)
      requires Valid()
      modifies mmu, mmu.pages, ram
      ensures Valid()
      ensures Answers(r, State(), old(State()), Valued(Bus.Write(old(State()), mode, address, width, value, space)))
    {
      hide Locate;
      var t := Find(mode, address, space);
      match t
      case Refused(_) => r := Trapped;
      case IoPage => r := IoSpace;
      case Cell(offset, page) =>
        mmu.SetPageWrittenTo(page);
        r := Got(0);
        if width == ByteWide {
          ram[offset] := Low(value);
        } else if offset % 2 == 1 {
          mmu.TrapIfOdd(address / 0x2000);
          r := Trapped;
        } else {
          ram[offset] := Low(value);
          ram[offset + 1] := High(value);
        }
    }

    // --- Access by devices, past the MMU ---

    method ReadUnibusByte(a: nat) returns (v: Byte)
      ensures v == UnibusByte(ram[..], a)
    {
      v := if a < ram.Length then ram[a] else 0;
    }

    method WriteUnibusByte(a: nat, v: Byte)
      modifies ram
      ensures ram[..] == SetUnibusByte(old(ram[..]), a, v)
    {
      if a < ram.Length {
        ram[a] := v;
      }
    }

    method ReadUnibusWord(a: nat) returns (v: Word)
      requires Valid()
      requires a + 1 < ram.Length || a >= ram.Length
      ensures v == UnibusWord(ram[..], a)
    {
      v := if a < ram.Length then ram[a] as int + ram[a + 1] as int * 0x100 else 0;
    }

    method WriteUnibusWord(a: nat, v: Word)
      requires a + 1 < ram.Length || a >= ram.Length
      modifies ram
      ensures ram[..] == SetUnibusWord(old(ram[..]), a, v)
    {
      if a < ram.Length {
        ram[a] := Low(v);
        ram[a + 1] := High(v);
      }
    }
  }

  /** Memory that is not there reads as zero and swallows stores. */
  function UnibusByte(ram: seq<Byte>, a: nat): Byte {
    if a < |ram| then ram[a] else 0
  }

  function SetUnibusByte(ram: seq<Byte>, a: nat, v: Byte): seq<Byte> {
    if a < |ram| then ram[a := v] else ram
  }

  function UnibusWord(ram: seq<Byte>, a: nat): Word {
    if a + 1 < |ram| then ram[a] as int + ram[a + 1] as int * 0x100 else 0
  }

  function SetUnibusWord(ram: seq<Byte>, a: nat, v: Word): seq<Byte> {
    if a + 1 < |ram| then ram[a := Low(v)][a + 1 := High(v)] else ram
  }
}
