/** Checked memory access (bus.cpp, memory.h): translation, bounds, odd-address check and the
    page access bits, on top of one flat little-endian byte array. An access that lands in
    the I/O page leaves the model: its outcome is `Device`. */
module Bus {
  import opened Words
  import opened Division
  import opened ProcessorStatus
  import opened Mmu

  datatype Width = WordWide | ByteWide

  type Ram = r: seq<Byte> | |r| % 2 == 0

  datatype BusState = BusState(mmu: MmuState, ram: Ram)

  /** An access aborts by a C++ exception; the state is the one at detection. */
  datatype Access<+T> =
    | Done(value: T, bus: BusState)
    | Abort(bus: BusState)
    | Device

  function RamWord(ram: Ram, offset: nat): Word
    requires offset % 2 == 0 && offset < |ram|
  {
    ram[offset] as int + ram[offset + 1] as int * 0x100
  }

  function StoreWord(ram: Ram, offset: nat, value: Word): (r: Ram)
    requires offset % 2 == 0 && offset < |ram|
    ensures |r| == |ram|
    ensures RamWord(r, offset) == value
    ensures forall i :: 0 <= i < |ram| && i != offset && i != offset + 1 ==> r[i] == ram[i]
  {
    ram[offset := Low(value)][offset + 1 := High(value)]
  }

  /** Where an access goes: the checks `read` and `write` share before they touch RAM. */
  datatype Target = Cell(offset: nat, page: nat) | Refused(bus: BusState) | IoPage

  function Locate(b: BusState, mode: Mode, address: Word, space: Space): (t: Target)
    ensures t.Cell? ==> t.offset < |b.ram| && t.page < PAGES
  {
    Place(b, Translate(b.mmu, mode, address, false, b.mmu.Effective(mode, space)))
  }

  function Place(b: BusState, translated: Translation): (t: Target)
    requires translated.Physical? ==> translated.page < PAGES
    ensures t.Cell? ==> t.offset < |b.ram| && t.page < PAGES
  {
    match translated
    case Fault(mmr0) => Refused(b.(mmu := b.mmu.(mmr0 := mmr0)))
    case Physical(offset, page) =>
      if offset >= b.mmu.IoBase() then IoPage
      else if offset >= |b.ram| then Refused(b.(mmu := b.mmu.(mmr0 := LockForBounds(b.mmu, page))))
      else Cell(offset, page)
  }

  function TouchPage(m: MmuState, page: nat, written: bool): MmuState
    requires page < PAGES
  {
    m.(pages := m.pages[page := if written then m.pages[page].Written() else m.pages[page].Accessed()])
  }

  function OddAddress(b: BusState, address: Word): BusState {
    b.(mmu := b.mmu.(mmr0 := MarkOdd(b.mmu.mmr0, address / 0x2000)))
  }

  function Read(b: BusState, mode: Mode, address: Word, width: Width, space: Space): Access<Word> {
    match Locate(b, mode, address, space)
    case Refused(b') => Abort(b')
    case IoPage => Device
    case Cell(offset, page) =>
      var touched := b.(mmu := TouchPage(b.mmu, page, false));
      if width == ByteWide then Done(b.ram[offset], touched)
      else if offset % 2 == 1 then Abort(OddAddress(touched, address))
      else Done(RamWord(b.ram, offset), touched)
  }

  /** `bus::write` asks for a read translation, so a read-only page does not refuse it. */
  function Write(b: BusState, mode: Mode, address: Word, width: Width, value: Word, space: Space): Access<()> {
    match Locate(b, mode, address, space)
    case Refused(b') => Abort(b')
    case IoPage => Device
    case Cell(offset, page) =>
      var touched := b.(mmu := TouchPage(b.mmu, page, true));
      if width == ByteWide then Done((), touched.(ram := b.ram[offset := Low(value)]))
      else if offset % 2 == 1 then Abort(OddAddress(touched, address))
      else Done((), touched.(ram := StoreWord(b.ram, offset, value)))
  }

  lemma TouchKeepsTranslation(m: MmuState, page: nat, written: bool)
    requires page < PAGES
    ensures SameTranslation(m, TouchPage(m, page, written))
  {
    AccessBitsKeepMapping(m.pages[page]);
  }

  /** A finished access leaves every later translation as it was. */
  lemma AccessKeepsTranslation(b: BusState, mode: Mode, address: Word, width: Width, value: Word, space: Space)
    ensures Read(b, mode, address, width, space).Done? ==>
            var after := Read(b, mode, address, width, space).bus;
            SameTranslation(b.mmu, after.mmu) && after.ram == b.ram && after.mmu.mmr1 == b.mmu.mmr1
            && after.mmu.mmr2 == b.mmu.mmr2
    ensures Write(b, mode, address, width, value, space).Done? ==>
            var after := Write(b, mode, address, width, value, space).bus;
            SameTranslation(b.mmu, after.mmu) && |after.ram| == |b.ram| && after.mmu.mmr1 == b.mmu.mmr1
            && after.mmu.mmr2 == b.mmu.mmr2
  {
    var t := Locate(b, mode, address, space);
    if t.Cell? {
      TouchKeepsTranslation(b.mmu, t.page, false);
      TouchKeepsTranslation(b.mmu, t.page, true);
    }
  }

  /** A read finds the same in states that agree in RAM and translate alike. */
  lemma ReadsStable(b: BusState, after: BusState, mode: Mode, address: Word, width: Width, space: Space)
    requires SameTranslation(b.mmu, after.mmu) && after.ram == b.ram
    ensures var r, now := Read(b, mode, address, width, space), Read(after, mode, address, width, space);
            (r.Done? <==> now.Done?) && (r.Done? ==> now.value == r.value)
  {
    TranslationStable(b.mmu, after.mmu, mode, address, false, b.mmu.Effective(mode, space));
    TranslationStable(b.mmu, after.mmu, mode, address, false, space);
  }

  /** A finished write is read back, as much of it as fits the width. */
  lemma WriteReadBack(b: BusState, mode: Mode, address: Word, width: Width, value: Word, space: Space)
    requires Write(b, mode, address, width, value, space).Done?
    ensures var r := Read(Write(b, mode, address, width, value, space).bus, mode, address, width, space);
            r.Done? && r.value == value % (if width == ByteWide then 0x100 else 0x1_0000)
  {
    hide Translate;
    var after := Write(b, mode, address, width, value, space).bus;
    AccessKeepsTranslation(b, mode, address, width, value, space);
    TranslationStable(b.mmu, after.mmu, mode, address, false, b.mmu.Effective(mode, space));
    TranslationStable(b.mmu, after.mmu, mode, address, false, space);
  }

  /** An access that aborts has not changed RAM, MMR1 or MMR2; unless the address was odd,
      it leaves MMR0 locked. */
  lemma AbortExactly(b: BusState, mode: Mode, address: Word, width: Width, value: Word, space: Space)
    ensures var r := Read(b, mode, address, width, space);
            r.Abort? ==> r.bus.ram == b.ram && r.bus.mmu.mmr1 == b.mmu.mmr1 && r.bus.mmu.mmr2 == b.mmu.mmr2
                         && (Locate(b, mode, address, space).Refused? ==> r.bus.mmu.Locked())
    ensures var w := Write(b, mode, address, width, value, space);
            w.Abort? ==> w.bus.ram == b.ram && w.bus.mmu.mmr1 == b.mmu.mmr1 && w.bus.mmu.mmr2 == b.mmu.mmr2
                         && (Locate(b, mode, address, space).Refused? ==> w.bus.mmu.Locked())
  {
  }

  /** A finished access marks the page it went through, as accessed or as written too, and no
      other page. */
  lemma AccessMarks(b: BusState, mode: Mode, address: Word, width: Width, value: Word, space: Space)
    requires b.mmu.Enabled()
    ensures var n := mode * 16 + (if b.mmu.Effective(mode, space) == DSpace then 8 else 0) + address / 0x2000;
            var r, w := Read(b, mode, address, width, space), Write(b, mode, address, width, value, space);
            && (r.Done? ==> r.bus.mmu == b.mmu.(pages := b.mmu.pages[n := b.mmu.pages[n].Accessed()]))
            && (w.Done? ==> w.bus.mmu == b.mmu.(pages := b.mmu.pages[n := b.mmu.pages[n].Written()]))
  {
    hide Page.Accessed, Page.Written;
  }

  /** What an unlocked MMR0 says when translation leads beyond RAM: bit 15, the mode and the page;
      bit 4 and bits 12..7 are as before. */
  lemma BoundsRecorded(m: MmuState, mode: Mode, space: Space, apf: nat)
    requires !m.Locked() && apf < 8
    ensures var r := LockForBounds(m, PageIndex(mode, space, apf));
            r / 0x2000 == 4 && r / 0x80 % 0x40 == m.mmr0 / 0x80 && r / 0x20 % 4 == mode
            && r / 0x10 % 2 == m.mmr0 / 0x10 % 2 && r / 2 % 8 == apf && r % 2 == m.mmr0 % 2
  {
    PageFields(mode, space, apf);
    hide PageIndex;
    var was: nat := m.mmr0;
    assert was / 0x80 < 0x40 && Retained(m.mmr0) == was / 0x80 * 0x80 + was % 2 by {
      assert was < 0x2000;
    }
    BoundsFields(m.mmr0 / 0x80, mode, m.mmr0 / 0x10 % 2, apf, m.mmr0 % 2);
  }

  lemma BoundsFields(kept: nat, mode: Mode, d: nat, apf: nat, on: nat)
    requires kept < 0x40 && d < 2 && apf < 8 && on < 2
    ensures var r := kept * 0x80 + on + 0x8000 + mode * 0x20 + d * 0x10 + apf * 2;
            r / 0x2000 == 4 && r / 0x80 % 0x40 == kept && r / 0x20 % 4 == mode
            && r / 0x10 % 2 == d && r / 2 % 8 == apf && r % 2 == on
  {
    TopFields(4, kept, mode, d);
    LowFields(((0x100 + kept) * 4 + mode) * 2 + d, apf, on);
  }

  /** What a word at an odd address leaves in MMR0: the page, and every other bit as it was. */
  lemma OddRecorded(b: BusState, address: Word)
    ensures var r := OddAddress(b, address).mmu.mmr0;
            r / 0x10 == b.mmu.mmr0 / 0x10 && r / 2 % 8 == address / 0x2000 && r % 2 == b.mmu.mmr0 % 2
  {
    var high, apf, on := b.mmu.mmr0 as int / 0x10, address / 0x2000, b.mmu.mmr0 as int % 2;
    var r := high * 0x10 + apf * 2 + on;
    QuotientIs(r, 0x10, high, apf * 2 + on);
    QuotientIs(r, 2, high * 8 + apf, on);
    QuotientIs(high * 8 + apf, 8, high, apf);
  }
}
