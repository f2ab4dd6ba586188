/** Memory management unit (mmu.h, mmu.cpp): page tables, the checked translation and the
    status registers MMR0..MMR3. `MmuState` is the value the class `Mmu` of Bus.dfy holds. */
module Mmu {
  import opened Words
  import opened Bits
  import opened Division
  import opened ProcessorStatus

  datatype Space = DSpace | ISpace

  /** One page: `par` in units of 64 bytes (the source keeps it shifted left by 6). */
  datatype Page = Page(par: Word, pdr: Word) {
    function AccessControl(): int { pdr % 8 }

    predicate GrowsDown() { pdr / 8 % 2 == 1 }

    /** The last accessible block when growing up, the first one when growing down. */
    function Limit(): int { pdr / 0x100 % 0x80 }

    /** pdr bit 7 is "accessed", bit 6 is "written to". */
    function Accessed(): Page {
      if pdr / 0x80 % 2 == 1 then this else this.(pdr := pdr + 0x80)
    }

    function Written(): Page {
      var p := Accessed();
      if p.pdr / 0x40 % 2 == 1 then p else p.(pdr := p.pdr + 0x40)
    }
  }

  datatype TrapAction = Proceed | Abort4 | Trap250

  const PAGES := 64

  type PageTable = p: seq<Page> | |p| == PAGES witness seq(PAGES, i => Page(0, 0))

  datatype MmuState = MmuState(pages: PageTable, mmr0: Word, mmr1: Word, mmr2: Word, mmr3: Word) {
    predicate Enabled() { mmr0 % 2 == 1 }

    /** Any of the three error bits 15..13; it freezes MMR0, MMR1 and MMR2. */
    predicate Locked() { mmr0 / 0x2000 != 0 }

    predicate Wide() { mmr3 / 0x10 % 2 == 1 }

    predicate UseDataSpace(mode: Mode) {
      match mode
      case 0 => mmr3 / 4 % 2 == 1
      case 1 => mmr3 / 2 % 2 == 1
      case 3 => mmr3 % 2 == 1
      case _ => false
    }

    /** The space an access really uses. */
    function Effective(mode: Mode, space: Space): Space {
      if UseDataSpace(mode) then space else ISpace
    }

    function IoBase(): nat {
      if !Enabled() then 0xE000 else if Wide() then 0x3F_E000 else 0x3_E000
    }
  }

  function PageIndex(mode: Mode, space: Space, apf: int): (p: nat)
    requires 0 <= apf < 8
    ensures p < PAGES
  {
    apf + (if space == DSpace then 8 else 0) + mode * 16
  }

  function GetTrapAction(access: int, isWrite: bool): TrapAction {
    match access
    case 1 => if isWrite then Abort4 else Trap250
    case 2 => if isWrite then Abort4 else Proceed
    case 4 => Trap250
    case 5 => if isWrite then Trap250 else Proceed
    case 6 => Proceed
    case _ => Abort4
  }

  /** Bits 12..7 and 0 survive every abort; the rest is rewritten. */
  function Retained(mmr0: Word): Word {
    mmr0 / 0x80 % 0x40 * 0x80 + mmr0 % 2
  }

  /** `verify_page_access`: bit 15 not resident, bit 13 read only, bits 3..1 the page. */
  function LockForAccess(m: MmuState, page: nat, isWrite: bool): Word
    requires page < PAGES
  {
    var access := m.pages[page].AccessControl();
    if m.Locked() then m.mmr0
    else
      var notResident := access == 0 || access == 4 || access == 3 || access == 7;
      var readOnly := (isWrite && access != 6) || access == 1 || access == 2;
      m.mmr0 / 0x80 % 0x20 * 0x80 + m.mmr0 % 2
      + (if notResident then 0x8000 else 0) + (if readOnly then 0x2000 else 0) + page % 8 * 2
  }

  /** `verify_page_length`: bit 14, the run mode, the space and the page. */
  function LockForLength(m: MmuState, page: nat): Word
    requires page < PAGES
  {
    if m.Locked() then m.mmr0
    else Retained(m.mmr0) + 0x4000 + page / 16 * 0x20 + page / 8 % 2 * 0x10 + page % 8 * 2
  }

  /** `verify_pointer_bounds`: bit 15, the run mode and the page; bit 4 is left alone. */
  function LockForBounds(m: MmuState, page: nat): Word
    requires page < PAGES
  {
    if m.Locked() then m.mmr0
    else Retained(m.mmr0) + 0x8000 + page / 16 * 0x20 + m.mmr0 / 0x10 % 2 * 0x10 + page % 8 * 2
  }

  /** `trap_if_odd`: only the page field of MMR0 changes. */
  function MarkOdd(mmr0: Word, apf: int): Word
    requires 0 <= apf < 8
  {
    mmr0 / 0x10 * 0x10 + apf * 2 + mmr0 % 2
  }

  /** Without bits 11 and 10. */
  function Cleaned(value: Word): Word {
    value / 0x1000 * 0x1000 + value % 0x400
  }

  /** A program's store to MMR0 (`setMMR0`): bits 11 and 10 read as zero, enabling clears the
      error bits, and while one of those is set a store that does not enable keeps only bits
      7..1. */
  function ProgramStore(mmr0: Word, value: Word): Word {
    var v := Cleaned(value);
    if v % 2 == 1 then v % 0x2000
    else if mmr0 / 0x2000 != 0 then v % 0x100
    else v
  }

  /** A locked MMR0 is unlocked by any store; an unlocked one becomes locked only by a store
      of error bits that does not enable memory management. */
  lemma StoreUnlocks(mmr0: Word, value: Word)
    ensures ProgramStore(mmr0, value) / 0x2000 != 0
            <==> value % 2 == 0 && mmr0 / 0x2000 == 0 && value / 0x2000 != 0
    ensures ProgramStore(mmr0, value) % 2 == value % 2
  {
    hide Cleaned;
    CleanedBits(value);
    LowPart(Cleaned(value), 0x1000);
    LowPart(Cleaned(value), 0x80);
  }

  lemma CleanedBits(value: Word)
    ensures Cleaned(value) / 0x2000 == value / 0x2000 && Cleaned(value) % 2 == value % 2
  {
    var top, middle, low := value / 0x1000, value / 0x400 % 4, value % 0x400;
    QuotientIs(value / 0x400, 4, top, middle);
    StoreBits(top, middle, low);
  }

  /** The bits of a word with and without bits 11 and 10. */
  lemma StoreBits(top: nat, middle: nat, low: nat)
    requires middle < 4 && low < 0x400
    ensures var value, v := top * 0x1000 + middle * 0x400 + low, top * 0x1000 + low;
            v / 0x2000 == value / 0x2000 && v % 2 == value % 2
  {
    var value, v := top * 0x1000 + middle * 0x400 + low, top * 0x1000 + low;
    QuotientIs(v, 0x2000, top / 2, top % 2 * 0x1000 + low);
    QuotientIs(value, 0x2000, top / 2, top % 2 * 0x1000 + middle * 0x400 + low);
    QuotientIs(v, 2, top * 0x800 + low / 2, low % 2);
    QuotientIs(value, 2, top * 0x800 + middle * 0x200 + low / 2, low % 2);
  }

  /** A remainder by an even number has the parity of the number. */
  lemma LowPart(v: nat, half: nat)
    requires 0 < half <= 0x1000
    ensures v % (2 * half) / 0x2000 == 0 && v % (2 * half) % 2 == v % 2
  {
    var q, r := v / (2 * half), v % (2 * half);
    QuotientIs(v, 2, q * half + r / 2, r % 2);
  }

  /** What a program stores in MMR0, bit by bit: 11 and 10 never, 15..13 not together with bit 0,
      and while an error is recorded only 7..0 of a value without bit 0. */
  lemma StoredBits(mmr0: Word, value: Word, i: nat)
    requires i < 16
    ensures BitOf(ProgramStore(mmr0, value), i) ==
            (BitOf(value, i) && i != 11 && i != 10
             && if value % 2 == 1 then i < 13 else mmr0 / 0x2000 != 0 ==> i < 8)
  {
    hide BitOf, Cleaned;
    Powers();
    CleanedBits(value);
    LowPart(Cleaned(value), 0x1000);
    hide Pow2;
    CleanedBit(value, i);
    LowOrNone(Cleaned(value), 13, i);
    LowOrNone(Cleaned(value), 8, i);
  }

  lemma Powers()
    ensures Pow2(2) == 4 && Pow2(8) == 0x100 && Pow2(10) == 0x400 && Pow2(13) == 0x2000
  {
    assert Pow2(5) == 0x20 && Pow2(8) == 0x100;
    Pow2Sum(5, 5);
    Pow2Sum(8, 5);
  }

  lemma CleanedBit(value: Word, i: nat)
    ensures BitOf(Cleaned(value), i) == (BitOf(value, i) && i != 11 && i != 10)
  {
    var top, middle, low: nat := value / 0x1000, value / 0x400 % 4, value % 0x400;
    QuotientIs(value / 0x400, 4, top, middle);
    QuotientIs(value, 0x400, top * 4 + middle, low);
    Powers();
    hide Pow2, BitOf;
    FieldReplaced(top * 4 + middle, top * 4, top, middle, 0, 2, low, 10, i);
    if 10 <= i < 12 {
      NoBit(i - 10);
    }
  }

  datatype Translation =
    | Physical(offset: nat, page: nat)
    | Fault(mmr0: Word)

  function Relocated(par: Word, address: Word): nat {
    par * 0x40 + address % 0x2000
  }

  predicate WithinLength(p: Page, address: Word) {
    var block := address / 0x40 % 0x80;
    if p.GrowsDown() then block >= p.Limit() else block <= p.Limit()
  }

  /** The four-argument `calculate_physical_address`. */
  function Translate(m: MmuState, mode: Mode, address: Word, isWrite: bool, space: Space): (t: Translation)
    ensures t.Physical? ==> t.page < PAGES
  {
    var apf := address / 0x2000;
    if m.Enabled() || (isWrite && m.mmr0 / 0x100 % 2 == 1) then
      var page := PageIndex(mode, space, apf);
      var raw := Relocated(m.pages[page].par, address);
      var offset := if m.Wide() then raw else raw % 0x4_0000;
      if GetTrapAction(m.pages[page].AccessControl(), isWrite) != Proceed then
        Fault(LockForAccess(m, page, isWrite))
      else if !WithinLength(m.pages[page], address) then
        Fault(LockForLength(m, page))
      else
        Physical(offset, page)
    else
      Physical(address, apf)
  }

  /** The page an access goes through: 16 for a mode, the data pages after the instruction pages. */
  function PageOf(m: MmuState, mode: Mode, address: Word, space: Space): Page {
    m.pages[mode * 16 + (if space == DSpace then 8 else 0) + address / 0x2000]
  }

  /** A page descriptor allows an access, told from its bits: 2..0 what may be done, 3 the
      direction of growth, 14..8 the last block when growing up and the first when growing down. */
  predicate Allows(pdr: Word, isWrite: bool) {
    pdr % 8 == 6 || (!isWrite && (pdr % 8 == 2 || pdr % 8 == 5))
  }

  predicate Reaches(pdr: Word, block: int) {
    if pdr / 8 % 2 == 1 then pdr / 0x100 % 0x80 <= block else block <= pdr / 0x100 % 0x80
  }

  /** A translation aborts exactly when the page forbids the access or the 64-byte block lies
      outside its length, and whichever check fails leaves MMR0 locked; otherwise it yields the
      block counted from the page's start in units of 64 bytes, in 18 or 22 bits. */
  lemma FaultExactly(m: MmuState, mode: Mode, address: Word, isWrite: bool, space: Space)
    requires m.mmr0 % 2 == 1
    ensures var page, block := PageOf(m, mode, address, space), address / 0x40 % 0x80;
            match Translate(m, mode, address, isWrite, space)
            case Fault(mmr0) => !(Allows(page.pdr, isWrite) && Reaches(page.pdr, block)) && mmr0 / 0x2000 != 0
            case Physical(offset, n) =>
              && Allows(page.pdr, isWrite) && Reaches(page.pdr, block) && m.pages[n] == page
              && var wide := (page.par + block) * 0x40 + address % 0x40;
                 offset == if m.mmr3 / 0x10 % 2 == 1 then wide else wide % 0x4_0000
  {
    hide Relocated, LockForAccess, LockForLength;
    SplitAddress(PageOf(m, mode, address, space).par, address);
    FaultLocks(m, PageIndex(mode, space, address / 0x2000), isWrite);
  }

  lemma SplitAddress(par: Word, address: Word)
    ensures Relocated(par, address) == (par + address / 0x40 % 0x80) * 0x40 + address % 0x40
  {
    QuotientIs(address, 0x2000, address / 0x40 / 0x80, address as int / 0x40 % 0x80 * 0x40 + address as int % 0x40);
  }

  lemma FaultLocks(m: MmuState, page: nat, isWrite: bool)
    requires page < PAGES
    ensures LockForLength(m, page) / 0x2000 != 0
    ensures GetTrapAction(m.pages[page].AccessControl(), isWrite) != Proceed ==>
              LockForAccess(m, page, isWrite) / 0x2000 != 0
  {
  }

  /** MMR0 put together from its fields. */
  function Record(top: nat, kept: nat, mode: Mode, space: Space, apf: nat): nat {
    top * 0x2000 + kept * 0x80 + mode * 0x20 + (if space == DSpace then 0x10 else 0) + apf * 2 + 1
  }

  /** The page and bit 0 below the other fields. */
  lemma LowFields(x: nat, apf: nat, on: nat)
    requires apf < 8 && on < 2
    ensures var r := x * 0x10 + apf * 2 + on;
            r / 0x10 == x && r / 2 % 8 == apf && r % 2 == on
            && r / 0x20 == x / 2 && r / 0x80 == x / 8 && r / 0x2000 == x / 0x200
  {
    var r, low := x * 0x10 + apf * 2 + on, apf * 2 + on;
    QuotientIs(r, 0x10, x, low);
    QuotientIs(r, 2, x * 8 + apf, on);
    QuotientIs(x * 8 + apf, 8, x, apf);
    QuotientIs(r, 0x20, x / 2, x % 2 * 0x10 + low);
    QuotientIs(r, 0x80, x / 8, x % 8 * 0x10 + low);
    QuotientIs(r, 0x2000, x / 0x200, x % 0x200 * 0x10 + low);
  }

  lemma TopFields(top: nat, kept: nat, mode: Mode, d: nat)
    requires kept < 0x40 && d < 2
    ensures var x := ((top * 0x40 + kept) * 4 + mode) * 2 + d;
            x % 2 == d && x / 2 % 4 == mode && x / 8 % 0x40 == kept && x / 0x200 == top
  {
    var y := top * 0x40 + kept;
    var x := (y * 4 + mode) * 2 + d;
    QuotientIs(x, 2, y * 4 + mode, d);
    QuotientIs(y * 4 + mode, 4, y, mode);
    QuotientIs(x, 8, y, mode * 2 + d);
    QuotientIs(y, 0x40, top, kept);
    QuotientIs(x, 0x200, top, kept * 8 + mode * 2 + d);
  }

  lemma RecordFields(top: nat, kept: nat, mode: Mode, space: Space, apf: nat)
    requires kept < 0x40 && apf < 8
    ensures var r := Record(top, kept, mode, space, apf);
            r / 0x2000 == top && r / 0x80 % 0x40 == kept && r / 0x20 % 4 == mode && r / 2 % 8 == apf && r % 2 == 1
            && (r / 0x10 % 2 == 1 <==> space == DSpace) && (mode == 0 && space == ISpace ==> r / 0x10 % 8 == 0)
  {
    var d := if space == DSpace then 1 else 0;
    var x := ((top * 0x40 + kept) * 4 + mode) * 2 + d;
    assert Record(top, kept, mode, space, apf) == x * 0x10 + apf * 2 + 1;
    TopFields(top, kept, mode, d);
    LowFields(x, apf, 1);
    if mode == 0 && d == 0 {
      QuotientIs(x, 8, top * 0x40 + kept, 0);
    }
  }

  /** What an unlocked MMR0 says after a fault: bits 15 and 13 of a page that forbids the access
      whether it is not resident and whether it is read only, bit 14 alone a length error; then
      the page, and for a length error the mode and the space. Bits 11..7 are as before. */
  lemma FaultRecords(m: MmuState, mode: Mode, address: Word, isWrite: bool, space: Space)
    requires m.mmr0 % 2 == 1 && m.mmr0 / 0x2000 == 0
    ensures var access := PageOf(m, mode, address, space).pdr % 8;
            match Translate(m, mode, address, isWrite, space)
            case Fault(r) =>
              r / 0x80 % 0x20 == m.mmr0 / 0x80 % 0x20 && r / 2 % 8 == address / 0x2000 && r % 2 == 1
              && (if Allows(PageOf(m, mode, address, space).pdr, isWrite)
                  then r / 0x2000 == 2 && r / 0x20 % 4 == mode && (r / 0x10 % 2 == 1 <==> space == DSpace)
                  else r / 0x2000 == (if access in {0, 3, 4, 7} then 4 else 0)
                                     + (if isWrite || access in {1, 2} then 1 else 0)
                       && r / 0x10 % 8 == 0)
            case Physical(_, _) => true
  {
    hide Relocated, LockForLength, LockForAccess;
    AccessRecords(m, mode, space, address / 0x2000, isWrite);
    LengthRecords(m, mode, space, address / 0x2000);
  }

  lemma AccessRecords(m: MmuState, mode: Mode, space: Space, apf: nat, isWrite: bool)
    requires m.mmr0 % 2 == 1 && m.mmr0 / 0x2000 == 0 && apf < 8
    ensures var page := PageIndex(mode, space, apf);
            var access, r := m.pages[page].AccessControl(), LockForAccess(m, page, isWrite);
            GetTrapAction(access, isWrite) != Proceed ==>
              r / 0x80 % 0x20 == m.mmr0 / 0x80 % 0x20 && r / 2 % 8 == apf && r % 2 == 1 && r / 0x10 % 8 == 0
              && r / 0x2000 ==
                 (if access in {0, 3, 4, 7} then 4 else 0) + (if isWrite || access in {1, 2} then 1 else 0)
  {
    hide Record, LockForAccess, LockForLength;
    LockFields(m, mode, space, apf, isWrite);
    var access := m.pages[PageIndex(mode, space, apf)].AccessControl();
    var top := (if access in {0, 3, 4, 7} then 4 else 0) + (if isWrite || access in {1, 2} then 1 else 0);
    RecordFields(top, m.mmr0 / 0x80 % 0x20, 0, ISpace, apf);
    NestedRemainder(LockForAccess(m, PageIndex(mode, space, apf), isWrite) / 0x80);
  }

  lemma LengthRecords(m: MmuState, mode: Mode, space: Space, apf: nat)
    requires m.mmr0 % 2 == 1 && m.mmr0 / 0x2000 == 0 && apf < 8
    ensures var r := LockForLength(m, PageIndex(mode, space, apf));
            r / 0x80 % 0x20 == m.mmr0 / 0x80 % 0x20 && r / 2 % 8 == apf && r % 2 == 1 && r / 0x2000 == 2
            && r / 0x20 % 4 == mode && (r / 0x10 % 2 == 1 <==> space == DSpace)
  {
    hide Record, LockForAccess, LockForLength;
    LockFields(m, mode, space, apf, false);
    var r := LockForLength(m, PageIndex(mode, space, apf));
    RecordFields(2, m.mmr0 / 0x80 % 0x40, mode, space, apf);
    NestedRemainder(m.mmr0 / 0x80);
    NestedRemainder(r / 0x80);
  }

  lemma NestedRemainder(x: nat)
    ensures x % 0x40 % 0x20 == x % 0x20
  {
    QuotientIs(x, 0x20, x / 0x40 * 2 + x % 0x40 / 0x20, x % 0x40 % 0x20);
  }

  lemma PageFields(mode: Mode, space: Space, apf: nat)
    requires apf < 8
    ensures var page := PageIndex(mode, space, apf);
            page / 16 == mode && page / 8 % 2 == (if space == DSpace then 1 else 0) && page % 8 == apf
  {
  }

  lemma LockFields(m: MmuState, mode: Mode, space: Space, apf: nat, isWrite: bool)
    requires m.mmr0 % 2 == 1 && m.mmr0 / 0x2000 == 0 && apf < 8
    ensures var page := PageIndex(mode, space, apf);
            var access := m.pages[page].AccessControl();
            LockForLength(m, page) == Record(2, m.mmr0 / 0x80 % 0x40, mode, space, apf)
            && (GetTrapAction(access, isWrite) != Proceed ==>
                  LockForAccess(m, page, isWrite) ==
                  Record((if access in {0, 3, 4, 7} then 4 else 0) + (if isWrite || access in {1, 2} then 1 else 0),
                         m.mmr0 / 0x80 % 0x20, 0, ISpace, apf))
  {
    PageFields(mode, space, apf);
  }

  /** What `Accessed` and `Written` leave alone, which is all a translation looks at. */
  predicate SameMapping(p: Page, q: Page) {
    p.par == q.par && p.AccessControl() == q.AccessControl() && p.GrowsDown() == q.GrowsDown() && p.Limit() == q.Limit()
  }

  lemma AccessBitsKeepMapping(p: Page)
    ensures SameMapping(p, p.Accessed()) && SameMapping(p, p.Written())
  {
    if p.pdr / 0x80 % 2 == 0 {
      SetAccessedBit(p.pdr);
    }
    var q := p.Accessed();
    if q.pdr / 0x40 % 2 == 0 {
      SetWrittenBit(q.pdr);
    }
  }

  lemma SetAccessedBit(pdr: Word)
    requires pdr / 0x80 % 2 == 0
    ensures pdr + 0x80 < 0x1_0000 && (pdr + 0x80) / 0x100 == pdr / 0x100
    ensures (pdr + 0x80) / 8 % 2 == pdr / 8 % 2 && (pdr + 0x80) % 8 == pdr % 8
  {
    AccessedBit(pdr);
    NoCarry(pdr, 0x100, 0x80);
    LowBits(pdr, 8);
  }

  lemma AccessedBit(p: nat)
    requires p / 0x80 % 2 == 0
    ensures p % 0x100 < 0x80
  {
    QuotientIs(p, 0x100, p / 0x80 / 2, p % 0x80);
  }

  lemma SetWrittenBit(pdr: Word)
    requires pdr / 0x40 % 2 == 0
    ensures pdr + 0x40 < 0x1_0000 && (pdr + 0x40) / 0x100 == pdr / 0x100
    ensures (pdr + 0x40) / 8 % 2 == pdr / 8 % 2 && (pdr + 0x40) % 8 == pdr % 8
  {
    BlockBits(pdr);
    NoCarry(pdr, 0x100, 0x40);
    LowBits(pdr, 4);
  }

  lemma BlockBits(p: nat)
    requires p / 0x40 % 2 == 0
    ensures p % 0x100 < 0xC0
  {
    var q := p / 0x40 % 4;
    QuotientIs(p, 0x100, p / 0x40 / 4, q * 0x40 + p % 0x40);
  }

  /** Adding a multiple of 16 leaves the four low bits. */
  lemma LowBits(p: nat, k: nat)
    ensures (p + k * 0x10) / 8 % 2 == p / 8 % 2 && (p + k * 0x10) % 8 == p % 8
  {
    AddedMultiple(p, 8, 2 * k);
    AddedMultiple(p / 8, 2, k);
  }

  /** An access sets bit 7 of the descriptor, a store bits 7 and 6, and neither any other. */
  lemma AccessBits(p: Page, i: nat)
    ensures BitOf(p.Accessed().pdr, i) == (i == 7 || BitOf(p.pdr, i))
    ensures BitOf(p.Written().pdr, i) == (i == 7 || i == 6 || BitOf(p.pdr, i))
  {
    assert Pow2(6) == 0x40 && Pow2(7) == 0x80;
    hide Pow2;
    var q := p.Accessed();
    if !BitOf(p.pdr, 7) {
      SetBit(p.pdr, 7, i);
      SetBit(p.pdr, 7, 6);
    }
    if !BitOf(q.pdr, 6) {
      SetBit(q.pdr, 6, i);
    }
  }

  /** Two states that differ at most in access bits, MMR1 and MMR2. */
  predicate SameTranslation(m: MmuState, n: MmuState) {
    m.mmr0 == n.mmr0 && m.mmr3 == n.mmr3 && forall i :: 0 <= i < PAGES ==> SameMapping(m.pages[i], n.pages[i])
  }

  lemma SameTranslationTransitive(m: MmuState, n: MmuState, o: MmuState)
    requires SameTranslation(m, n) && SameTranslation(n, o)
    ensures SameTranslation(m, o)
  {
    forall i | 0 <= i < PAGES ensures SameMapping(m.pages[i], o.pages[i]) {
      assert SameMapping(m.pages[i], n.pages[i]) && SameMapping(n.pages[i], o.pages[i]);
    }
  }

  lemma TranslationStable(m: MmuState, n: MmuState, mode: Mode, address: Word, isWrite: bool, space: Space)
    requires SameTranslation(m, n)
    ensures Translate(m, mode, address, isWrite, space) == Translate(n, mode, address, isWrite, space)
    ensures m.Effective(mode, space) == n.Effective(mode, space) && m.IoBase() == n.IoBase()
  {
    var page := PageIndex(mode, space, address / 0x2000);
    assert SameMapping(m.pages[page], n.pages[page]);
  }
}
