/** The RK05 transfer loops (rk05.cpp): 512-byte sectors, 12 to a track, 2 surfaces. */
module Rk05 {
  import opened Words
  import opened Bits
  import opened Division
  import opened DiskBackend
  import opened Hardware
  import opened Transfer

  const ERROR := 1
  const CS := 2
  const WC := 3
  const BA := 4
  const DA := 5

  const SECTOR: nat := 512

  /** The sector number a disk address register means. */
  function Linear(da: Word): nat {
    da / 0x10 % 0x200 * 12 + da % 0x10
  }

  /** The register for the `l`-th sector: sector, surface and cylinder digits. */
  function AddressOf(l: nat): Word {
    Wrap(l % 12 + l / 12 % 2 * 0x10 + l / 24 * 0x20)
  }

  function ByteCount(wc: Word): nat {
    Abs(Signed(wc)) * 2
  }

  /** The 18-bit bus address, its top bits in CS 5..4. */
  function BusAddress(registers: seq<Word>): (a: nat)
    requires |registers| == 7
    ensures a < 0x4_0000
  {
    registers[BA] as int + registers[CS] as int / 0x10 % 4 * 0x1_0000
  }

  /** What a driver asks for: `n` words as the negative count -n, at an 18-bit address `a` whose
      top bits it puts between the other bits of CS. A positive count asks for as much. */
  lemma RequestIs(registers: seq<Word>, n: nat, a: nat, high: nat, low: nat)
    requires |registers| == 7 && n <= 0x8000 && a < 0x4_0000 && high < 0x400 && low < 0x10
    requires registers[CS] == high * 0x40 + a / 0x1_0000 * 0x10 + low && registers[BA] == a % 0x1_0000
    ensures ByteCount((0x1_0000 - n) % 0x1_0000) == 2 * n && (n < 0x8000 ==> ByteCount(n) == 2 * n)
    ensures BusAddress(registers) == a
  {
    QuotientIs(registers[CS], 0x10, high * 4 + a / 0x1_0000, low);
    QuotientIs(high * 4 + a / 0x1_0000, 4, high, a / 0x1_0000);
  }

  /** `w | bit`. */
  function WithBit(w: Word, bit: int): Word
    requires bit == 0x20 || bit == 0x80
  {
    if (if bit == 0x20 then w / 0x20 % 2 == 1 else w / 0x80 % 2 == 1) then w else Wrap(w as int + bit)
  }

  /** The two error bits of CS, and one of ERROR. */
  function Failed(registers: seq<Word>, bit: int): seq<Word>
    requires |registers| == 7 && (bit == 0x20 || bit == 0x80)
  {
    registers[ERROR := WithBit(registers[ERROR], bit)][CS := registers[CS] as int % 0x4000 + 0xC000]
  }

  /** An error sets its bit of ERROR and the two top bits of CS, and nothing else. */
  lemma FailureShown(registers: seq<Word>, bit: int, i: nat)
    requires |registers| == 7 && (bit == 0x20 || bit == 0x80) && i < 16
    ensures var r := Failed(registers, bit);
            && BitOf(r[ERROR], i) == (i == (if bit == 0x20 then 5 else 7) || BitOf(registers[ERROR], i))
            && BitOf(r[CS], i) == (i == 14 || i == 15 || BitOf(registers[CS], i))
            && |r| == 7 && forall k :: 0 <= k < 7 && k != ERROR && k != CS ==> r[k] == registers[k]
  {
    hide BitOf, WithBit;
    OneBitSet(registers[ERROR], bit, i);
    TopBits(registers[CS], i);
  }

  lemma OneBitSet(w: Word, bit: int, i: nat)
    requires bit == 0x20 || bit == 0x80
    ensures BitOf(WithBit(w, bit), i) == (i == (if bit == 0x20 then 5 else 7) || BitOf(w, i))
  {
    assert Pow2(5) == 0x20 && Pow2(7) == 0x80;
    hide Pow2;
    if bit == 0x20 {
      if !BitOf(w, 5) {
        SetBit(w, 5, i);
        BitFits(w, bit);
      }
    } else if !BitOf(w, 7) {
      SetBit(w, 7, i);
      BitFits(w, bit);
    }
  }

  lemma BitFits(w: Word, bit: int)
    requires (bit == 0x20 && w / 0x20 % 2 == 0) || (bit == 0x80 && w / 0x80 % 2 == 0)
    ensures w + bit < 0x1_0000
  {
  }

  lemma TopBits(w: Word, i: nat)
    requires i < 16
    ensures BitOf(w % 0x4000 + 0xC000, i) == (i == 14 || i == 15 || BitOf(w, i))
  {
    assert Pow2(7) == 0x80;
    Pow2Sum(7, 7);
    assert Pow2(14) == 0x4000 && Pow2(15) == 0x8000;
    var low: nat := w % 0x4000;
    hide Pow2;
    if i < 14 {
      LowBit(w, 14, i);
    }
    TooHigh(low, 14);
    SetBit(low, 14, i);
    SetBit(low, 14, 15);
    SetBit(low + 0x4000, 15, i);
  }

  lemma TooHigh(x: nat, k: nat)
    requires x < Pow2(k)
    ensures !BitOf(x, k) && !BitOf(x, k + 1)
  {
    QuotientIs(x, Pow2(k), 0, x);
    QuotientIs(x, Pow2(k + 1), 0, x);
  }

  /** Only the bus address bits differ. */
  predicate SameButAddress(r: seq<Word>, s: seq<Word>)
    requires |r| == |s| == 7
  {
    s == r[BA := s[BA]][CS := s[CS]] && s[CS] / 0x40 == r[CS] / 0x40 && s[CS] % 0x10 == r[CS] % 0x10
  }

  /** The digits of the odometer and the number they stand for. */
  predicate Digits(cylinder: nat, surface: nat, sector: nat, l: nat) {
    surface < 2 && sector < 12 && l == (cylinder * 2 + surface) * 12 + sector
  }

  lemma DigitsDetermine(cylinder: nat, surface: nat, sector: nat, l: nat)
    requires Digits(cylinder, surface, sector, l)
    ensures AddressOf(l) == Wrap(sector + surface * 0x10 + cylinder * 0x20)
  {
    QuotientIs(l, 12, cylinder * 2 + surface, sector);
    QuotientIs(l, 24, cylinder, surface * 12 + sector);
    QuotientIs(cylinder * 2 + surface, 2, cylinder, surface);
  }

  /** Between register and sector number nothing is lost, for every sector of the 256
      cylinders a register can name on one drive. */
  lemma AddressRoundTrip(l: nat)
    requires l < 256 * 24
    ensures AddressOf(l) / 0x2000 == 0 && AddressOf(l) % 0x10 < 12 && Linear(AddressOf(l)) == l
  {
    hide AddressOf, Linear;
    SectorDigits(l);
    DigitsDetermine(l / 24, l / 12 % 2, l % 12, l);
    LinearOfDigits(l / 24, l / 12 % 2, l % 12);
  }

  lemma LinearOfDigits(cylinder: nat, surface: nat, sector: nat)
    requires cylinder < 256 && surface < 2 && sector < 12
    ensures var da := Wrap(sector + surface * 0x10 + cylinder * 0x20);
            da < 0x2000 && da % 0x10 == sector && Linear(da) == (cylinder * 2 + surface) * 12 + sector
  {
    var da := sector + surface * 0x10 + cylinder * 0x20;
    QuotientIs(da, 0x10, cylinder * 2 + surface, sector);
    QuotientIs(cylinder * 2 + surface, 0x200, 0, cylinder * 2 + surface);
  }

  lemma SectorDigits(l: nat)
    ensures l == (l / 24 * 2 + l / 12 % 2) * 12 + l % 12
  {
    QuotientIs(l / 12, 2, l / 24, l / 12 % 2);
  }

  lemma AddressOfLinear(da: Word)
    requires da < 0x2000 && da % 0x10 < 12
    ensures Linear(da) < 256 * 24 && AddressOf(Linear(da)) == da
  {
    hide Digits, AddressOf, Linear;
    StartDigits(da);
    DigitsDetermine(da / 0x20 % 0x100, da / 0x10 % 2, da % 0x10, Linear(da));
    QuotientIs(da / 0x20, 0x100, 0, da / 0x20);
    Packed(da);
    InRange(da);
  }

  lemma InRange(da: Word)
    requires da < 0x2000 && da % 0x10 < 12
    ensures Linear(da) < 256 * 24
  {
  }

  /** Where the odometer counts from: the increments treat a sector number past the end of
      its track as the last sector, while the image offset keeps counting from the number
      itself; the two agree for the sector numbers of a track. */
  function OdometerStart(da: Word): nat {
    da / 0x10 % 0x200 * 12 + Min(da % 0x10, 11)
  }

  /** The digits after `n` sectors from the register's position. */
  predicate Odometer(da: Word, n: nat, cylinder: nat, surface: nat, sector: nat) {
    if n == 0 then cylinder == da / 0x20 % 0x100 && surface == da / 0x10 % 2 && sector == da % 0x10
    else Digits(cylinder, surface, sector, OdometerStart(da) + n)
  }

  /** The register after `n` sectors. */
  function EndAddress(da: Word, n: nat): Word {
    if n == 0 then da % 0x2000 else AddressOf(OdometerStart(da) + n)
  }

  /** The digits below the device number. */
  lemma WithoutDevice(device: nat, low: nat)
    requires low < 0x2000
    ensures var da := low + device * 0x2000;
            da % 0x10 == low % 0x10 && da / 0x10 % 2 == low / 0x10 % 2 && da / 0x20 % 0x100 == low / 0x20
  {
    AddedMultiple(low, 0x10, device * 0x200);
    AddedMultiple(low / 0x10, 2, device * 0x100);
    AddedMultiple(low, 0x20, device * 0x100);
    AddedMultiple(low / 0x20, 0x100, device);
  }

  lemma Packed(low: nat)
    ensures low == low % 0x10 + low / 0x10 % 2 * 0x10 + low / 0x20 * 0x20
  {
    QuotientIs(low / 0x10, 2, low / 0x20, low / 0x10 % 2);
  }

  lemma OdometerEnds(da: Word, n: nat, cylinder: nat, surface: nat, sector: nat)
    requires Odometer(da, n, cylinder, surface, sector)
    ensures Wrap(sector + surface * 0x10 + cylinder * 0x20) == EndAddress(da, n)
  {
    hide AddressOf;
    if n == 0 {
      WithoutDevice(da / 0x2000, da % 0x2000);
      Packed(da % 0x2000);
    } else {
      DigitsDetermine(cylinder, surface, sector, OdometerStart(da) + n);
    }
  }

  /** For the sector numbers of a track the register ends at the sector after the last. */
  lemma LegalStart(da: Word, n: nat)
    requires da % 0x10 < 12
    ensures OdometerStart(da) == Linear(da) && (da < 0x2000 ==> EndAddress(da, n) == AddressOf(Linear(da) + n))
  {
    hide AddressOf, Linear, OdometerStart;
    LegalIsLinear(da);
    if da < 0x2000 {
      assert da % 0x2000 == da;
      AddressOfLinear(da);
    }
  }

  lemma LegalIsLinear(da: Word)
    requires da % 0x10 < 12
    ensures OdometerStart(da) == Linear(da)
  {
  }

  /** One round of the odometer, as both loops end it. */
  method NextSector(ghost da: Word, ghost n: nat, sector0: nat, surface0: nat, cylinder0: nat)
    returns (sector: nat, surface: nat, cylinder: nat)
    requires Odometer(da, n, cylinder0, surface0, sector0)
    ensures Odometer(da, n + 1, cylinder, surface, sector)
  {
    OdometerStep(da, n, cylinder0, surface0, sector0);
    sector, surface, cylinder := sector0 + 1, surface0, cylinder0;
    if sector >= 12 {
      sector := 0;
      surface := surface + 1;
      if surface >= 2 {
        surface, cylinder := 0, cylinder + 1;
      }
    }
  }

  lemma SectorsOf(n: nat)
    requires n % SECTOR == 0
    ensures n == n / SECTOR * SECTOR
  {
  }

  lemma AtStart(da: Word)
    ensures Odometer(da, 0, da / 0x20 % 0x100, da / 0x10 % 2, da % 0x10)
  {
  }

  lemma OdometerStep(da: Word, n: nat, cylinder: nat, surface: nat, sector: nat)
    requires Odometer(da, n, cylinder, surface, sector)
    ensures Digits(cylinder, surface, Min(sector, 11), OdometerStart(da) + n)
  {
    if n == 0 {
      CappedDigits(da);
    }
  }

  lemma CappedDigits(da: Word)
    ensures Digits(da / 0x20 % 0x100, da / 0x10 % 2, Min(da % 0x10, 11), OdometerStart(da))
  {
    var x := da / 0x10;
    assert da / 0x20 == x / 2;
    var c, s := x / 2 % 0x100, x % 2;
    QuotientIs(x, 0x200, x / 0x200, c * 2 + s);
  }

  lemma StartDigits(da: Word)
    requires da % 0x10 < 12
    ensures Digits(da / 0x20 % 0x100, da / 0x10 % 2, da % 0x10, Linear(da))
  {
    var x := da / 0x10;
    assert da / 0x20 == x / 2;
    var c, s := x / 2 % 0x100, x % 2;
    QuotientIs(x, 0x200, x / 0x200, c * 2 + s);
  }

  class Rk05 {
    const bus: BusUnit
    var registers: seq<Word>
    const xferBuffer: array<Byte>
    var fhs: seq<DiskBackendFile>

    predicate Valid()
      reads this, fhs
    {
      |registers| == 7 && xferBuffer.Length == SECTOR && xferBuffer != bus.ram
      && forall f :: f in fhs ==> Uniform(f.State(), SECTOR)
    }

    constructor (bus: BusUnit, fhs: seq<DiskBackendFile>)
      requires forall f :: f in fhs ==> Uniform(f.State(), SECTOR)
      ensures Valid() && this.bus == bus && this.fhs == fhs && registers == seq(7, i => 0)
    {
      this.bus, this.fhs := bus, fhs;
      registers := seq(7, i => 0);
      xferBuffer := new Byte[SECTOR];
      new;
    }

    method UpdateBusAddress(v: Word)
      requires |registers| == 7
      modifies this`registers
      ensures |registers| == 7 && SameButAddress(old(registers), registers)
      ensures BusAddress(registers) == (BusAddress(old(registers)) + v) % 0x4_0000
    {
      var a := BusAddress(registers) + v;
      var cs := registers[CS];
      AddressBits(cs, a);
      registers := registers[BA := Wrap(a)][CS := cs / 0x40 * 0x40 + a / 0x1_0000 % 4 * 0x10 + cs % 0x10];
    }

    /** The write loop from the position in `da`. */
    method WriteSectors(disk: DiskBackendFile, reclen: nat, memoff: nat, v: Word, da: Word)
      returns (sector: nat, surface: nat, cylinder: nat)
      requires Valid() && disk in fhs && reclen % SECTOR == 0
      modifies this`registers, xferBuffer, disk
      ensures Valid()
      ensures disk.State()
              == WriteDisk(old(disk.State()), Linear(da) * SECTOR, Slice(bus.ram[..], memoff, reclen), SECTOR)
      ensures Odometer(da, reclen / SECTOR, cylinder, surface, sector)
      ensures BusStepped(old(registers), registers, v, reclen)
    {
      hide WriteDisk, Slice, SectorAt, AllSectors, Odometer, BusStepped, Linear;
      sector, surface, cylinder := da % 0x10, da / 0x10 % 2, da / 0x20 % 0x100;
      ghost var start, was, moved: nat := Linear(da), disk.State(), 0;
      var workRecLen: nat, workMemOff: nat, workDiskOff: nat := reclen, memoff, Linear(da) * SECTOR;
      NothingYet(was, bus.ram[..], memoff, start, registers, v);
      AtStart(da);
      ghost var k: nat, n: nat := 0, reclen / SECTOR;
      SectorsOf(reclen);
      while workRecLen > 0
        invariant k <= n && moved == k * SECTOR && workRecLen == (n - k) * SECTOR
        invariant workMemOff == memoff + moved && workDiskOff == start * SECTOR + moved
        invariant Valid() && disk.State() == WriteDisk(was, start * SECTOR, Slice(bus.ram[..], memoff, moved), SECTOR)
        invariant Odometer(da, k, cylinder, surface, sector)
        invariant BusStepped(old(registers), registers, v, moved)
      {
        var cur := Min(xferBuffer.Length, workRecLen);
        workRecLen := workRecLen - cur;
        QuotientIs(moved, SECTOR, k, 0);
        SectorWritten(was, bus.ram[..], memoff, start * SECTOR, moved, SECTOR);
        var ok := WriteSector(bus, disk, xferBuffer, workDiskOff, workMemOff, SECTOR);
        workMemOff := workMemOff + cur;
        workDiskOff := workDiskOff + cur;
        ghost var before := registers;
        if v / 0x800 % 2 == 0 {
          UpdateBusAddress(cur);
        }
        WriteStep(old(registers), before, registers, v, moved, cur);
        sector, surface, cylinder := NextSector(da, k, sector, surface, cylinder);
        moved, k := moved + cur, k + 1;
      }
    }

    /** Function 1: memory to disk, for whole sectors. */
    method WriteData(v: Word) returns (done: bool)
      requires Valid() && ByteCount(registers[WC]) % SECTOR == 0
      modifies this`registers, xferBuffer
      modifies if registers[DA] / 0x2000 < |fhs| then {fhs[registers[DA] / 0x2000]} else {}
      ensures Valid() && done == (old(registers[DA]) / 0x2000 < |fhs|)
      ensures !done ==> registers == Failed(old(registers), 0x80)
      ensures done ==>
                var da, n, a := old(registers[DA]), ByteCount(old(registers[WC])), BusAddress(old(registers));
                var disk := fhs[da / 0x2000];
                && disk.State() == WriteDisk(old(disk.State()), Linear(da) * SECTOR, Slice(bus.ram[..], a, n), SECTOR)
                && registers[DA] == EndAddress(da, n / SECTOR)
                && SameButAddress(old(registers)[DA := registers[DA]], registers)
                && BusAddress(registers) == (if v / 0x800 % 2 == 1 then a else (a + n) % 0x4_0000)
    {
      hide WriteDisk, Slice, SectorAt, AllSectors, BusAddress, SameButAddress, Odometer, Linear, EndAddress, ByteCount;
      var da := registers[DA];
      done := da / 0x2000 < |fhs|;
      if !done {
        registers := Failed(registers, 0x80);
        return;
      }
      var reclen := ByteCount(registers[WC]);
      var sector, surface, cylinder := WriteSectors(fhs[da / 0x2000], reclen, BusAddress(registers), v, da);
      OdometerEnds(da, reclen / SECTOR, cylinder, surface, sector);
      OnlyDiskAddress(old(registers), registers, EndAddress(da, reclen / SECTOR));
      registers := registers[DA := Wrap(sector + surface * 0x10 + cylinder * 0x20)];
    }

    /** The read loop steps the bus address by two for every byte. */
    method UpdatePerByte(count: nat)
      requires |registers| == 7
      modifies this`registers
      ensures |registers| == 7 && SameButAddress(old(registers), registers)
      ensures BusAddress(registers) == (BusAddress(old(registers)) + 2 * count) % 0x4_0000
    {
      hide BusAddress, SameButAddress;
      SameButAddressReflexive(registers);
      for i := 0 to count
        invariant |registers| == 7 && SameButAddress(old(registers), registers)
        invariant BusAddress(registers) == (BusAddress(old(registers)) + 2 * i) % 0x4_0000
      {
        ghost var before := registers;
        UpdateBusAddress(2);
        SameButAddressTransitive(old(registers), before, registers);
        WrapTwice(BusAddress(old(registers)), 2 * i, 2);
      }
    }

    /** One round of the read loop: a sector into memory, or a failed read. */
    method ReadSector(disk: DiskBackendFile, offset: nat, p: nat, v: Word) returns (failed: bool)
      requires |registers| == 7 && xferBuffer.Length == SECTOR && xferBuffer != bus.ram
      requires Aligned(offset, SECTOR) && Uniform(disk.State(), SECTOR)
      modifies this`registers, xferBuffer, bus.ram
      ensures |registers| == 7 && SameButAddress(old(registers), registers)
      ensures BusAddress(registers) == if v / 0x800 % 2 == 1 || failed then BusAddress(old(registers))
                                       else (BusAddress(old(registers)) + 2 * SECTOR) % 0x4_0000
      ensures failed == SectorAt(disk.State(), offset, SECTOR).None?
      ensures !failed ==> |SectorAt(disk.State(), offset, SECTOR).value| == SECTOR
      ensures bus.ram[..] == if failed then old(bus.ram[..])
                             else Splice(old(bus.ram[..]), p, SectorAt(disk.State(), offset, SECTOR).value)
    {
      hide BusAddress, SameButAddress, SectorAt, Splice;
      SameButAddressReflexive(registers);
      SectorLength(disk.State(), offset, SECTOR);
      var ok := Transfer.ReadSector(bus, disk, xferBuffer, offset, p, SECTOR);
      failed := !ok;
      if ok && v / 0x800 % 2 == 0 {
        UpdatePerByte(SECTOR);
      }
    }

    /** The read loop from the position in `da`; `got` is what reached memory. */
    method ReadSectors(disk: DiskBackendFile, reclen: nat, memoff: nat, v: Word, da: Word)
      returns (sector: nat, surface: nat, cylinder: nat, failed: bool, ghost got: seq<Byte>)
      requires Valid() && disk in fhs && reclen % SECTOR == 0
      modifies this`registers, xferBuffer, bus.ram
      ensures Valid() && got == ReadRun(disk.State(), Linear(da) * SECTOR, reclen, SECTOR)
      ensures bus.ram[..] == Splice(old(bus.ram[..]), memoff, got)
      ensures failed == (|got| != reclen)
      ensures Odometer(da, |got| / SECTOR, cylinder, surface, sector)
      ensures BusStepped(old(registers), registers, v, 2 * |got|)
    {
      hide ReadRun, Splice, SectorAt, AllSectors, Odometer, ReadSoFar, BusStepped, Linear, SameButAddress, BusAddress;
      sector, surface, cylinder, failed, got := da % 0x10, da / 0x10 % 2, da / 0x20 % 0x100, false, [];
      var start := Linear(da);
      var tempDiskOff: nat, tempRecLen: nat, p: nat := start * SECTOR, reclen, memoff;
      NothingRead(disk.State(), start, reclen, bus.ram[..], memoff, registers, v);
      AtStart(da);
      ghost var k: nat, n: nat := 0, reclen / SECTOR;
      SectorsOf(reclen);
      while tempRecLen > 0 && !failed
        invariant tempDiskOff == start * SECTOR + |got| && p == memoff + |got|
        invariant k <= n && |got| == k * SECTOR && tempRecLen == (n - k) * SECTOR
        invariant Valid() && bus.ram[..] == Splice(old(bus.ram[..]), memoff, got)
        invariant ReadSoFar(disk.State(), start * SECTOR, reclen, got, tempRecLen, failed, SECTOR)
        invariant Odometer(da, k, cylinder, surface, sector)
        invariant BusStepped(old(registers), registers, v, 2 * |got|)
        decreases tempRecLen, !failed
      {
        RoundStarts(disk.State(), start * SECTOR, reclen, got, tempRecLen, SECTOR);
        ghost var before := registers;
        var cur := Min(xferBuffer.Length, tempRecLen);
        assert cur == SECTOR;
        failed := ReadSector(disk, tempDiskOff, p, v);
        BusStep(old(registers), before, registers, v, |got|, failed);
        if !failed {
          ghost var data := SectorAt(disk.State(), tempDiskOff, SECTOR).value;
          SpliceSplits(old(bus.ram[..]), memoff, got, data);
          sector, surface, cylinder := NextSector(da, k, sector, surface, cylinder);
          k := k + 1;
          tempDiskOff, p, tempRecLen := tempDiskOff + cur, p + cur, tempRecLen - cur;
          got := got + data;
        }
      }
      QuotientIs(|got|, SECTOR, k, 0);
      AllRead(disk.State(), start * SECTOR, reclen, got, tempRecLen, failed, SECTOR);
    }

    /** Function 2: disk to memory, up to the first sector that cannot be read. */
    method ReadData(v: Word) returns (done: bool)
      requires Valid() && ByteCount(registers[WC]) % SECTOR == 0
      modifies this`registers, xferBuffer, bus.ram
      ensures Valid() && done == (old(registers[DA]) / 0x2000 < |fhs|)
      ensures !done ==> registers == Failed(old(registers), 0x80) && bus.ram[..] == old(bus.ram[..])
      ensures done ==>
                var da, n, a := old(registers[DA]), ByteCount(old(registers[WC])), BusAddress(old(registers));
                var got := ReadRun(fhs[da / 0x2000].State(), Linear(da) * SECTOR, n, SECTOR);
                && bus.ram[..] == Splice(old(bus.ram[..]), a, got)
                && registers[DA] == EndAddress(da, |got| / SECTOR)
                && BusAddress(registers) == (if v / 0x800 % 2 == 1 then a else (a + 2 * |got|) % 0x4_0000)
                && (registers[ERROR] ==
                    if |got| == n then old(registers[ERROR]) else WithBit(old(registers[ERROR]), 0x20))
                && (registers[CS] / 0x4000 == if |got| == n then old(registers[CS]) / 0x4000 else 3)
    {
      hide ReadRun, Splice, SectorAt, AllSectors, Odometer, Linear, EndAddress, ByteCount, BusAddress, SameButAddress;
      var da := registers[DA];
      done := da / 0x2000 < |fhs|;
      if !done {
        registers := Failed(registers, 0x80);
        return;
      }
      var sector, surface, cylinder, failed, got :=
        ReadSectors(fhs[da / 0x2000], ByteCount(registers[WC]), BusAddress(registers), v, da);
      OdometerEnds(da, |got| / SECTOR, cylinder, surface, sector);
      FailedBits(old(registers), registers);
      KeptBits(old(registers), registers);
      if failed {
        registers := Failed(registers, 0x20);
      }
      SameButAddressReflexive(registers);
      OnlyDiskAddress(registers, registers, EndAddress(da, |got| / SECTOR));
      registers := registers[DA := Wrap(sector + surface * 0x10 + cylinder * 0x20)];
    }
  }

  /** The bus address has been stepped by `bytes` and nothing else has changed. */
  predicate BusStepped(was: seq<Word>, now: seq<Word>, v: Word, bytes: nat) {
    |was| == |now| == 7 && SameButAddress(was, now)
    && BusAddress(now) == if v / 0x800 % 2 == 1 then BusAddress(was) else (BusAddress(was) + bytes) % 0x4_0000
  }

  lemma WriteStep(was: seq<Word>, now: seq<Word>, next: seq<Word>, v: Word, moved: nat, cur: nat)
    requires BusStepped(was, now, v, moved) && |next| == 7
    requires if v / 0x800 % 2 == 1 then next == now
             else SameButAddress(now, next) && BusAddress(next) == (BusAddress(now) + cur) % 0x4_0000
    ensures BusStepped(was, next, v, moved + cur)
  {
    hide SameButAddress, BusAddress;
    if v / 0x800 % 2 == 0 {
      SameButAddressTransitive(was, now, next);
      WrapTwice(BusAddress(was), moved, cur);
    }
  }

  lemma BusStep(was: seq<Word>, now: seq<Word>, next: seq<Word>, v: Word, moved: nat, failed: bool)
    requires BusStepped(was, now, v, 2 * moved) && |next| == 7 && SameButAddress(now, next)
    requires BusAddress(next) == if v / 0x800 % 2 == 1 || failed then BusAddress(now)
                                 else (BusAddress(now) + 2 * SECTOR) % 0x4_0000
    ensures BusStepped(was, next, v, 2 * if failed then moved else moved + SECTOR)
  {
    hide SameButAddress, BusAddress;
    SameButAddressTransitive(was, now, next);
    WrapTwice(BusAddress(was), 2 * moved, 2 * SECTOR);
  }

  lemma NothingRead(d: Disk, start: nat, n: nat, ram: seq<Byte>, a: nat, registers: seq<Word>, v: Word)
    requires |registers| == 7 && n % SECTOR == 0
    ensures Splice(ram, a, []) == ram && BusStepped(registers, registers, v, 0)
            && ReadSoFar(d, start * SECTOR, n, [], n, false, SECTOR)
  {
    hide ReadSoFar, BusAddress;
    NothingSpliced(ram, a);
    StartOfRead(d, start * SECTOR, n, SECTOR);
    SameButAddressReflexive(registers);
    InEighteenBits(registers);
  }

  lemma InEighteenBits(registers: seq<Word>)
    requires |registers| == 7
    ensures (BusAddress(registers) + 0) % 0x4_0000 == BusAddress(registers)
  {
  }

  lemma SameButAddressReflexive(r: seq<Word>)
    requires |r| == 7
    ensures SameButAddress(r, r)
  {
  }

  lemma FailedBits(r: seq<Word>, s: seq<Word>)
    requires |r| == |s| == 7 && SameButAddress(r, s)
    ensures var f := Failed(s, 0x20);
            f[ERROR] == WithBit(r[ERROR], 0x20) && f[CS] / 0x4000 == 3 && BusAddress(f) == BusAddress(s)
  {
    hide WithBit, SameButAddress;
    ErrorBits(s[CS]);
    SameBits(r, s);
  }

  lemma SameBits(r: seq<Word>, s: seq<Word>)
    requires |r| == |s| == 7 && SameButAddress(r, s)
    ensures s[ERROR] == r[ERROR]
  {
  }

  lemma ErrorBits(cs: int)
    requires 0 <= cs < 0x1_0000
    ensures (cs % 0x4000 + 0xC000) / 0x10 % 4 == cs / 0x10 % 4 && (cs % 0x4000 + 0xC000) / 0x4000 == 3
  {
    var low := cs % 0x4000;
    QuotientIs(cs, 0x10, cs / 0x4000 * 0x400 + low / 0x10, low % 0x10);
    QuotientIs(low + 0xC000, 0x10, low / 0x10 + 0xC00, low % 0x10);
    QuotientIs(low + 0xC000, 0x4000, 3, low);
  }

  lemma KeptBits(r: seq<Word>, s: seq<Word>)
    requires |r| == |s| == 7 && SameButAddress(r, s)
    ensures s[ERROR] == r[ERROR] && s[CS] / 0x4000 == r[CS] / 0x4000
  {
    assert s[CS] as int / 0x4000 == s[CS] as int / 0x40 / 0x100 && r[CS] as int / 0x4000 == r[CS] as int / 0x40 / 0x100;
  }

  lemma AddressBits(cs: Word, a: nat)
    ensures var r := cs / 0x40 * 0x40 + a / 0x1_0000 % 4 * 0x10 + cs % 0x10;
            r < 0x1_0000 && r / 0x40 == cs / 0x40 && r % 0x10 == cs % 0x10 && r / 0x10 % 4 == a / 0x1_0000 % 4
    ensures a % 0x1_0000 + a / 0x1_0000 % 4 * 0x1_0000 == a % 0x4_0000
  {
    var t := a / 0x1_0000 % 4;
    var r := cs / 0x40 * 0x40 + t * 0x10 + cs % 0x10;
    QuotientIs(r, 0x40, cs / 0x40, t * 0x10 + cs % 0x10);
    QuotientIs(r, 0x10, cs / 0x40 * 4 + t, cs % 0x10);
    QuotientIs(cs / 0x40 * 4 + t, 4, cs / 0x40, t);
    QuotientIs(a, 0x4_0000, a / 0x1_0000 / 4, t * 0x1_0000 + a % 0x1_0000);
  }

  // --- One sector further ---

  lemma SameButAddressTransitive(r: seq<Word>, s: seq<Word>, t: seq<Word>)
    requires |r| == |s| == |t| == 7 && SameButAddress(r, s) && SameButAddress(s, t)
    ensures SameButAddress(r, t)
  {
    assert t == r[BA := t[BA]][CS := t[CS]];
  }

  lemma OnlyDiskAddress(r: seq<Word>, s: seq<Word>, da: Word)
    requires |r| == |s| == 7 && SameButAddress(r, s)
    ensures SameButAddress(r[DA := da], s[DA := da]) && BusAddress(s[DA := da]) == BusAddress(s)
  {
    assert s[DA := da] == r[DA := da][BA := s[BA]][CS := s[CS]];
  }

  lemma NothingYet(was: Disk, ram: seq<Byte>, a: nat, start: nat, registers: seq<Word>, v: Word)
    requires |registers| == 7
    ensures WriteDisk(was, start * SECTOR, Slice(ram, a, 0), SECTOR) == was && BusStepped(registers, registers, v, 0)
  {
    assert Slice(ram, a, 0) == [];
  }

  lemma WrapTwice(a: nat, moved: nat, cur: nat)
    ensures ((a + moved) % 0x4_0000 + cur) % 0x4_0000 == (a + moved + cur) % 0x4_0000
  {
    var q, r := (a + moved) / 0x4_0000, (a + moved) % 0x4_0000 + cur;
    QuotientIs(a + moved + cur, 0x4_0000, q + r / 0x4_0000, r % 0x4_0000);
  }
}
