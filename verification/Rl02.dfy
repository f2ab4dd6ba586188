/** The RL02 transfer loops (rl02.cpp): 256-byte sectors, 40 to a track, 2 heads, 512 tracks. */
module Rl02 {
  import opened Words
  import opened Division
  import opened DiskBackend
  import opened Hardware
  import opened Transfer

  const CSR := 0
  const BAR := 1
  const DAR := 2
  const MPR := 3

  const SECTORS_PER_TRACK: nat := 40
  const TRACK_COUNT: nat := 512
  const BYTES_PER_SECTOR: nat := 256

  /** `calc_offset`, for any position. */
  function Offset(track: nat, head: nat, sector: nat): (offset: nat)
    ensures offset % BYTES_PER_SECTOR == 0
  {
    (SECTORS_PER_TRACK * track * 2 + head * SECTORS_PER_TRACK + sector) * BYTES_PER_SECTOR
  }

  predicate OnDisk(track: nat, head: nat, sector: nat) {
    track < TRACK_COUNT && head < 2 && sector < SECTORS_PER_TRACK
  }

  /** Different positions, different sectors. */
  lemma OffsetInjective(t: nat, h: nat, s: nat, t': nat, h': nat, s': nat)
    requires h < 2 && h' < 2 && s < SECTORS_PER_TRACK && s' < SECTORS_PER_TRACK
    requires Offset(t, h, s) == Offset(t', h', s')
    ensures t == t' && h == h' && s == s'
  {
    QuotientIs(80 * t + 40 * h + s, 40, 2 * t + h, s);
    QuotientIs(80 * t' + 40 * h' + s', 40, 2 * t' + h', s');
    QuotientIs(2 * t + h, 2, t, h);
    QuotientIs(2 * t' + h', 2, t', h');
  }

  /** Every sector of the disk has a position, and every position is a sector of the disk. */
  lemma OffsetOnto(l: nat)
    requires l < TRACK_COUNT * 2 * SECTORS_PER_TRACK
    ensures OnDisk(l / 80, l / 40 % 2, l % 40) && Offset(l / 80, l / 40 % 2, l % 40) == l * BYTES_PER_SECTOR
  {
    QuotientIs(l / 40, 2, l / 80, l / 40 % 2);
  }

  lemma OffsetInRange(t: nat, h: nat, s: nat)
    requires OnDisk(t, h, s)
    ensures Offset(t, h, s) % BYTES_PER_SECTOR == 0
    ensures Offset(t, h, s) + BYTES_PER_SECTOR <= TRACK_COUNT * 2 * SECTORS_PER_TRACK * BYTES_PER_SECTOR
  {
  }

  /** The track, head and sector a disk address register names. */
  function Position(dar: Word): (nat, nat, nat) {
    (dar / 0x80, dar / 0x40 % 2, dar % 0x40)
  }

  /** Where the odometer counts from: the increments treat a sector number past the end of
      its track as the last sector, while the image offset keeps counting from the number
      itself; the two agree for every sector of the disk. */
  function OdometerStart(dar: Word): nat {
    var (track, head, sector) := Position(dar);
    Offset(track, head, Min(sector, SECTORS_PER_TRACK - 1))
  }

  /** The register for a position, as `read header` reports it. */
  function Header(track: nat, head: nat, sector: nat): Word {
    Wrap(sector % 0x40 + head * 0x40 + track * 0x80)
  }

  lemma HeaderRoundTrip(track: nat, head: nat, sector: nat)
    requires OnDisk(track, head, sector)
    ensures Position(Header(track, head, sector)) == (track, head, sector)
    ensures Header(track, head, sector) == track * 0x80 + head * 0x40 + sector
  {
    var dar := sector + head * 0x40 + track * 0x80;
    assert Header(track, head, sector) == dar;
    QuotientIs(dar, 0x40, track * 2 + head, sector);
    QuotientIs(dar, 0x80, track, head * 0x40 + sector);
    QuotientIs(track * 2 + head, 2, track, head);
  }

  function Count(mpr: Word): nat {
    if mpr == 0x8000 then 0 else (0x1_0000 - mpr) * 2
  }

  function BusAddress(registers: seq<Word>): (a: nat)
    requires |registers| == 4
    ensures a < 0x4_0000 && a % 2 == 0
  {
    (registers[BAR] as int + registers[CSR] as int / 0x10 % 4 * 0x1_0000) / 2 * 2
  }

  /** What a driver asks for: `n` words as the negative count -n, at an even 18-bit address `a`
      whose top bits it puts between the other bits of CSR. 32768 words move nothing. */
  lemma RequestIs(registers: seq<Word>, n: nat, a: nat, high: nat, low: nat)
    requires |registers| == 4 && 0 < n < 0x1_0000 && a < 0x4_0000 && a % 2 == 0 && high < 0x400 && low < 0x10
    requires registers[CSR] == high * 0x40 + a / 0x1_0000 * 0x10 + low && registers[BAR] == a % 0x1_0000
    ensures Count((0x1_0000 - n) % 0x1_0000) == (if n == 0x8000 then 0 else 2 * n) && BusAddress(registers) == a
  {
    QuotientIs(registers[CSR], 0x10, high * 4 + a / 0x1_0000, low);
    QuotientIs(high * 4 + a / 0x1_0000, 4, high, a / 0x1_0000);
  }

  class Rl02 {
    const bus: BusUnit
    var registers: seq<Word>
    const xferBuffer: array<Byte>
    var track: nat
    var head: nat
    var sector: nat
    var fhs: seq<DiskBackendFile>

    predicate Valid()
      reads this, fhs
    {
      |registers| == 4 && xferBuffer.Length == BYTES_PER_SECTOR && xferBuffer != bus.ram
      && forall f :: f in fhs ==> Uniform(f.State(), BYTES_PER_SECTOR)
    }

    constructor (bus: BusUnit, fhs: seq<DiskBackendFile>)
      requires forall f :: f in fhs ==> Uniform(f.State(), BYTES_PER_SECTOR)
      ensures Valid() && this.bus == bus && this.fhs == fhs && registers == [0, 0, 0, 0]
      ensures track == head == sector == 0
    {
      this.bus, this.fhs := bus, fhs;
      registers := [0, 0, 0, 0];
      track, head, sector := 0, 0, 0;
      xferBuffer := new Byte[BYTES_PER_SECTOR];
      new;
    }

    function CalcOffset(): nat
      reads this`track, this`head, this`sector
    {
      Offset(track, head, sector)
    }

    /** The odometer is on a sector, and `offset` is that sector's place in the image. */
    predicate InStep(offset: nat)
      reads this`track, this`head, this`sector
    {
      head < 2 && sector < SECTORS_PER_TRACK && CalcOffset() == offset
    }

    /** Where the odometer is after `moved` bytes from the position in `dar`. */
    predicate Moved(dar: Word, moved: nat)
      reads this`track, this`head, this`sector
    {
      if moved == 0 then (track, head, sector) == Position(dar) else InStep(OdometerStart(dar) + moved)
    }

    /** The increments at the end of both loops. */
    method NextSector(ghost dar: Word, ghost moved: nat)
      requires Moved(dar, moved)
      modifies this`track, this`head, this`sector
      ensures Moved(dar, moved + BYTES_PER_SECTOR)
    {
      sector := sector + 1;
      if sector >= SECTORS_PER_TRACK {
        sector := 0;
        head := head + 1;
        if head >= 2 {
          head := 0;
          track := track + 1;
        }
      }
    }

    lemma NotMoved(dar: Word)
      requires (track, head, sector) == Position(dar)
      ensures Moved(dar, 0) && CalcOffset() == Offset(Position(dar).0, Position(dar).1, Position(dar).2)
    {
    }

    method SetPosition(dar: Word)
      modifies this`track, this`head, this`sector
      ensures (track, head, sector) == Position(dar)
    {
      track, head, sector := dar / 0x80, dar / 0x40 % 2, dar % 0x40;
    }

    /** Command 5: memory to disk, for whole sectors. */
    method WriteData(device: nat)
      requires Valid() && device < |fhs|
      requires Count(registers[MPR]) % BYTES_PER_SECTOR == 0
      modifies this`track, this`head, this`sector, xferBuffer, fhs[device]
      ensures Valid()
      ensures var p, n := Position(registers[DAR]), Count(registers[MPR]);
              && fhs[device].State() == WriteDisk(old(fhs[device].State()), Offset(p.0, p.1, p.2),
                                                  Slice(bus.ram[..], BusAddress(registers), n), BYTES_PER_SECTOR)
              && Moved(registers[DAR], n)
    {
      hide WriteDisk, Slice, AllSectors, SectorAt, Offset, Count, BusAddress, Moved;
      var memoryAddress: nat, count: nat := BusAddress(registers), Count(registers[MPR]);
      SetPosition(registers[DAR]);
      NotMoved(registers[DAR]);
      var tempDiskOffset: nat := CalcOffset();
      ghost var was, offset, a, moved: nat := fhs[device].State(), tempDiskOffset, memoryAddress, 0;
      NothingWritten(was, bus.ram[..], a, offset, BYTES_PER_SECTOR);
      while count > 0
        invariant count + moved == Count(registers[MPR]) && count % BYTES_PER_SECTOR == 0
        invariant memoryAddress == a + moved && tempDiskOffset == offset + moved && Moved(registers[DAR], moved)
        invariant Valid()
        invariant fhs[device].State() == WriteDisk(was, offset, Slice(bus.ram[..], a, moved), BYTES_PER_SECTOR)
      {
        var cur := Min(xferBuffer.Length, count);
        SectorWritten(was, bus.ram[..], a, offset, moved, BYTES_PER_SECTOR);
        var ok := WriteSector(bus, fhs[device], xferBuffer, tempDiskOffset, memoryAddress, BYTES_PER_SECTOR);
        memoryAddress := memoryAddress + cur;
        NextSector(registers[DAR], moved);
        moved := moved + cur;
        tempDiskOffset := tempDiskOffset + cur;
        count := count - cur;
      }
    }

    /** Commands 6 and 7: disk to memory, up to the first sector that cannot be read; the
        odometer stops at the sector after the last one read. */
    method ReadData(device: nat)
      requires Valid() && device < |fhs|
      requires Count(registers[MPR]) % BYTES_PER_SECTOR == 0
      modifies this`track, this`head, this`sector, xferBuffer, bus.ram
      ensures Valid()
      ensures var p, n := Position(registers[DAR]), Count(registers[MPR]);
              var got := ReadRun(fhs[device].State(), Offset(p.0, p.1, p.2), n, BYTES_PER_SECTOR);
              && bus.ram[..] == Splice(old(bus.ram[..]), BusAddress(registers), got)
              && Moved(registers[DAR], |got|)
    {
      hide ReadRun, Splice, SectorAt, AllSectors, ReadSoFar, Offset, Count, BusAddress, Moved;
      var memoryAddress: nat, count: nat := BusAddress(registers), Count(registers[MPR]);
      SetPosition(registers[DAR]);
      NotMoved(registers[DAR]);
      var tempDiskOffset: nat := CalcOffset();
      ghost var d, offset, n, a := fhs[device].State(), tempDiskOffset, count, memoryAddress;
      ghost var got: seq<Byte>, failed := [], false;
      StartOfRead(d, offset, n, BYTES_PER_SECTOR);
      assert Splice(bus.ram[..], a, []) == bus.ram[..] by { NothingSpliced(bus.ram[..], a); }
      while count > 0
        invariant memoryAddress == a + |got| && tempDiskOffset == offset + |got| && Moved(registers[DAR], |got|)
        invariant Valid() && bus.ram[..] == Splice(old(bus.ram[..]), a, got)
        invariant ReadSoFar(d, offset, n, got, count, failed, BYTES_PER_SECTOR) && !failed
      {
        var cur := Min(xferBuffer.Length, count);
        ghost var now: seq<Byte>;
        var ok;
        ok, now := ReadRound(bus, fhs[device], xferBuffer, tempDiskOffset, memoryAddress, BYTES_PER_SECTOR,
                             old(bus.ram[..]), a, offset, n, got, count);
        if !ok {
          failed := true;
          break;
        }
        memoryAddress := memoryAddress + cur;
        NextSector(registers[DAR], |got|);
        got := now;
        tempDiskOffset := tempDiskOffset + cur;
        count := count - cur;
      }
      AllRead(d, offset, n, got, count, failed, BYTES_PER_SECTOR);
    }
  }
}
