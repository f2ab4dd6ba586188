/** The RP06 and RP07 transfer loop (rp06.cpp): 512-byte sectors, two geometries. */
module Rp06 {
  import opened Words
  import opened Bits
  import opened Division
  import opened DiskBackend
  import opened Hardware
  import opened Transfer

  const CS1 := 0
  const WC := 1
  const UBA := 2
  const DA := 3
  const DC := 14
  const BAE := 20

  const SECTOR_SIZE: nat := 512

  /** Sectors per track and tracks per cylinder. */
  datatype Geometry = Geometry(sectors: nat, tracks: nat)

  const RP06 := Geometry(22, 19)
  const RP07 := Geometry(50, 32)

  type Registers = r: seq<Word> | |r| == 32 witness seq(32, i => 0)

  /** `compute_offset`: cylinder, track and sector to a 32-bit byte offset. */
  function Offset(g: Geometry, cn: nat, tn: nat, sn: nat): (offset: nat)
    ensures offset % SECTOR_SIZE == 0
  {
    (cn * g.sectors * g.tracks + tn * g.sectors + sn) * SECTOR_SIZE % 0x1_0000_0000
  }

  function StartOffset(g: Geometry, registers: Registers): (offset: nat)
    ensures offset % SECTOR_SIZE == 0
  {
    Offset(g, registers[DC], High(registers[DA]), Low(registers[DA]))
  }

  predicate Legal(g: Geometry, cn: nat, tn: nat, sn: nat) {
    tn < g.tracks && sn < g.sectors && cn * g.sectors * g.tracks + tn * g.sectors + sn < 0x80_0000
  }

  /** Different legal addresses are different sectors. */
  lemma OffsetInjective(g: Geometry, c: nat, t: nat, s: nat, c': nat, t': nat, s': nat)
    requires g == RP06 || g == RP07
    requires Legal(g, c, t, s) && Legal(g, c', t', s') && Offset(g, c, t, s) == Offset(g, c', t', s')
    ensures c == c' && t == t' && s == s'
  {
    Digits(g, c, t, s);
    Digits(g, c', t', s');
  }

  lemma Digits(g: Geometry, c: nat, t: nat, s: nat)
    requires (g == RP06 || g == RP07) && Legal(g, c, t, s)
    ensures var l := c * g.sectors * g.tracks + t * g.sectors + s;
            Offset(g, c, t, s) == l * SECTOR_SIZE && l % g.sectors == s && l / g.sectors % g.tracks == t
            && l / g.sectors / g.tracks == c
  {
    if g == RP06 {
      Digits06(c, t, s);
    } else {
      Digits07(c, t, s);
    }
  }

  lemma Digits06(c: nat, t: nat, s: nat)
    requires Legal(RP06, c, t, s)
    ensures var l := c * 22 * 19 + t * 22 + s;
            Offset(RP06, c, t, s) == l * SECTOR_SIZE && l % 22 == s && l / 22 % 19 == t && l / 22 / 19 == c
  {
    QuotientIs(c * 22 * 19 + t * 22 + s, 22, c * 19 + t, s);
    QuotientIs(c * 19 + t, 19, c, t);
  }

  lemma Digits07(c: nat, t: nat, s: nat)
    requires Legal(RP07, c, t, s)
    ensures var l := c * 50 * 32 + t * 50 + s;
            Offset(RP07, c, t, s) == l * SECTOR_SIZE && l % 50 == s && l / 50 % 32 == t && l / 50 / 32 == c
  {
    QuotientIs(c * 50 * 32 + t * 50 + s, 50, c * 32 + t, s);
    QuotientIs(c * 32 + t, 32, c, t);
  }

  /** Every sector below the 32-bit limit has a legal address, which fits the registers. */
  lemma OffsetOnto(g: Geometry, l: nat)
    requires (g == RP06 || g == RP07) && l < 0x80_0000
    ensures var c, t, s := l / g.sectors / g.tracks, l / g.sectors % g.tracks, l % g.sectors;
            c < 0x1_0000 && t < 0x100 && s < 0x100 && Legal(g, c, t, s) && Offset(g, c, t, s) == l * SECTOR_SIZE
  {
    if g == RP06 {
      Onto06(l);
    } else {
      Onto07(l);
    }
  }

  lemma Onto06(l: nat)
    requires l < 0x80_0000
    ensures var c, t, s := l / 22 / 19, l / 22 % 19, l % 22;
            c < 0x1_0000 && Legal(RP06, c, t, s) && Offset(RP06, c, t, s) == l * SECTOR_SIZE
  {
    assert l / 22 / 19 * 22 * 19 + l / 22 % 19 * 22 + l % 22 == l;
  }

  lemma Onto07(l: nat)
    requires l < 0x80_0000
    ensures var c, t, s := l / 50 / 32, l / 50 % 32, l % 50;
            c < 0x1_0000 && Legal(RP07, c, t, s) && Offset(RP07, c, t, s) == l * SECTOR_SIZE
  {
    assert l / 50 / 32 * 50 * 32 + l / 50 % 32 * 50 + l % 50 == l;
  }

  /** `getphysaddr`: 18 bits from CS1, or 22 bits when the extension register is not zero. */
  function PhysicalAddress(registers: Registers): (a: nat)
    ensures a < 0x40_0000 && a % 0x1_0000 == registers[UBA]
    ensures a / 0x1_0000 == if registers[BAE] != 0 then registers[BAE] % 0x40 else registers[CS1] / 0x100 % 4
  {
    var low: int, high: int, extension: int := registers[UBA], registers[CS1] / 0x100, registers[BAE];
    if extension != 0 then low + extension % 0x40 * 0x1_0000
    else low + high % 2 * 0x1_0000 + high / 2 % 2 * 0x2_0000
  }

  function ByteCount(registers: Registers): nat {
    (0x1_0000 - registers[WC] as int) * 2
  }

  /** The bytes a transfer is about: none when the end lies beyond 32 bits, as the end offset
      then wraps to before the start. */
  function TransferCount(g: Geometry, registers: Registers): nat {
    if StartOffset(g, registers) + ByteCount(registers) < 0x1_0000_0000 then ByteCount(registers) else 0
  }

  /** What a driver asks for: `n` words as the negative count -n, from cylinder, track and
      sector; a count of zero asks for 65536 words. */
  lemma RequestIs(g: Geometry, registers: Registers, n: nat, c: Word, t: Byte, s: Byte)
    requires 0 < n <= 0x1_0000 && registers[WC] == (0x1_0000 - n) % 0x1_0000
    requires registers[DC] == c && registers[DA] == t * 0x100 + s
    ensures ByteCount(registers) == 2 * n && StartOffset(g, registers) == Offset(g, c, t, s)
  {
    hide Offset;
    QuotientIs(registers[DA], 0x100, t, s);
  }

  /** The end offset the loop runs to. */
  lemma EndOffset(g: Geometry, registers: Registers)
    ensures var offs, n := StartOffset(g, registers), TransferCount(g, registers);
            var end := (offs + ByteCount(registers)) % 0x1_0000_0000;
            if n == 0 then end <= offs else end == offs + n
  {
    hide StartOffset;
  }

  /** What the end of a transfer does to the registers. */
  function Finished(registers: Registers): Registers {
    var cs1 := registers[CS1];
    registers[WC := 0][CS1 := if cs1 / 0x80 % 2 == 1 then cs1 else Wrap(cs1 as int + 0x80)]
  }

  /** The end of a transfer sets bit 7 of CS1 and clears the word count, and nothing else. */
  lemma FinishShown(registers: Registers, i: nat)
    requires i < 16
    ensures var r := Finished(registers);
            && BitOf(r[CS1], i) == (i == 7 || BitOf(registers[CS1], i)) && r[WC] == 0
            && forall k :: 0 <= k < 32 && k != CS1 && k != WC ==> r[k] == registers[k]
  {
    hide BitOf;
    BitSevenSet(registers[CS1], i);
  }

  lemma BitSevenSet(w: Word, i: nat)
    ensures BitOf(if w / 0x80 % 2 == 1 then w else Wrap(w as int + 0x80), i) == (i == 7 || BitOf(w, i))
  {
    assert Pow2(7) == 0x80;
    hide Pow2;
    if !BitOf(w, 7) {
      SetBit(w, 7, i);
      StillWord(w);
    }
  }

  lemma StillWord(w: Word)
    requires w / 0x80 % 2 == 0
    ensures Wrap(w as int + 0x80) == w + 0x80
  {
  }

  class Rp06 {
    const bus: BusUnit
    const geometry: Geometry
    const disk: DiskBackendFile
    var registers: Registers

    predicate Valid()
      reads this, disk
    {
      Uniform(disk.State(), SECTOR_SIZE)
    }

    constructor (bus: BusUnit, disk: DiskBackendFile, isRp07: bool)
      requires Uniform(disk.State(), SECTOR_SIZE)
      ensures Valid() && this.bus == bus && this.disk == disk && geometry == if isRp07 then RP07 else RP06
    {
      this.bus, this.disk := bus, disk;
      geometry := if isRp07 then RP07 else RP06;
      registers := seq(32, i => 0);
    }

    /** Functions 060 (write) and 070 (read), for whole sectors. A read stops at the first
        sector that cannot be read. */
    method Transfer(reading: bool)
      requires Valid() && TransferCount(geometry, registers) % SECTOR_SIZE == 0
      modifies this`registers, bus.ram, disk
      ensures Valid() && registers == Finished(old(registers))
      ensures var offs, a := StartOffset(geometry, old(registers)), PhysicalAddress(old(registers));
              var n := TransferCount(geometry, old(registers));
              if reading
              then disk.State() == old(disk.State())
                   && bus.ram[..] == Splice(old(bus.ram[..]), a, ReadRun(disk.State(), offs, n, SECTOR_SIZE))
              else bus.ram[..] == old(bus.ram[..])
                   && disk.State() == WriteDisk(old(disk.State()), offs, Slice(bus.ram[..], a, n), SECTOR_SIZE)
    {
      hide ReadRun, Splice, SectorAt, AllSectors, ReadSoFar, WriteDisk, Slice, StartOffset, PhysicalAddress,
        ByteCount, TransferCount, Finished;
      var offs, addr: nat, nb := StartOffset(geometry, registers), PhysicalAddress(registers), ByteCount(registers);
      var xferBuffer := new Byte[SECTOR_SIZE](i => 0);
      var endOffset := (offs + nb) % 0x1_0000_0000;
      EndOffset(geometry, registers);
      ghost var was, a, n := disk.State(), addr, TransferCount(geometry, registers);
      ghost var got: seq<Byte>, failed := [], false;
      StartOfRead(was, offs, n, SECTOR_SIZE);
      NothingSpliced(bus.ram[..], a);
      NothingWritten(was, bus.ram[..], a, offs, SECTOR_SIZE);
      var curOffset := offs;
      ghost var left: nat, k: nat, m: nat := n, 0, n / SECTOR_SIZE;
      while curOffset < endOffset
        invariant k <= m && left == (m - k) * SECTOR_SIZE && curOffset == offs + k * SECTOR_SIZE
        invariant addr == a + k * SECTOR_SIZE
        invariant Valid() && registers == old(registers)
        invariant reading ==>
                    && disk.State() == was && |got| == k * SECTOR_SIZE && !failed
                    && bus.ram[..] == Splice(old(bus.ram[..]), a, got)
                    && ReadSoFar(was, offs, n, got, left, failed, SECTOR_SIZE)
        invariant !reading ==>
                    && bus.ram[..] == old(bus.ram[..])
                    && disk.State() == WriteDisk(was, offs, Slice(bus.ram[..], a, k * SECTOR_SIZE), SECTOR_SIZE)
      {
        var curN := Min(endOffset - curOffset, SECTOR_SIZE);
        if reading {
          ghost var now: seq<Byte>;
          var ok;
          ok, now := ReadRound(bus, disk, xferBuffer, curOffset, addr, SECTOR_SIZE, old(bus.ram[..]), a, offs, n, got,
                               left);
          if !ok {
            failed := true;
            break;
          }
          got := now;
        } else {
          QuotientIs(k * SECTOR_SIZE, SECTOR_SIZE, k, 0);
          SectorWritten(was, bus.ram[..], a, offs, k * SECTOR_SIZE, SECTOR_SIZE);
          var ok := WriteSector(bus, disk, xferBuffer, curOffset, addr, SECTOR_SIZE);
        }
        addr := addr + curN;
        curOffset, left, k := curOffset + SECTOR_SIZE, left - SECTOR_SIZE, k + 1;
      }
      if reading {
        AllRead(was, offs, n, got, left, failed, SECTOR_SIZE);
      }
      registers := Finished(registers);
    }
  }
}
