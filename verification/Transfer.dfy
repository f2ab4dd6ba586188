/** What the sector loops of the disk controllers move between memory and a disk. */
module Transfer {
  import opened Words
  import opened Division
  import opened DiskBackend
  import opened Overlay
  import opened Hardware

  /** `n` bytes of memory from `a` on. */
  function Slice(ram: seq<Byte>, a: nat, n: nat): (r: seq<Byte>)
    ensures |r| == n && forall i :: 0 <= i < n ==> r[i] == UnibusByte(ram, a + i)
  {
    seq<Byte>(n, i requires 0 <= i < n => UnibusByte(ram, a + i))
  }

  /** Memory with `data` stored from `a` on. */
  function Splice(ram: seq<Byte>, a: nat, data: seq<Byte>): (r: seq<Byte>)
    ensures |r| == |ram|
    ensures forall i :: 0 <= i < |ram| ==> r[i] == if a <= i < a + |data| then data[i - a] else ram[i]
  {
    seq<Byte>(|ram|, i requires 0 <= i < |ram| => if a <= i < a + |data| then data[i - a] else ram[i])
  }

  /** The bytes read from consecutive sectors, up to the first that fails. */
  function ReadRun(d: Disk, offset: nat, n: nat, sectorSize: nat): seq<Byte>
    requires sectorSize > 0
    decreases n
  {
    if n < sectorSize then []
    else match SectorAt(d, offset, sectorSize)
      case None => []
      case Some(sector) => sector + ReadRun(d, offset + sectorSize, n - sectorSize, sectorSize)
  }

  // --- Writes split and read back ---

  lemma {:induction false} StoreRangeSplits(overlay: map<nat, seq<Byte>>, id: nat, head: seq<Byte>, tail: seq<Byte>,
                                            sectorSize: nat)
    requires sectorSize > 0 && |head| % sectorSize == 0
    ensures StoreRange(overlay, id, head + tail, sectorSize)
            == StoreRange(StoreRange(overlay, id, head, sectorSize), id + |head| / sectorSize, tail, sectorSize)
    decreases |head|
  {
    if head == [] {
      assert head + tail == tail;
      QuotientIs(0, sectorSize, 0, 0);
    } else {
      NextMultiple(0, 0, sectorSize);
      MultiplesApart(0, |head|, sectorSize);
      var rest := head[sectorSize..];
      QuotientIs(|rest|, sectorSize, |head| / sectorSize - 1, 0);
      assert (head + tail)[..sectorSize] == head[..sectorSize] && (head + tail)[sectorSize..] == rest + tail;
      StoreRangeSplits(overlay[id := head[..sectorSize]], id + 1, rest, tail, sectorSize);
    }
  }

  lemma WriteSplits(d: Disk, offset: nat, head: seq<Byte>, tail: seq<Byte>, sectorSize: nat)
    requires Aligned(offset, sectorSize) && |head| % sectorSize == 0
    ensures WriteDisk(d, offset, head + tail, sectorSize)
            == WriteDisk(WriteDisk(d, offset, head, sectorSize), offset + |head|, tail, sectorSize)
  {
    NextMultiple(offset, |head|, sectorSize);
    StoreRangeSplits(d.overlay, offset / sectorSize, head, tail, sectorSize);
    if head == [] {
      assert head + tail == tail;
    } else {
      SplitWrite(d.image, offset, head + tail, |head|);
      assert (head + tail)[..|head|] == head && (head + tail)[|head|..] == tail;
    }
  }

  lemma {:induction false} StoreRangeElsewhere(overlay: map<nat, seq<Byte>>, id: nat, data: seq<Byte>,
                                               sectorSize: nat, other: nat)
    requires sectorSize > 0 && (other < id || other * sectorSize >= id * sectorSize + |data|)
    ensures other in StoreRange(overlay, id, data, sectorSize) <==> other in overlay
    ensures other in overlay ==> StoreRange(overlay, id, data, sectorSize)[other] == overlay[other]
    decreases |data|
  {
    if |data| >= sectorSize {
      assert (id + 1) * sectorSize == id * sectorSize + sectorSize;
      StoreRangeElsewhere(overlay[id := data[..sectorSize]], id + 1, data[sectorSize..], sectorSize, other);
    }
  }

  lemma AlignedBytes(o: nat, sectorSize: nat)
    requires Aligned(o, sectorSize)
    ensures o / sectorSize * sectorSize == o
  {
  }

  lemma StoreElsewhere(overlay: map<nat, seq<Byte>>, offset: nat, data: seq<Byte>, sectorSize: nat, o: nat)
    requires Aligned(offset, sectorSize) && Aligned(o, sectorSize) && (o < offset || offset + |data| <= o)
    ensures var r := StoreRange(overlay, offset / sectorSize, data, sectorSize);
            (o / sectorSize in r <==> o / sectorSize in overlay)
            && (o / sectorSize in overlay ==> r[o / sectorSize] == overlay[o / sectorSize])
  {
    AlignedBytes(o, sectorSize);
    AlignedBytes(offset, sectorSize);
    if o < offset {
      MultiplesApart(o, offset, sectorSize);
    }
    StoreRangeElsewhere(overlay, offset / sectorSize, data, sectorSize, o / sectorSize);
  }

  lemma PwriteElsewhere(image: seq<Byte>, offset: nat, data: seq<Byte>, o: nat, n: nat)
    requires o + n <= |image| && (o + n <= offset || offset + |data| <= o)
    ensures o + n <= |Pwrite(image, offset, data)| && Pwrite(image, offset, data)[o..o + n] == image[o..o + n]
  {
  }

  /** A readable sector outside a write keeps its contents. */
  lemma WriteTouchesNothingElse(d: Disk, offset: nat, data: seq<Byte>, sectorSize: nat, o: nat)
    requires Aligned(offset, sectorSize) && Aligned(o, sectorSize)
    requires o < offset || offset + |data| <= o
    requires SectorAt(d, o, sectorSize).Some?
    ensures SectorAt(WriteDisk(d, offset, data, sectorSize), o, sectorSize) == SectorAt(d, o, sectorSize)
  {
    hide StoreRange, Pwrite;
    if d.useOverlay {
      StoreElsewhere(d.overlay, offset, data, sectorSize, o);
    } else {
      if o < offset {
        MultiplesApart(o, offset, sectorSize);
      }
      PwriteElsewhere(d.image, offset, data, o, sectorSize);
    }
  }

  /** The first sector of a write reads back, and the rest of the write comes after it. */
  lemma HeadSurvives(d: Disk, offset: nat, head: seq<Byte>, tail: seq<Byte>, sectorSize: nat)
    requires Aligned(offset, sectorSize) && |head| == sectorSize
    ensures (offset + sectorSize) % sectorSize == 0
    ensures var d1 := WriteDisk(d, offset, head, sectorSize);
            var whole := WriteDisk(d, offset, head + tail, sectorSize);
            whole == WriteDisk(d1, offset + sectorSize, tail, sectorSize)
            && SectorAt(whole, offset, sectorSize) == Some(head)
  {
    hide WriteDisk;
    NextMultiple(offset, 0, sectorSize);
    QuotientIs(sectorSize, sectorSize, 1, 0);
    WriteSplits(d, offset, head, tail, sectorSize);
    OneSectorStored(d, offset, head, sectorSize);
    WriteTouchesNothingElse(WriteDisk(d, offset, head, sectorSize), offset + sectorSize, tail, sectorSize, offset);
  }

  /** Every sector of a write can be read back. */
  lemma {:induction false} ReadBack(d: Disk, offset: nat, data: seq<Byte>, sectorSize: nat)
    requires Aligned(offset, sectorSize) && |data| % sectorSize == 0
    ensures ReadRun(WriteDisk(d, offset, data, sectorSize), offset, |data|, sectorSize) == data
    decreases |data|
  {
    hide WriteDisk, SectorAt;
    if data != [] {
      NextMultiple(0, 0, sectorSize);
      MultiplesApart(0, |data|, sectorSize);
      var head, tail := data[..sectorSize], data[sectorSize..];
      QuotientIs(|tail|, sectorSize, |data| / sectorSize - 1, 0);
      assert head + tail == data;
      HeadSurvives(d, offset, head, tail, sectorSize);
      ReadBack(WriteDisk(d, offset, head, sectorSize), offset + sectorSize, tail, sectorSize);
    }
  }

  lemma OneSectorStored(d: Disk, offset: nat, sector: seq<Byte>, sectorSize: nat)
    requires Aligned(offset, sectorSize) && |sector| == sectorSize
    ensures SectorAt(WriteDisk(d, offset, sector, sectorSize), offset, sectorSize) == Some(sector)
  {
    assert sector[..sectorSize] == sector && sector[sectorSize..] == [];
    assert StoreRange(d.overlay, offset / sectorSize, sector, sectorSize) == d.overlay[offset / sectorSize := sector];
  }

  /** Writing memory to a disk and reading it back to the same place, whatever happened to
      that memory meanwhile, restores memory exactly. */
  lemma TransferRoundTrip(ram: seq<Byte>, later: seq<Byte>, d: Disk, a: nat, offset: nat, n: nat, sectorSize: nat)
    requires Aligned(offset, sectorSize) && n % sectorSize == 0 && a + n <= |ram| == |later|
    requires forall i :: 0 <= i < |ram| && !(a <= i < a + n) ==> later[i] == ram[i]
    ensures Splice(later, a, ReadRun(WriteDisk(d, offset, Slice(ram, a, n), sectorSize), offset, n, sectorSize)) == ram
  {
    ReadBack(d, offset, Slice(ram, a, n), sectorSize);
  }

  lemma SpliceSplits(ram: seq<Byte>, a: nat, head: seq<Byte>, tail: seq<Byte>)
    ensures Splice(ram, a, head + tail) == Splice(Splice(ram, a, head), a + |head|, tail)
  {
  }

  lemma NothingSpliced(ram: seq<Byte>, a: nat)
    ensures Splice(ram, a, []) == ram
  {
  }

  lemma SliceSplits(ram: seq<Byte>, a: nat, m: nat, n: nat)
    ensures Slice(ram, a, m + n) == Slice(ram, a, m) + Slice(ram, a + m, n)
  {
  }

  lemma UniformKept(d: Disk, offset: nat, data: seq<Byte>, sectorSize: nat)
    requires sectorSize > 0 && Uniform(d, sectorSize)
    ensures Uniform(WriteDisk(d, offset, data, sectorSize), sectorSize)
  {
    StoreUniform(d.overlay, offset / sectorSize, data, sectorSize);
  }

  lemma {:induction false} StoreUniform(overlay: map<nat, seq<Byte>>, id: nat, data: seq<Byte>, sectorSize: nat)
    requires sectorSize > 0 && AllSectors(overlay, sectorSize)
    ensures AllSectors(StoreRange(overlay, id, data, sectorSize), sectorSize)
    decreases |data|
  {
    if |data| >= sectorSize {
      StoreUniform(overlay[id := data[..sectorSize]], id + 1, data[sectorSize..], sectorSize);
    }
  }

  lemma {:induction false} ReadRunLength(d: Disk, offset: nat, n: nat, sectorSize: nat)
    requires sectorSize > 0 && Uniform(d, sectorSize)
    ensures |ReadRun(d, offset, n, sectorSize)| <= n
    decreases n
  {
    if n >= sectorSize {
      ReadRunLength(d, offset + sectorSize, n - sectorSize, sectorSize);
    }
  }

  // --- Sector loops ---

  /** `got` is the front of what a whole read would yield, and all of it after a failure. */
  predicate ReadSoFar(d: Disk, offset: nat, n: nat, got: seq<Byte>, left: nat, failed: bool, sectorSize: nat)
    requires sectorSize > 0
  {
    && |got| + left == n && left % sectorSize == 0 && Aligned(offset + |got|, sectorSize) && (failed ==> left > 0)
    && ReadRun(d, offset, n, sectorSize) == got + if failed then [] else ReadRun(d, offset + |got|, left, sectorSize)
  }

  lemma StartOfRead(d: Disk, offset: nat, n: nat, sectorSize: nat)
    requires Aligned(offset, sectorSize) && n % sectorSize == 0
    ensures ReadSoFar(d, offset, n, [], n, false, sectorSize)
  {
    hide ReadRun;
    assert [] + ReadRun(d, offset, n, sectorSize) == ReadRun(d, offset, n, sectorSize);
  }

  lemma SectorLength(d: Disk, offset: nat, sectorSize: nat)
    requires sectorSize > 0 && Uniform(d, sectorSize)
    ensures SectorAt(d, offset, sectorSize).Some? ==> |SectorAt(d, offset, sectorSize).value| == sectorSize
  {
  }

  /** One more sector, or the failure that ends the read. */
  lemma RoundStarts(d: Disk, offset: nat, n: nat, got: seq<Byte>, left: nat, sectorSize: nat)
    requires sectorSize > 0 && ReadSoFar(d, offset, n, got, left, false, sectorSize) && left > 0
             && Uniform(d, sectorSize)
    ensures left >= sectorSize && Aligned(offset + |got|, sectorSize)
    ensures match SectorAt(d, offset + |got|, sectorSize)
            case None => ReadSoFar(d, offset, n, got, left, true, sectorSize)
            case Some(data) =>
              |data| == sectorSize && ReadSoFar(d, offset, n, got + data, left - sectorSize, false, sectorSize)
  {
    hide SectorAt, AllSectors;
    MultiplesApart(0, left, sectorSize);
    NextMultiple(offset + |got|, 0, sectorSize);
    SectorLength(d, offset + |got|, sectorSize);
    QuotientIs(left - sectorSize, sectorSize, left / sectorSize - 1, 0);
    match SectorAt(d, offset + |got|, sectorSize)
    case None =>
    case Some(data) =>
      var rest := ReadRun(d, offset + |got| + sectorSize, left - sectorSize, sectorSize);
      assert got + (data + rest) == got + data + rest;
  }

  lemma AllRead(d: Disk, offset: nat, n: nat, got: seq<Byte>, left: nat, failed: bool, sectorSize: nat)
    requires sectorSize > 0 && ReadSoFar(d, offset, n, got, left, failed, sectorSize) && (left == 0 || failed)
    ensures got == ReadRun(d, offset, n, sectorSize) && failed == (|got| != n)
  {
    if !failed {
      assert ReadRun(d, offset + |got|, left, sectorSize) == [];
    }
  }

  /** The disk after `moved` bytes of a transfer, and after one more sector. */
  lemma SectorWritten(was: Disk, ram: seq<Byte>, a: nat, offset: nat, moved: nat, sectorSize: nat)
    requires Aligned(offset, sectorSize) && moved % sectorSize == 0
    ensures Aligned(offset + moved, sectorSize)
    ensures WriteDisk(was, offset, Slice(ram, a, moved + sectorSize), sectorSize)
            == WriteDisk(WriteDisk(was, offset, Slice(ram, a, moved), sectorSize),
                         offset + moved, Slice(ram, a + moved, sectorSize), sectorSize)
  {
    hide WriteDisk, Slice;
    NextMultiple(offset, moved, sectorSize);
    SliceSplits(ram, a, moved, sectorSize);
    WriteSplits(was, offset, Slice(ram, a, moved), Slice(ram, a + moved, sectorSize), sectorSize);
  }

  lemma NothingWritten(was: Disk, ram: seq<Byte>, a: nat, offset: nat, sectorSize: nat)
    requires sectorSize > 0
    ensures WriteDisk(was, offset, Slice(ram, a, 0), sectorSize) == was
  {
    assert Slice(ram, a, 0) == [];
  }

  // --- The copying inside a sector loop ---

  /** `xfer_buffer[i] = read_unibus_byte(a++)`. */
  method FillBuffer(bus: BusUnit, buffer: array<Byte>, a: nat, n: nat)
    requires n <= buffer.Length && buffer != bus.ram
    modifies buffer
    ensures buffer[..n] == Slice(bus.ram[..], a, n)
  {
    for i := 0 to n
      invariant buffer[..i] == Slice(bus.ram[..], a, i)
    {
      var v := bus.ReadUnibusByte(a + i);
      buffer[i] := v;
    }
  }

  /** `write_unibus_byte(a++, xfer_buffer[i])`. */
  method DrainBuffer(bus: BusUnit, buffer: array<Byte>, a: nat, n: nat)
    requires n <= buffer.Length && buffer != bus.ram
    modifies bus.ram
    ensures bus.ram[..] == Splice(old(bus.ram[..]), a, buffer[..n])
  {
    for i := 0 to n
      invariant bus.ram[..] == Splice(old(bus.ram[..]), a, buffer[..i])
    {
      bus.WriteUnibusByte(a + i, buffer[i]);
    }
  }

  /** One round of a read loop: a sector into memory, or a failed read. */
  method ReadSector(bus: BusUnit, disk: DiskBackendFile, buffer: array<Byte>, offset: nat, a: nat, sectorSize: nat)
      returns (ok: bool)
    requires buffer.Length == sectorSize && buffer != bus.ram && Aligned(offset, sectorSize)
             && Uniform(disk.State(), sectorSize)
    modifies buffer, bus.ram
    ensures ok == SectorAt(disk.State(), offset, sectorSize).Some?
    ensures bus.ram[..] == if ok then Splice(old(bus.ram[..]), a, SectorAt(disk.State(), offset, sectorSize).value)
                           else old(bus.ram[..])
  {
    hide SectorAt, Splice, AllSectors;
    MultiplesOfOne(sectorSize);
    ok := disk.Read(offset, sectorSize, buffer, sectorSize);
    if ok {
      DrainBuffer(bus, buffer, a, sectorSize);
    }
  }

  /** A round that knows what has been read so far. */
  method ReadRound(bus: BusUnit, disk: DiskBackendFile, buffer: array<Byte>, o: nat, p: nat, sectorSize: nat,
                   ghost was: seq<Byte>, ghost a: nat, ghost offset: nat, ghost n: nat, ghost got: seq<Byte>,
                   ghost left: nat)
      returns (ok: bool, ghost now: seq<Byte>)
    requires sectorSize > 0 && buffer.Length == sectorSize && buffer != bus.ram && Uniform(disk.State(), sectorSize)
    requires ReadSoFar(disk.State(), offset, n, got, left, false, sectorSize) && left > 0
    requires o == offset + |got| && p == a + |got| && bus.ram[..] == Splice(was, a, got)
    modifies buffer, bus.ram
    ensures bus.ram[..] == Splice(was, a, now)
    ensures if ok then |now| == |got| + sectorSize && left >= sectorSize
                       && ReadSoFar(disk.State(), offset, n, now, left - sectorSize, false, sectorSize)
            else now == got && ReadSoFar(disk.State(), offset, n, got, left, true, sectorSize)
  {
    hide SectorAt, Splice, AllSectors, ReadSoFar;
    RoundStarts(disk.State(), offset, n, got, left, sectorSize);
    ok := ReadSector(bus, disk, buffer, o, p, sectorSize);
    now := got;
    if ok {
      now := got + SectorAt(disk.State(), o, sectorSize).value;
      SpliceSplits(was, a, got, SectorAt(disk.State(), o, sectorSize).value);
    }
  }

  lemma MultiplesOfOne(sectorSize: nat)
    requires sectorSize > 0
    ensures sectorSize % sectorSize == 0
  {
    QuotientIs(sectorSize, sectorSize, 1, 0);
  }

  /** One round of a write loop. */
  method WriteSector(bus: BusUnit, disk: DiskBackendFile, buffer: array<Byte>, offset: nat, a: nat, sectorSize: nat)
      returns (ok: bool)
    requires buffer.Length == sectorSize && buffer != bus.ram && Aligned(offset, sectorSize)
             && Uniform(disk.State(), sectorSize)
    modifies buffer, disk
    ensures ok && Uniform(disk.State(), sectorSize)
    ensures disk.State() == WriteDisk(old(disk.State()), offset, Slice(bus.ram[..], a, sectorSize), sectorSize)
  {
    hide WriteDisk, Slice, AllSectors;
    MultiplesOfOne(sectorSize);
    FillBuffer(bus, buffer, a, sectorSize);
    UniformKept(disk.State(), offset, buffer[..sectorSize], sectorSize);
    ok := disk.Write(offset, buffer[..sectorSize], sectorSize);
  }
}
