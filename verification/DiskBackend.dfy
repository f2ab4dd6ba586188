/** Disk images with an optional copy-on-write overlay (disk_backend.cpp,
    disk_backend_file.cpp). */
module DiskBackend {
  import opened Words
  import opened Division

  /** `image` is the file; the overlay maps sector numbers to sectors. */
  datatype Disk = Disk(image: seq<Byte>, useOverlay: bool, overlay: map<nat, seq<Byte>>)

  predicate Aligned(offset: nat, sectorSize: nat) {
    sectorSize > 0 && offset % sectorSize == 0
  }

  function Zeros(n: nat): (r: seq<Byte>)
    ensures |r| == n && forall i :: 0 <= i < n ==> r[i] == 0
  {
    seq(n, i => 0)
  }

  /** `pwrite` that writes everything: a write past the end leaves a gap of zeros. */
  function Pwrite(image: seq<Byte>, offset: nat, data: seq<Byte>): (r: seq<Byte>)
    ensures data != [] ==> |r| == Max(|image|, offset + |data|)
    ensures data != [] ==> r[offset..offset + |data|] == data
    ensures data != [] ==>
              forall i :: 0 <= i < |r| && !(offset <= i < offset + |data|) ==>
                            r[i] == if i < |image| then image[i] else 0
  {
    if data == [] then image
    else
      var padded := if |image| < offset then image + Zeros(offset - |image|) else image;
      padded[..offset] + data + (if offset + |data| < |padded| then padded[offset + |data|..] else [])
  }

  /** The sectors of `data` under consecutive numbers. */
  function StoreRange(overlay: map<nat, seq<Byte>>, id: nat, data: seq<Byte>, sectorSize: nat): map<nat, seq<Byte>>
    requires sectorSize > 0
    decreases |data|
  {
    if |data| < sectorSize then overlay
    else StoreRange(overlay[id := data[..sectorSize]], id + 1, data[sectorSize..], sectorSize)
  }

  /** One round of the store loop. */
  lemma StoreStep(overlay: map<nat, seq<Byte>>, offset: nat, from: seq<Byte>, o: nat, sectorSize: nat)
    requires Aligned(offset, sectorSize) && |from| % sectorSize == 0 && o % sectorSize == 0 && o < |from|
    ensures o + sectorSize <= |from| && (o + sectorSize) % sectorSize == 0
    ensures StoreRange(overlay, (offset + o) / sectorSize, from[o..], sectorSize)
            == StoreRange(overlay[(offset + o) / sectorSize := from[o..o + sectorSize]],
                          (offset + o + sectorSize) / sectorSize, from[o + sectorSize..], sectorSize)
  {
    NextMultiple(offset, o, sectorSize);
    NextMultiple(offset + o, 0, sectorSize);
    NextMultiple(o, 0, sectorSize);
    MultiplesApart(o, |from|, sectorSize);
    assert from[o..][..sectorSize] == from[o..o + sectorSize];
    assert from[o..][sectorSize..] == from[o + sectorSize..];
  }

  function WriteDisk(d: Disk, offset: nat, data: seq<Byte>, sectorSize: nat): Disk
    requires sectorSize > 0
  {
    if d.useOverlay then d.(overlay := StoreRange(d.overlay, offset / sectorSize, data, sectorSize))
    else d.(image := Pwrite(d.image, offset, data))
  }

  /** What reading one whole sector yields: None when it fails. */
  function SectorAt(d: Disk, offset: nat, sectorSize: nat): Option<seq<Byte>>
    requires sectorSize > 0
  {
    if d.useOverlay && offset / sectorSize in d.overlay then Some(d.overlay[offset / sectorSize])
    else if offset + sectorSize <= |d.image| then Some(d.image[offset..offset + sectorSize])
    else None
  }

  /** Every overlay entry is one whole sector. */
  predicate Uniform(d: Disk, sectorSize: nat) {
    AllSectors(d.overlay, sectorSize)
  }

  predicate AllSectors(overlay: map<nat, seq<Byte>>, sectorSize: nat) {
    forall id :: id in overlay ==> |overlay[id]| == sectorSize
  }

  /** `disk_backend_file`. */
  class DiskBackendFile {
    var image: seq<Byte>
    var useOverlay: bool
    var overlay: map<nat, seq<Byte>>

    function State(): Disk
      reads this
    {
      Disk(image, useOverlay, overlay)
    }

    constructor (file: seq<Byte>, snapshots: bool)
      ensures State() == Disk(file, snapshots, map[])
    {
      image, useOverlay, overlay := file, snapshots, map[];
    }

    method StoreMemRangeInOverlay(offset: nat, from: seq<Byte>, sectorSize: nat) returns (stored: bool)
      requires Aligned(offset, sectorSize) && |from| % sectorSize == 0
      modifies this`overlay
      ensures stored == useOverlay
      ensures useOverlay ==> State() == WriteDisk(old(State()), offset, from, sectorSize)
      ensures !useOverlay ==> State() == old(State())
    {
      stored := useOverlay;
      if useOverlay {
        hide StoreRange;
        var o := 0;
        NextMultiple(offset, 0, sectorSize);
        assert from[0..] == from;
        while o < |from|
          invariant 0 <= o <= |from| && o % sectorSize == 0
          invariant StoreRange(overlay, (offset + o) / sectorSize, from[o..], sectorSize)
                    == StoreRange(old(overlay), offset / sectorSize, from, sectorSize)
        {
          StoreStep(overlay, offset, from, o, sectorSize);
          overlay := overlay[(offset + o) / sectorSize := from[o..o + sectorSize]];
          o := o + sectorSize;
        }
      }
    }

    /** A write of whole sectors. */
    method Write(offset: nat, from: seq<Byte>, sectorSize: nat) returns (ok: bool)
      requires Aligned(offset, sectorSize) && |from| % sectorSize == 0
      modifies this
      ensures ok && State() == WriteDisk(old(State()), offset, from, sectorSize)
    {
      var stored := StoreMemRangeInOverlay(offset, from, sectorSize);
      if stored {
        return true;
      }
      image := Pwrite(image, offset, from);
      ok := true;
    }

    /** `read` into the front of `target`. The file read always asks for all `n` bytes at the
        front, so the contract speaks of one sector per call, which is all callers ask for. */
    method Read(offset: nat, n: nat, target: array<Byte>, sectorSize: nat) returns (ok: bool)
      requires Aligned(offset, sectorSize) && n % sectorSize == 0 && n <= target.Length
      requires Uniform(State(), sectorSize)
      modifies target
      ensures n == sectorSize ==> ok == SectorAt(State(), offset, sectorSize).Some?
      ensures n == sectorSize && ok ==> target[..n] == SectorAt(State(), offset, sectorSize).value
      ensures n == sectorSize ==> target[n..] == old(target[n..])
    {
      var o := 0;
      while o < n
        invariant 0 <= o <= n && o % sectorSize == 0
        invariant n == sectorSize && o > 0 ==>
                    o == n && SectorAt(State(), offset, sectorSize).Some?
                    && target[..n] == SectorAt(State(), offset, sectorSize).value
        invariant n == sectorSize ==> target[n..] == old(target[n..])
      {
        MultiplesApart(o, n, sectorSize);
        NextMultiple(o, 0, sectorSize);
        if useOverlay && (offset + o) / sectorSize in overlay {
          var sector := overlay[(offset + o) / sectorSize];
          assert |sector| == sectorSize;
          forall i | 0 <= i < sectorSize {
            target[o + i] := sector[i];
          }
        } else {
          if offset + o + n > |image| {
            return false;
          }
          forall i | 0 <= i < n {
            target[i] := image[offset + o + i];
          }
        }
        o := o + sectorSize;
      }
      ok := true;
    }
  }
}
