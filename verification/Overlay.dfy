/** The copy-on-write overlay cannot be told from writing to the image, sector by sector. */
module Overlay {
  import opened Words
  import opened Division
  import opened DiskBackend

  datatype SectorWrite = SectorWrite(offset: nat, data: seq<Byte>)

  predicate WholeSectors(w: SectorWrite, sectorSize: nat) {
    Aligned(w.offset, sectorSize) && |w.data| % sectorSize == 0
  }

  function WriteAll(d: Disk, writes: seq<SectorWrite>, sectorSize: nat): Disk
    requires sectorSize > 0
    decreases |writes|
  {
    if writes == [] then d
    else WriteAll(WriteDisk(d, writes[0].offset, writes[0].data, sectorSize), writes[1..], sectorSize)
  }

  predicate CoveredBy(w: SectorWrite, offset: nat) {
    w.offset <= offset < w.offset + |w.data|
  }

  /** Some write has put data at this offset. */
  predicate Covered(writes: seq<SectorWrite>, offset: nat) {
    exists i :: 0 <= i < |writes| && CoveredBy(writes[i], offset)
  }

  /** `on` and `off` are one disk, with and without overlay, after the same writes to `base`;
      `covered` are the offsets written so far. */
  ghost predicate Matches(on: Disk, off: Disk, base: seq<Byte>, covered: iset<nat>, sectorSize: nat)
    requires sectorSize > 0
  {
    && on.useOverlay && !off.useOverlay && on.image == base && |off.image| >= |base|
    && Uniform(on, sectorSize)
    && (forall o: nat {:trigger SectorAt(on, o, sectorSize)} :: o % sectorSize == 0 ==>
          && (o / sectorSize in on.overlay <==> o in covered)
          && SectorAt(on, o, sectorSize) ==
             if o in covered || o + sectorSize <= |base| then SectorAt(off, o, sectorSize) else None)
    && (forall o: nat {:trigger SectorAt(off, o, sectorSize)} ::
          o % sectorSize == 0 && (o in covered || o + sectorSize <= |base|) ==>
          SectorAt(off, o, sectorSize).Some?)
  }

  lemma SectorUntouched(image: seq<Byte>, offset: nat, data: seq<Byte>, o: nat, sectorSize: nat)
    requires |data| == sectorSize > 0 && (o + sectorSize <= offset || offset + sectorSize <= o)
    ensures o + sectorSize <= |image| ==>
              o + sectorSize <= |Pwrite(image, offset, data)|
              && Pwrite(image, offset, data)[o..o + sectorSize] == image[o..o + sectorSize]
  {
  }

  /** One sector written to both. */
  lemma OneSector(on: Disk, off: Disk, base: seq<Byte>, covered: iset<nat>, offset: nat, data: seq<Byte>,
                  sectorSize: nat)
    requires Aligned(offset, sectorSize) && |data| == sectorSize && Matches(on, off, base, covered, sectorSize)
    ensures Matches(on.(overlay := on.overlay[offset / sectorSize := data]),
                    off.(image := Pwrite(off.image, offset, data)),
                    base, covered + iset{offset}, sectorSize)
  {
    var on' := on.(overlay := on.overlay[offset / sectorSize := data]);
    var off' := off.(image := Pwrite(off.image, offset, data));
    var covered' := covered + iset{offset};
    forall o: nat | o % sectorSize == 0
      ensures o / sectorSize in on'.overlay <==> o in covered'
      ensures SectorAt(on', o, sectorSize) ==
              if o in covered' || o + sectorSize <= |base| then SectorAt(off', o, sectorSize) else None
      ensures o in covered' || o + sectorSize <= |base| ==> SectorAt(off', o, sectorSize).Some?
    {
      var before := (SectorAt(on, o, sectorSize), SectorAt(off, o, sectorSize));
      SectorAfter(on, off, offset, data, o, sectorSize);
      hide SectorAt;
    }
  }

  /** One sector of the two disks after a sector is written. */
  lemma SectorAfter(on: Disk, off: Disk, offset: nat, data: seq<Byte>, o: nat, sectorSize: nat)
    requires Aligned(offset, sectorSize) && Aligned(o, sectorSize) && |data| == sectorSize && on.useOverlay
             && !off.useOverlay
    ensures var on' := on.(overlay := on.overlay[offset / sectorSize := data]);
            var off' := off.(image := Pwrite(off.image, offset, data));
            if o == offset then SectorAt(on', o, sectorSize) == SectorAt(off', o, sectorSize) == Some(data)
            else o / sectorSize != offset / sectorSize
                 && SectorAt(on', o, sectorSize) == SectorAt(on, o, sectorSize)
                 && (SectorAt(off, o, sectorSize).Some? ==>
                       SectorAt(off', o, sectorSize) == SectorAt(off, o, sectorSize))
  {
    if o != offset {
      Apart(o, offset, sectorSize);
      SectorUntouched(off.image, offset, data, o, sectorSize);
    }
  }

  lemma Apart(o: nat, p: nat, sectorSize: nat)
    requires Aligned(o, sectorSize) && Aligned(p, sectorSize) && o != p
    ensures o / sectorSize != p / sectorSize && (o + sectorSize <= p || p + sectorSize <= o)
  {
    if o < p {
      MultiplesApart(o, p, sectorSize);
    } else {
      MultiplesApart(p, o, sectorSize);
    }
  }

  ghost function OffsetsOf(offset: nat, n: nat, sectorSize: nat): iset<nat>
    requires sectorSize > 0
  {
    iset o: nat | o % sectorSize == 0 && offset <= o < offset + n
  }

  /** One write splits into its first sector and the rest. */
  lemma SplitWrite(image: seq<Byte>, offset: nat, data: seq<Byte>, n: nat)
    requires 0 < n <= |data|
    ensures Pwrite(image, offset, data) == Pwrite(Pwrite(image, offset, data[..n]), offset + n, data[n..])
  {
    var first := Pwrite(image, offset, data[..n]);
    if n < |data| {
      var whole, both := Pwrite(image, offset, data), Pwrite(first, offset + n, data[n..]);
      assert |whole| == |both|;
      forall i | 0 <= i < |whole| ensures whole[i] == both[i] {
        if offset <= i < offset + n {
          assert first[i] == first[offset..offset + n][i - offset];
          assert whole[i] == whole[offset..offset + |data|][i - offset];
        } else if offset + n <= i < offset + |data| {
          assert both[i] == both[offset + n..offset + |data|][i - offset - n];
          assert whole[i] == whole[offset..offset + |data|][i - offset];
        }
      }
    } else {
      assert data[..n] == data && data[n..] == [];
    }
  }

  /** A whole write keeps the two disks alike. */
  lemma {:induction false} OneWrite(on: Disk, off: Disk, base: seq<Byte>, covered: iset<nat>, offset: nat,
                                    data: seq<Byte>, sectorSize: nat)
    requires Aligned(offset, sectorSize) && |data| % sectorSize == 0 && Matches(on, off, base, covered, sectorSize)
    ensures Matches(WriteDisk(on, offset, data, sectorSize), WriteDisk(off, offset, data, sectorSize), base,
                    covered + OffsetsOf(offset, |data|, sectorSize), sectorSize)
    decreases |data|
  {
    hide Matches;
    if data == [] {
      assert covered + OffsetsOf(offset, 0, sectorSize) == covered;
      StoreNothing(on, off, offset, sectorSize);
    } else {
      MultiplesApart(0, |data|, sectorSize);
      var head, tail := data[..sectorSize], data[sectorSize..];
      var on1 := on.(overlay := on.overlay[offset / sectorSize := head]);
      var off1 := off.(image := Pwrite(off.image, offset, head));
      MatchesKinds(on, off, base, covered, sectorSize);
      OneSector(on, off, base, covered, offset, head, sectorSize);
      NextMultiple(offset, 0, sectorSize);
      NextMultiple(0, 0, sectorSize);
      QuotientIs(|tail|, sectorSize, |data| / sectorSize - 1, 0);
      OneWrite(on1, off1, base, covered + iset{offset}, offset + sectorSize, tail, sectorSize);
      SplitWrite(off.image, offset, data, sectorSize);
      CoverSplits(covered, offset, |data|, sectorSize);
    }
  }

  lemma StoreNothing(on: Disk, off: Disk, offset: nat, sectorSize: nat)
    requires sectorSize > 0
    ensures WriteDisk(on, offset, [], sectorSize) == on && WriteDisk(off, offset, [], sectorSize) == off
  {
  }

  lemma MatchesKinds(on: Disk, off: Disk, base: seq<Byte>, covered: iset<nat>, sectorSize: nat)
    requires sectorSize > 0 && Matches(on, off, base, covered, sectorSize)
    ensures on.useOverlay && !off.useOverlay
  {
  }

  lemma CoverSplits(covered: iset<nat>, offset: nat, n: nat, sectorSize: nat)
    requires Aligned(offset, sectorSize) && sectorSize <= n
    ensures covered + OffsetsOf(offset, n, sectorSize)
            == covered + iset{offset} + OffsetsOf(offset + sectorSize, n - sectorSize, sectorSize)
  {
    forall o | o in OffsetsOf(offset, n, sectorSize) && o != offset
      ensures o in OffsetsOf(offset + sectorSize, n - sectorSize, sectorSize)
    {
      MultiplesApart(offset, o, sectorSize);
    }
  }

  ghost function CoveredSet(covered: iset<nat>, writes: seq<SectorWrite>, sectorSize: nat): iset<nat>
    requires sectorSize > 0
  {
    iset o: nat | o in covered || (o % sectorSize == 0 && Covered(writes, o))
  }

  lemma {:induction false} AllWrites(on: Disk, off: Disk, base: seq<Byte>, covered: iset<nat>,
                                     writes: seq<SectorWrite>, sectorSize: nat)
    requires sectorSize > 0 && Matches(on, off, base, covered, sectorSize)
    requires forall i :: 0 <= i < |writes| ==> WholeSectors(writes[i], sectorSize)
    ensures Matches(WriteAll(on, writes, sectorSize), WriteAll(off, writes, sectorSize), base,
                    CoveredSet(covered, writes, sectorSize), sectorSize)
    decreases |writes|
  {
    hide Matches, WriteDisk;
    if writes == [] {
      assert CoveredSet(covered, writes, sectorSize) == covered;
    } else {
      var w := writes[0];
      OneWrite(on, off, base, covered, w.offset, w.data, sectorSize);
      var now := covered + OffsetsOf(w.offset, |w.data|, sectorSize);
      AllWrites(WriteDisk(on, w.offset, w.data, sectorSize), WriteDisk(off, w.offset, w.data, sectorSize),
                base, now, writes[1..], sectorSize);
      assert CoveredSet(now, writes[1..], sectorSize) == CoveredSet(covered, writes, sectorSize) by {
        forall o: nat ensures Covered(writes, o) <==> CoveredBy(w, o) || Covered(writes[1..], o) {
          assert writes == [w] + writes[1..];
        }
      }
    }
  }

  /** After any whole-sector writes the base image is untouched with the overlay on, and a
      sector reads the same with the overlay on and off, as long as it was written or lies in
      the base image. */
  lemma OverlayTransparent(base: seq<Byte>, writes: seq<SectorWrite>, offset: nat, sectorSize: nat)
    requires Aligned(offset, sectorSize)
    requires forall i :: 0 <= i < |writes| ==> WholeSectors(writes[i], sectorSize)
    ensures var on := WriteAll(Disk(base, true, map[]), writes, sectorSize);
            var off := WriteAll(Disk(base, false, map[]), writes, sectorSize);
            on.image == base && Uniform(on, sectorSize)
            && SectorAt(on, offset, sectorSize) ==
               (if Covered(writes, offset) || offset + sectorSize <= |base| then SectorAt(off, offset, sectorSize)
                else None)
            && (Covered(writes, offset) || offset + sectorSize <= |base| ==> SectorAt(on, offset, sectorSize).Some?)
  {
    AllWrites(Disk(base, true, map[]), Disk(base, false, map[]), base, iset{}, writes, sectorSize);
  }

  /** With the overlay off, the file is the base image with the writes applied in order. */
  function PlainImage(base: seq<Byte>, writes: seq<SectorWrite>): seq<Byte>
    decreases |writes|
  {
    if writes == [] then base else PlainImage(Pwrite(base, writes[0].offset, writes[0].data), writes[1..])
  }

  lemma {:induction false} OffIsPlain(base: seq<Byte>, writes: seq<SectorWrite>, sectorSize: nat)
    requires sectorSize > 0
    ensures WriteAll(Disk(base, false, map[]), writes, sectorSize) == Disk(PlainImage(base, writes), false, map[])
    decreases |writes|
  {
    if writes != [] {
      OffIsPlain(Pwrite(base, writes[0].offset, writes[0].data), writes[1..], sectorSize);
    }
  }

  predicate EndsAtOrAfter(w: SectorWrite, n: nat) {
    w.data != [] && n <= w.offset + |w.data|
  }

  /** Some write that writes anything reaches up to `n`. */
  predicate Reached(writes: seq<SectorWrite>, n: nat) {
    exists i :: 0 <= i < |writes| && EndsAtOrAfter(writes[i], n)
  }

  /** How far the file grows, told from the writes alone. */
  lemma {:induction false} PlainLength(base: seq<Byte>, writes: seq<SectorWrite>, n: nat)
    ensures n <= |PlainImage(base, writes)| <==> n <= |base| || Reached(writes, n)
    decreases |writes|
  {
    if writes != [] {
      var w := writes[0];
      PlainLength(Pwrite(base, w.offset, w.data), writes[1..], n);
      assert Reached(writes, n) <==> EndsAtOrAfter(w, n) || Reached(writes[1..], n) by {
        assert writes == [w] + writes[1..];
      }
    }
  }

  /** Exactly when the overlay can be told from a plain file: a sector nobody wrote, not wholly
      inside the base image, that a write further on turns into a gap of the grown file. */
  lemma OverlayVisibleOnlyInGaps(base: seq<Byte>, writes: seq<SectorWrite>, offset: nat, sectorSize: nat)
    requires Aligned(offset, sectorSize)
    requires forall i :: 0 <= i < |writes| ==> WholeSectors(writes[i], sectorSize)
    ensures SectorAt(WriteAll(Disk(base, true, map[]), writes, sectorSize), offset, sectorSize)
            != SectorAt(WriteAll(Disk(base, false, map[]), writes, sectorSize), offset, sectorSize)
            <==> !Covered(writes, offset) && |base| < offset + sectorSize && Reached(writes, offset + sectorSize)
  {
    hide WriteAll, Covered, Reached;
    OverlayTransparent(base, writes, offset, sectorSize);
    OffIsPlain(base, writes, sectorSize);
    PlainLength(base, writes, offset + sectorSize);
  }

  /** An empty disk, and one sector written behind the first: reading the first sector fails
      with the overlay on and gives zeros with it off. */
  lemma GapIsVisible(data: seq<Byte>)
    requires data != []
    ensures var writes := [SectorWrite(|data|, data)];
            && SectorAt(WriteAll(Disk([], true, map[]), writes, |data|), 0, |data|) == None
            && SectorAt(WriteAll(Disk([], false, map[]), writes, |data|), 0, |data|) == Some(Zeros(|data|))
  {
    hide WriteAll, Pwrite;
    var writes := [SectorWrite(|data|, data)];
    QuotientIs(|data|, |data|, 1, 0);
    QuotientIs(0, |data|, 0, 0);
    OverlayTransparent([], writes, 0, |data|);
    OffIsPlain([], writes, |data|);
    GapOfZeros(data);
  }

  lemma GapOfZeros(data: seq<Byte>)
    requires data != []
    ensures PlainImage([], [SectorWrite(|data|, data)]) == Pwrite([], |data|, data)
    ensures |Pwrite([], |data|, data)| == 2 * |data| && Pwrite([], |data|, data)[..|data|] == Zeros(|data|)
  {
    assert [SectorWrite(|data|, data)][1..] == [];
  }
}
