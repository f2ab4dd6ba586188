/** Paper tape images in LDA form: the writer (raw_to_simh_bin.cpp) and the loader
    (loaders.cpp). A block is a header of six bytes, data, and a checksum. */
module Tape {
  import opened Words

  const HEADER: nat := 6
  const IO_PAGE: nat := 0xE000

  function Sum(bytes: seq<Byte>): int {
    if bytes == [] then 0 else Sum(bytes[..|bytes| - 1]) + bytes[|bytes| - 1]
  }

  // --- The writer ---

  function Block(count: nat, address: nat, data: seq<Byte>): seq<Byte> {
    [1, 0, count % 0x100, count / 0x100 % 0x100, address % 0x100, address / 0x100 % 0x100] + data
  }

  /** One block with the image and its checksum, one with the start address and none. */
  function Image(image: seq<Byte>, offset: nat, start: nat): seq<Byte> {
    var data := Block(|image| + HEADER, offset, image);
    data + [-Sum(data) % 0x100] + Block(HEADER, start, [])
  }

  /** The tape, byte for byte: a block of the count with its header, the address and the image,
      whose bytes with the one after them sum to zero, and a block of six bytes for the start. */
  lemma Format(image: seq<Byte>, offset: nat, start: nat)
    ensures var tape, n := Image(image, offset, start), |image| + 6;
            && |tape| == n + 7
            && tape[..n] == [1, 0, n % 0x100, n / 0x100 % 0x100, offset % 0x100, offset / 0x100 % 0x100] + image
            && Sum(tape[..n + 1]) % 0x100 == 0
            && tape[n + 1..] == [1, 0, 6, 0, start % 0x100, start / 0x100 % 0x100]
  {
    var tape, data := Image(image, offset, start), Block(|image| + 6, offset, image);
    assert tape[..|image| + 6] == data;
    assert tape[..|image| + 7] == data + [-Sum(data) % 0x100];
    SumSnoc(data, -Sum(data) % 0x100);
  }

  /** An output file and its running checksum. */
  class Writer {
    var out: seq<Byte>
    var csum: int

    constructor ()
      ensures out == [] && csum == 0
    {
      out, csum := [], 0;
    }

    method PutByte(byte: Byte)
      modifies this
      ensures out == old(out) + [byte] && csum == old(csum) - byte
    {
      csum := csum - byte;
      out := out + [byte];
    }

    method PutHeader(count: nat, address: nat)
      requires csum == -Sum(out)
      modifies this
      ensures out == old(out) + Block(count, address, []) && csum == -Sum(out)
    {
      ghost var was := out;
      PutByte(1);
      PutByte(0);
      PutByte(count % 0x100);
      PutByte(count / 0x100 % 0x100);
      PutByte(address % 0x100);
      PutByte(address / 0x100 % 0x100);
      SumConcat(was, Block(count, address, []));
      SumOfHeader(count, address);
      assert out == was + Block(count, address, []);
    }

    /** What `main` writes. */
    method WriteImage(image: seq<Byte>, offset: nat, start: nat)
      requires out == [] && csum == 0
      modifies this
      ensures out == Image(image, offset, start)
    {
      hide Block, Sum;
      NoSum();
      PutHeader(|image| + HEADER, offset);
      ghost var header := out;
      BlockData(|image| + HEADER, offset, image);
      for i := 0 to |image|
        invariant out == header + image[..i] && csum == -Sum(out)
      {
        assert header + image[..i + 1] == header + image[..i] + [image[i]];
        SumSnoc(header + image[..i], image[i]);
        PutByte(image[i]);
      }
      assert image[..|image|] == image;
      ghost var data := out;
      out := out + [csum % 0x100];
      PutRest(start, data);
    }

    /** The second header; its running checksum is not written. */
    method PutRest(start: nat, ghost data: seq<Byte>)
      modifies this
      ensures out == old(out) + Block(HEADER, start, [])
    {
      PutByte(1);
      PutByte(0);
      PutByte(6);
      PutByte(0);
      PutByte(start % 0x100);
      PutByte(start / 0x100 % 0x100);
    }
  }

  lemma NoSum()
    ensures Sum([]) == 0
  {
  }

  lemma BlockData(count: nat, address: nat, data: seq<Byte>)
    ensures [] + Block(count, address, []) + data == Block(count, address, data)
  {
  }

  lemma SumSnoc(bytes: seq<Byte>, b: Byte)
    ensures Sum(bytes + [b]) == Sum(bytes) + b
  {
    assert (bytes + [b])[..|bytes|] == bytes;
  }

  lemma {:induction false} SumConcat(a: seq<Byte>, b: seq<Byte>)
    ensures Sum(a + b) == Sum(a) + Sum(b)
    decreases |b|
  {
    if b == [] {
      assert a + b == a;
    } else {
      var init := b[..|b| - 1];
      assert (a + b)[..|a + b| - 1] == a + init;
      SumConcat(a, init);
    }
  }

  lemma SumOfHeader(count: nat, address: nat)
    ensures Sum(Block(count, address, []))
            == 1 + count % 0x100 + count / 0x100 % 0x100 + address % 0x100 + address / 0x100 % 0x100
  {
    var s: seq<Byte> := Block(count, address, []);
    assert s == [] + [1] + [0] + [s[2]] + [s[3]] + [s[4]] + [s[5]];
    SumSnoc([], 1);
    SumSnoc([] + [1], 0);
    SumSnoc([] + [1] + [0], s[2]);
    SumSnoc([] + [1] + [0] + [s[2]], s[3]);
    SumSnoc([] + [1] + [0] + [s[2]] + [s[3]], s[4]);
    SumSnoc([] + [1] + [0] + [s[2]] + [s[3]] + [s[4]], s[5]);
  }

  // --- The loader ---

  /** What loading leaves behind: memory, the start address, and for every block where its
      running checksum ended; or the memory at the first store that does not reach RAM. */
  datatype Loaded = Loaded(memory: seq<Byte>, start: Option<Word>, checks: seq<Byte>) | Stopped(memory: seq<Byte>)

  /** The RAM a program's store reaches with memory management off: what lies below the I/O page. */
  function Reach(memory: seq<Byte>): (n: nat)
    ensures n <= |memory| && n <= IO_PAGE
  {
    Min(IO_PAGE, |memory|)
  }

  /** How many bytes from `p` on can be stored. */
  function Room(memory: seq<Byte>, p: nat): nat {
    Max(0, Reach(memory) - p)
  }

  /** Memory with `data` stored from `p` on. */
  function Stored(memory: seq<Byte>, p: nat, data: seq<Byte>): (r: seq<Byte>)
    requires |data| <= Room(memory, p)
    ensures |r| == |memory|
  {
    if data == [] then memory else memory[..p] + data + memory[p + |data|..]
  }

  function Count(tape: seq<Byte>): nat
    requires |tape| >= HEADER
  {
    tape[3] as int * 0x100 + tape[2]
  }

  function Address(tape: seq<Byte>): Word
    requires |tape| >= HEADER
  {
    tape[5] as int * 0x100 + tape[4]
  }

  /** The data of the first block, as much as there is. */
  function Data(tape: seq<Byte>): seq<Byte>
    requires |tape| >= HEADER
  {
    tape[HEADER..Min(|tape|, HEADER + Max(0, Count(tape) - HEADER))]
  }

  /** Header without its first two bytes, data, and the byte after them, or -1 at the end. */
  function Check(tape: seq<Byte>): Byte
    requires |tape| >= HEADER
  {
    var end := HEADER + |Data(tape)|;
    (Sum(tape[2..HEADER]) + Sum(Data(tape)) + if end < |tape| then tape[end] as int else -1) % 0x100
  }

  function AfterBlock(tape: seq<Byte>): (rest: seq<Byte>)
    requires |tape| >= HEADER
    ensures |rest| < |tape|
  {
    var end := HEADER + |Data(tape)|;
    if end < |tape| then tape[end + 1..] else []
  }

  function Load(tape: seq<Byte>, l: Loaded): Loaded
    decreases |tape|
  {
    if l.Stopped? || |tape| < HEADER || Count(tape) == 0 || Address(tape) == 1 then l
    else
      var p, data := Address(tape), Data(tape);
      var room := Room(l.memory, p);
      if |data| > room then Stopped(Stored(l.memory, p, data[..room]))
      else
        Load(AfterBlock(tape),
             Loaded(Stored(l.memory, p, data),
                    if Count(tape) == HEADER then Some(p) else l.start, l.checks + [Check(tape)]))
  }

  /** One more byte of a block: `b->write_byte(p++, c)`. */
  lemma StoredSnoc(memory: seq<Byte>, p: nat, data: seq<Byte>, i: nat)
    requires i < |data| && i < Room(memory, p)
    ensures Stored(memory, p, data[..i + 1]) == Stored(memory, p, data[..i])[p + i := data[i]]
  {
    assert data[..i + 1] == data[..i] + [data[i]];
  }

  /** The data bytes of one block, summed and stored one by one; `n` is how many there were. */
  method LoadData(rest: seq<Byte>, memory: array<Byte>) returns (csum: int, n: nat, stopped: bool)
    requires |rest| >= HEADER
    modifies memory
    ensures var data, room := Data(rest), Room(old(memory[..]), Address(rest));
            && stopped == (|data| > room)
            && memory[..] == Stored(old(memory[..]), Address(rest), if stopped then data[..room] else data)
            && (!stopped ==> n == |data| && csum == Sum(rest[2..HEADER]) + Sum(data))
  {
    hide Stored, Sum, Data;
    ghost var was, data, base := memory[..], Data(rest), Address(rest);
    var count: int, p: nat := Count(rest), Address(rest);
    csum := rest[2] as int + rest[3] as int + rest[4] as int + rest[5] as int;
    n, stopped := 0, false;
    DataBytes(rest);
    SumOfFour(rest);
    StoredNothing(was, base);
    while n < count - 6 && HEADER + n < |rest|
      invariant n <= |data| && n <= Room(was, base) && p == base + n && memory[..] == Stored(was, base, data[..n])
      invariant csum == Sum(rest[2..HEADER]) + Sum(data[..n])
    {
      var c := rest[HEADER + n];
      if p >= IO_PAGE || p >= memory.Length {
        stopped := true;
        return;
      }
      StoredSnoc(was, base, data, n);
      assert data[..n + 1] == data[..n] + [c];
      SumSnoc(data[..n], c);
      csum := csum + c;
      memory[p] := c;
      p, n := p + 1, n + 1;
    }
    assert data[..|data|] == data;
  }

  /** `load_tape` from an open file, with memory management off. */
  method LoadTape(file: seq<Byte>, memory: array<Byte>)
      returns (start: Option<Word>, stopped: bool, ghost checks: seq<Byte>)
    modifies memory
    ensures Load(file, Loaded(old(memory[..]), None, []))
            == if stopped then Stopped(memory[..]) else Loaded(memory[..], start, checks)
  {
    hide Stored, Sum, Data, Room, Load, Count, Address, Check, AfterBlock;
    start, stopped, checks := None, false, [];
    var rest := file;
    while |rest| >= HEADER
      invariant Load(file, Loaded(old(memory[..]), None, [])) == Load(rest, Loaded(memory[..], start, checks))
      decreases |rest|
    {
      LoadStep(rest, memory[..], start, checks);
      if Count(rest) == 0 || Address(rest) == 1 {
        return;
      }
      if Count(rest) == 6 {
        start := Some(Address(rest));
      }
      var csum, n;
      csum, n, stopped := LoadData(rest, memory);
      if stopped {
        return;
      }
      EndOfBlock(rest);
      checks := checks + [(csum + if HEADER + n < |rest| then rest[HEADER + n] as int else -1) % 0x100];
      rest := if HEADER + n < |rest| then rest[HEADER + n + 1..] else [];
    }
    LoadEnds(rest, memory[..], start, checks);
  }

  /** One block. */
  lemma LoadStep(tape: seq<Byte>, memory: seq<Byte>, start: Option<Word>, checks: seq<Byte>)
    requires |tape| >= HEADER
    ensures var l, p, data := Loaded(memory, start, checks), Address(tape), Data(tape);
            Load(tape, l) ==
            if Count(tape) == 0 || p == 1 then l
            else if |data| > Room(memory, p) then Stopped(Stored(memory, p, data[..Room(memory, p)]))
            else
              Load(AfterBlock(tape),
                   Loaded(Stored(memory, p, data),
                          if Count(tape) == HEADER then Some(p) else start, checks + [Check(tape)]))
  {
    hide Stored, Data, Room, Count, Address, Check, AfterBlock;
  }

  lemma LoadEnds(tape: seq<Byte>, memory: seq<Byte>, start: Option<Word>, checks: seq<Byte>)
    requires |tape| < HEADER
    ensures Load(tape, Loaded(memory, start, checks)) == Loaded(memory, start, checks)
  {
  }

  lemma EndOfBlock(tape: seq<Byte>)
    requires |tape| >= HEADER
    ensures var end := HEADER + |Data(tape)|;
            && Check(tape) ==
               (Sum(tape[2..HEADER]) + Sum(Data(tape)) + if end < |tape| then tape[end] as int else -1) % 0x100
            && AfterBlock(tape) == if end < |tape| then tape[end + 1..] else []
  {
    hide Sum, Data;
  }

  lemma DataBytes(tape: seq<Byte>)
    requires |tape| >= HEADER
    ensures var data := Data(tape);
            |data| == Max(0, Min(|tape| - HEADER, Count(tape) - HEADER))
            && forall i :: 0 <= i < |data| ==> data[i] == tape[HEADER + i]
  {
  }

  lemma SumOfFour(tape: seq<Byte>)
    requires |tape| >= HEADER
    ensures Sum(tape[2..HEADER]) == tape[2] as int + tape[3] as int + tape[4] as int + tape[5] as int
  {
    assert tape[2..HEADER] == [] + [tape[2]] + [tape[3]] + [tape[4]] + [tape[5]];
    SumSnoc([], tape[2]);
    SumSnoc([] + [tape[2]], tape[3]);
    SumSnoc([] + [tape[2]] + [tape[3]], tape[4]);
    SumSnoc([] + [tape[2]] + [tape[3]] + [tape[4]], tape[5]);
  }

  lemma StoredNothing(memory: seq<Byte>, p: nat)
    ensures Stored(memory, p, []) == memory && Sum([]) == 0
  {
  }

  // --- The round trip ---

  /** The first block of a written tape. */
  lemma FirstBlock(image: seq<Byte>, offset: nat, start: nat)
    requires |image| < 65530 && offset < 0x1_0000
    ensures var tape := Image(image, offset, start);
            && |tape| >= HEADER && Count(tape) == |image| + HEADER && Address(tape) == offset && Data(tape) == image
            && AfterBlock(tape) == Block(HEADER, start, []) && Check(tape) == 255
  {
    hide Sum;
    var tape, data := Image(image, offset, start), Block(|image| + HEADER, offset, image);
    assert tape[HEADER..HEADER + |image|] == image;
    assert tape[HEADER + |image|] == -Sum(data) % 0x100;
    SumOfFour(tape);
    SumConcat(Block(|image| + HEADER, offset, []), image);
    BlockData(|image| + HEADER, offset, image);
    SumOfHeader(|image| + HEADER, offset);
    assert [] + Block(|image| + HEADER, offset, []) == Block(|image| + HEADER, offset, []);
    Complement(Sum(data));
  }

  lemma Complement(sum: int)
    ensures (sum - 1 + -sum % 0x100) % 0x100 == 255
  {
  }

  /** The last block, which has no checksum. */
  lemma LastBlock(start: nat)
    requires start < 0x1_0000
    ensures var tape: seq<Byte> := Block(HEADER, start, []);
            |tape| == HEADER && Count(tape) == HEADER && Address(tape) == start && Data(tape) == []
            && AfterBlock(tape) == []
  {
  }

  /** Loading what was written, for every image that fits a block: the image is at its address
      and nowhere else, the start address comes back, and the data block's checksum is right.
      A load address of 1 ends the load at once; an image that does not fit below the I/O page
      stops it at the first byte that does not; a start address of 1 is not taken over, and an
      empty image then leaves its load address instead. */
  lemma LoadWritten(image: seq<Byte>, offset: nat, start: nat, memory: seq<Byte>)
    requires |image| < 65530 && start < 0x1_0000 && offset < 0x1_0000
    ensures var l, room := Load(Image(image, offset, start), Loaded(memory, None, [])), Room(memory, offset);
            if offset == 1 then l == Loaded(memory, None, [])
            else if |image| > room then l == Stopped(Stored(memory, offset, image[..room]))
            else
              && l.Loaded? && l.memory == Stored(memory, offset, image) && l.checks != [] && l.checks[0] == 255
              && l.start == (if start != 1 then Some(start) else if image == [] then Some(offset) else None)
  {
    hide Image, Block, Stored, Count, Address, Data, Check, AfterBlock, Room;
    FirstBlock(image, offset, start);
    LastBlock(start);
    if offset != 1 && |image| <= Room(memory, offset) {
      var placed := Stored(memory, offset, image);
      NothingMore(placed, start);
      var first := Loaded(placed, if image == [] then Some(offset) else None, [255]);
      assert [] + [255 as Byte] == [255];
      assert Load(Image(image, offset, start), Loaded(memory, None, [])) == Load(Block(HEADER, start, []), first);
      if start != 1 {
        var last := Loaded(placed, Some(start), [255] + [Check(Block(HEADER, start, []))]);
        assert Load(Block(HEADER, start, []), first) == Load([], last) == last;
      }
    }
  }

  lemma NothingMore(memory: seq<Byte>, p: nat)
    ensures 0 <= Room(memory, p) && Stored(memory, p, []) == memory
  {
  }

  /** Memory holds the image at its address, is otherwise as before, and the start address is
      the one written. */
  predicate Delivered(l: Loaded, memory: seq<Byte>, image: seq<Byte>, offset: nat, start: nat) {
    && l.Loaded? && l.start == Some(start)
    && if image == [] then l.memory == memory
       else offset + |image| <= |memory| && l.memory == memory[..offset] + image + memory[offset + |image|..]
  }

  /** The round trip holds exactly when neither address is 1, which the loader takes for the
      end of the tape, and the image fits into RAM below the I/O page. */
  lemma RoundTrip(image: seq<Byte>, offset: nat, start: nat, memory: seq<Byte>)
    requires |image| < 65530 && start < 0x1_0000 && offset < 0x1_0000
    ensures Delivered(Load(Image(image, offset, start), Loaded(memory, None, [])), memory, image, offset, start)
            <==> offset != 1 && start != 1 && (image == [] || offset + |image| <= Min(IO_PAGE, |memory|))
  {
    hide Load, Image;
    LoadWritten(image, offset, start, memory);
  }

  /** Two tapes that do not come back: a start address of 1 is lost, and a byte for the I/O page
      never reaches memory. */
  lemma LostTapes(memory: seq<Byte>)
    requires |memory| == 0x1_0000
    ensures Load(Image([7], 0x200, 1), Loaded(memory, None, [])) == Loaded(memory[0x200 := 7], None, [255])
    ensures Load(Image([7], IO_PAGE, 2), Loaded(memory, None, [])) == Stopped(memory)
  {
    hide Image, Block, Count, Address, Data, Check, AfterBlock;
    FirstBlock([7], 0x200, 1);
    LastBlock(1);
    assert memory[..0x200] + [7] + memory[0x201..] == memory[0x200 := 7];
    assert Load(Block(HEADER, 1, []), Loaded(memory[0x200 := 7], None, [255]))
           == Loaded(memory[0x200 := 7], None, [255]);
    assert [] + [255 as Byte] == [255];
    FirstBlock([7], IO_PAGE, 2);
    assert [7 as Byte][..0] == [];
  }
}
