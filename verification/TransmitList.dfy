/** What a driver means by the list it gives the DEQNA (deqna.cpp): buffers to gather, frames to
    end and jumps to other descriptors, and what the device makes of such a list. */
module TransmitList {
  import opened Words
  import opened Bits
  import opened Division
  import opened Hardware
  import opened Deqna

  /** One descriptor: its place, and a buffer of words or the place of the next descriptor. */
  datatype Item =
    | Piece(at: nat, address: nat, words: nat, end: bool)
    | Link(at: nat, to: nat, end: bool)
  {
    /** What a driver can ask for: 22-bit addresses, up to 1024 words in a buffer. */
    predicate Possible() {
      match this
      case Piece(_, address, words, _) => address < 0x40_0000 && 0 < words <= 0x400
      case Link(_, to, _) => to < 0x40_0000
    }

    /** The second word: bit 15 a valid descriptor, bit 14 a jump, bit 13 the end of a frame, then
        the high address bits. */
    function High(): nat {
      match this
      case Piece(_, address, _, end) => 0x8000 + (if end then 0x2000 else 0) + address / 0x1_0000
      case Link(_, to, end) => 0xC000 + (if end then 0x2000 else 0) + to / 0x1_0000
    }

    function Low(): nat {
      (if Piece? then address else to) % 0x1_0000
    }

    /** Where the next descriptor is. */
    function Next(): nat {
      if Piece? then at + 12 else to
    }

    /** The bytes of the buffer. */
    function Bytes(ram: seq<Byte>): seq<Byte>
      requires Piece? ==> address + 2 * words <= |ram|
    {
      if Piece? then ram[address..address + 2 * words] else []
    }
  }

  /** A word in memory, low byte first. */
  predicate Holds(ram: seq<Byte>, a: nat, v: int) {
    a + 1 < |ram| && ram[a] == v % 0x100 && ram[a + 1] == v / 0x100
  }

  /** A driver has written this descriptor. */
  predicate Written(ram: seq<Byte>, item: Item) {
    && item.Possible() && item.at + 12 <= |ram|
    && Holds(ram, item.at + 2, item.High()) && Holds(ram, item.at + 4, item.Low())
    && (item.Piece? ==>
          Holds(ram, item.at + 6, 0x1_0000 - item.words) && item.address + 2 * item.words <= |ram|)
  }

  predicate AllWritten(ram: seq<Byte>, items: seq<Item>) {
    forall i :: 0 <= i < |items| ==> Written(ram, items[i])
  }

  /** A list from `p` on, in order, closed at `stop` by a descriptor that is not valid or lies
      outside memory. */
  predicate Listed(ram: seq<Byte>, p: nat, items: seq<Item>, stop: nat)
    decreases items
  {
    if items == [] then p == stop && (stop + 12 > |ram| || ram[stop + 3] < 0x80)
    else items[0].at == p && Written(ram, items[0]) && Listed(ram, items[0].Next(), items[1..], stop)
  }

  /** No descriptor comes twice. */
  predicate Once(items: seq<Item>) {
    forall i, j :: 0 <= i < j < |items| ==> items[i].at != items[j].at
  }

  function Places(items: seq<Item>): (r: seq<nat>)
    ensures |r| == |items|
  {
    seq(|items|, i requires 0 <= i < |items| => items[i].at)
  }

  /** The frames a list means: what is gathered up to each end, cut at 1514 bytes, unless there
      is nothing. */
  function Meant(ram: seq<Byte>, items: seq<Item>, gathered: seq<Byte>): seq<seq<Byte>>
    requires AllWritten(ram, items)
    decreases items
  {
    if items == [] then []
    else
      assert Written(ram, items[0]);
      var frame := gathered + items[0].Bytes(ram);
      if !items[0].end then Meant(ram, items[1..], frame)
      else (if frame == [] then [] else [if |frame| <= 1514 then frame else frame[..1514]]) + Meant(ram, items[1..], [])
  }

  // --- One descriptor ---

  lemma HighFields(item: Item)
    requires item.Possible()
    ensures var h := item.High();
            h < 0x1_0000 && h / 0x8000 == 1 && (h / 0x4000 % 2 == 1 <==> item.Link?)
            && (h / 0x2000 % 2 == 1 <==> item.end)
            && h % 0x40 * 0x1_0000 + item.Low() == if item.Piece? then item.address else item.to
  {
    var a := if item.Piece? then item.address else item.to;
    var link, end, high := if item.Link? then 1 else 0, if item.end then 1 else 0, a / 0x1_0000;
    assert high < 0x40;
    assert item.High() == 0x8000 + link * 0x4000 + end * 0x2000 + high;
  }

  lemma WordHeld(ram: seq<Byte>, a: nat, v: Word)
    requires Holds(ram, a, v)
    ensures UnibusWord(ram, a) == v
  {
  }

  /** The device takes a descriptor for what the driver meant. */
  lemma ItemIs(ram: seq<Byte>, item: Item)
    requires Written(ram, item)
    ensures Passes(ram, item.at) && Deqna.Next(ram, item.at) == item.Next()
    ensures Buffer(ram, item.at) == item.Bytes(ram) && IsEnd(ram, item.at) == item.end
    ensures item.Piece? ==> Target(ram, item.at) == item.address && Length(ram, item.at) == 2 * item.words
    ensures IsChain(ram, item.at) == item.Link?
  {
    hide UnibusWord, Holds;
    HighFields(item);
    WordHeld(ram, item.at + 2, item.High());
    WordHeld(ram, item.at + 4, item.Low());
    if item.Piece? {
      WordHeld(ram, item.at + 6, 0x1_0000 - item.words);
    }
    hide Item.High, Item.Low;
  }

  lemma CloseIs(ram: seq<Byte>, stop: nat)
    requires stop + 12 > |ram| || ram[stop + 3] < 0x80
    ensures !Passes(ram, stop)
  {
  }

  // --- The walk ---

  lemma {:induction false} ListWritten(ram: seq<Byte>, p: nat, items: seq<Item>, stop: nat)
    requires Listed(ram, p, items, stop)
    ensures AllWritten(ram, items) && !Passes(ram, stop)
    decreases items
  {
    hide Written;
    if items == [] {
      CloseIs(ram, stop);
    } else {
      ListWritten(ram, items[0].Next(), items[1..], stop);
      forall i | 0 <= i < |items| ensures Written(ram, items[i]) {
        assert i > 0 ==> items[i] == items[1..][i - 1];
      }
    }
  }

  /** The device walks through exactly the descriptors of the list. */
  lemma {:induction false} WalkIsList(ram: seq<Byte>, p: nat, items: seq<Item>, stop: nat, seen: set<nat>)
    requires Listed(ram, p, items, stop) && Once(items)
    requires forall i :: 0 <= i < |items| ==> items[i].at !in seen
    ensures Walk(ram, p, seen) == Places(items) && Stop(ram, p, seen) == stop
    decreases items
  {
    hide Written, Passes;
    ListWritten(ram, p, items, stop);
    if items != [] {
      assert Written(ram, items[0]);
      ItemIs(ram, items[0]);
      forall i | 0 <= i < |items[1..]| ensures items[1..][i].at !in seen + {p} {
        assert items[0].at != items[i + 1].at;
      }
      WalkIsList(ram, items[0].Next(), items[1..], stop, seen + {p});
      assert p in Unvisited(ram, seen) by {
        PassesInRange(ram, p);
      }
      assert Places(items) == [p] + Places(items[1..]);
    }
  }

  lemma PassesInRange(ram: seq<Byte>, p: nat)
    requires Passes(ram, p)
    ensures InRange(ram, p) && p < |ram|
  {
  }

  // --- The frames ---

  lemma {:induction false} FramesMeant(ram: seq<Byte>, before: seq<nat>, items: seq<Item>)
    requires AllWritten(ram, items)
    ensures Frames(ram, before + Places(items)) == Frames(ram, before) + Meant(ram, items, Since(ram, before))
    decreases items
  {
    hide Written, Frames, Since, Buffer, IsEnd, Cut, Places, Meant, Item.Bytes;
    if items == [] {
      NothingMeant(ram, before);
    } else {
      var item := items[0];
      RestWritten(ram, items);
      ItemIs(ram, item);
      hide AllWritten;
      FramesSnoc(ram, before, item.at);
      FramesMeant(ram, before + [item.at], items[1..]);
      PlacesSplit(before, items);
      MeantNext(ram, items, Since(ram, before), Frames(ram, before));
    }
  }

  lemma NothingMeant(ram: seq<Byte>, before: seq<nat>)
    ensures Frames(ram, before + Places([])) == Frames(ram, before) + Meant(ram, [], Since(ram, before))
  {
    hide Frames, Since;
    assert before + Places([]) == before;
    assert Frames(ram, before) + [] == Frames(ram, before);
  }

  lemma RestWritten(ram: seq<Byte>, items: seq<Item>)
    requires AllWritten(ram, items) && items != []
    ensures Written(ram, items[0]) && AllWritten(ram, items[1..])
  {
    hide Written;
    forall i | 0 <= i < |items[1..]| ensures Written(ram, items[1..][i]) {
      assert Written(ram, items[i + 1]);
    }
  }

  lemma PlacesSplit(before: seq<nat>, items: seq<Item>)
    requires items != []
    ensures before + Places(items) == before + [items[0].at] + Places(items[1..])
  {
  }

  lemma MeantNext(ram: seq<Byte>, items: seq<Item>, gathered: seq<Byte>, sent: seq<seq<Byte>>)
    requires AllWritten(ram, items) && items != [] && AllWritten(ram, items[1..]) && Written(ram, items[0])
    ensures var frame := gathered + items[0].Bytes(ram);
            var now := if items[0].end && frame != [] then [Cut(frame)] else [];
            sent + Meant(ram, items, gathered)
            == sent + now + Meant(ram, items[1..], if items[0].end then [] else frame)
  {
    var frame := gathered + items[0].Bytes(ram);
    CutIs(frame);
    hide Cut, Written, AllWritten;
    var now := if items[0].end && frame != [] then [Cut(frame)] else [];
    Associate(sent, now, Meant(ram, items[1..], if items[0].end then [] else frame));
  }

  lemma Associate(a: seq<seq<Byte>>, b: seq<seq<Byte>>, c: seq<seq<Byte>>)
    ensures a + (b + c) == a + b + c && (b == [] ==> b + c == c)
  {
  }

  lemma CutIs(s: seq<Byte>)
    ensures Cut(s) == if |s| <= 1514 then s else s[..1514]
  {
  }

  // --- Descriptors and buffers apart ---

  /** The bytes from `lo` to `hi` are outside a descriptor. */
  predicate Off(lo: nat, hi: nat, item: Item) {
    hi <= item.at || item.at + 12 <= lo
  }

  predicate BufferOff(item: Item, other: Item) {
    item.Piece? ==> Off(item.address, item.address + 2 * item.words, other)
  }

  /** Descriptors do not overlap each other or the closing one, and no buffer overlaps a
      descriptor up to its own. */
  predicate Separate(ram: seq<Byte>, items: seq<Item>, stop: nat) {
    && (forall i, j :: 0 <= i < j < |items| ==> Off(items[j].at, items[j].at + 12, items[i]))
    && (forall i, j :: 0 <= i <= j < |items| ==> BufferOff(items[j], items[i]))
    && (stop + 12 <= |ram| ==> forall i :: 0 <= i < |items| ==> Off(stop, stop + 12, items[i]))
  }

  lemma OffIsClear(items: seq<Item>, k: nat, lo: nat, hi: nat)
    requires k <= |items| && forall j :: 0 <= j < k ==> Off(lo, hi, items[j])
    ensures Clear(Places(items)[..k], lo, hi)
  {
    var ws := Places(items)[..k];
    forall d | d in ws ensures hi <= d || d + DESCRIPTOR <= lo {
      var j :| 0 <= j < k && ws[j] == d;
      assert Off(lo, hi, items[j]);
    }
  }

  lemma BufferApart(ram: seq<Byte>, items: seq<Item>, stop: nat, i: nat)
    requires AllWritten(ram, items) && Separate(ram, items, stop) && i < |items| && !IsChain(ram, items[i].at)
    ensures var d := items[i].at; Clear(Places(items)[..i + 1], Target(ram, d), Target(ram, d) + Length(ram, d))
  {
    hide Written, Clear, Off, Target, Length, IsChain;
    assert Written(ram, items[i]);
    ItemIs(ram, items[i]);
    forall j | 0 <= j < i + 1 ensures Off(items[i].address, items[i].address + 2 * items[i].words, items[j]) {
      assert BufferOff(items[i], items[j]);
    }
    OffIsClear(items, i + 1, items[i].address, items[i].address + 2 * items[i].words);
  }

  lemma ListApart(ram: seq<Byte>, items: seq<Item>, stop: nat)
    requires AllWritten(ram, items) && Separate(ram, items, stop)
    ensures Apart(ram, Places(items), stop)
  {
    hide Written, Clear, Off, Target, Length, IsChain;
    var ws := Places(items);
    forall i | 0 <= i < |ws| ensures Clear(ws[..i], ws[i], ws[i] + DESCRIPTOR) {
      OffIsClear(items, i, items[i].at, items[i].at + 12);
    }
    forall i | 0 <= i < |ws| && !IsChain(ram, ws[i])
      ensures Clear(ws[..i + 1], Target(ram, ws[i]), Target(ram, ws[i]) + Length(ram, ws[i]))
    {
      BufferApart(ram, items, stop, i);
    }
    assert ws[..|ws|] == ws;
    if stop + 12 <= |ram| {
      OffIsClear(items, |items|, stop, stop + 12);
    }
  }

  /** Whatever a driver writes as a list, with jumps and buffers as it likes: the device may walk
      it, walks through exactly its descriptors, and the frames it hands on are those meant. */
  lemma ListIsSent(ram: seq<Byte>, p: nat, items: seq<Item>, stop: nat)
    requires Listed(ram, p, items, stop) && Separate(ram, items, stop)
    ensures AllWritten(ram, items)
    ensures NoRepeat(ram, p) && Apart(ram, Walk(ram, p, {}), Stop(ram, p, {}))
    ensures Walk(ram, p, {}) == Places(items) && Stop(ram, p, {}) == stop
    ensures Frames(ram, Walk(ram, p, {})) == Meant(ram, items, [])
  {
    hide Written, Frames, Passes, Walk, Stop, Apart, Meant, Listed, Separate, AllWritten, Once, Places;
    ListWritten(ram, p, items, stop);
    SeparateOnce(ram, items, stop);
    WalkIsList(ram, p, items, stop, {});
    ListApart(ram, items, stop);
    AllMeant(ram, items);
  }

  lemma AllMeant(ram: seq<Byte>, items: seq<Item>)
    requires AllWritten(ram, items)
    ensures Frames(ram, Places(items)) == Meant(ram, items, [])
  {
    hide Frames, Meant, Places, AllWritten, Since;
    FramesMeant(ram, [], items);
    NoFrames(ram);
    assert [] + Places(items) == Places(items);
    Associate([], [], Meant(ram, items, []));
  }

  lemma SeparateOnce(ram: seq<Byte>, items: seq<Item>, stop: nat)
    requires Separate(ram, items, stop)
    ensures Once(items)
  {
    forall i, j | 0 <= i < j < |items| ensures items[i].at != items[j].at {
      assert Off(items[j].at, items[j].at + 12, items[i]);
    }
  }

  lemma NoFrames(ram: seq<Byte>)
    ensures Frames(ram, []) == [] && Since(ram, []) == []
  {
  }

  // --- What the driver finds afterwards ---

  /** A descriptor the device is done with: bit 14 of its flags is clear, address and size are as
      they were, and at the end of a frame the status words are 0x2000 and 0. */
  predicate Returned(ram: seq<Byte>, now: seq<Byte>, item: Item)
    requires item.at + 12 <= |ram| == |now|
  {
    var flags := ram[item.at + 1] as int;
    && now[item.at] == ram[item.at] && now[item.at + 1] == flags - flags / 0x40 % 2 * 0x40
    && now[item.at + 2..item.at + 8] == ram[item.at + 2..item.at + 8]
    && if item.end then Holds(now, item.at + 8, 0x2000) && Holds(now, item.at + 10, 0)
       else now[item.at + 8..item.at + 12] == ram[item.at + 8..item.at + 12]
  }

  lemma PassedIs(ram: seq<Byte>, item: Item)
    requires item.at + 12 <= |ram|
    ensures Returned(ram, Passed(ram, item.at, UnibusWord(ram, item.at), item.end), item)
  {
    var flags, high := UnibusWord(ram, item.at), ram[item.at + 1] as int;
    QuotientIs(flags, 0x4000, high / 0x40, high % 0x40 * 0x100 + ram[item.at] as int);
    if high / 0x40 % 2 == 1 {
      ClearedFlags(ram[item.at], ram[item.at + 1]);
    }
  }

  lemma ClearedFlags(low: Byte, high: Byte)
    requires high / 0x40 % 2 == 1
    ensures var w := low as int + high as int * 0x100 - 0x4000; w >= 0 && w % 0x100 == low && w / 0x100 == high - 0x40
  {
  }

  lemma ReturnedLocal(ram: seq<Byte>, before: seq<Byte>, after: seq<Byte>, now: seq<Byte>, item: Item)
    requires item.at + 12 <= |ram| == |before| == |after| == |now| && Returned(before, after, item)
    requires before[item.at..item.at + 12] == ram[item.at..item.at + 12]
    requires now[item.at..item.at + 12] == after[item.at..item.at + 12]
    ensures Returned(ram, now, item)
  {
    forall k | item.at <= k < item.at + 12 ensures before[k] == ram[k] && now[k] == after[k] {
      assert before[item.at..item.at + 12][k - item.at] == before[k];
      assert now[item.at..item.at + 12][k - item.at] == now[k];
    }
    assert after[item.at + 2..item.at + 8] == before[item.at + 2..item.at + 8];
    forall k | item.at + 2 <= k < item.at + 8 ensures now[k] == ram[k] {
      assert after[item.at + 2..item.at + 8][k - item.at - 2] == before[item.at + 2..item.at + 8][k - item.at - 2];
    }
    assert now[item.at + 2..item.at + 8] == ram[item.at + 2..item.at + 8];
    if !item.end {
      forall k | item.at + 8 <= k < item.at + 12 ensures now[k] == ram[k] {
        assert after[item.at + 8..item.at + 12][k - item.at - 8] == before[item.at + 8..item.at + 12][k - item.at - 8];
      }
      assert now[item.at + 8..item.at + 12] == ram[item.at + 8..item.at + 12];
    }
  }

  /** Descriptors passed later leave an earlier one alone. */
  lemma {:induction false} LaterSpare(ram: seq<Byte>, ws: seq<nat>, k: nat, lo: nat, hi: nat)
    requires k <= |ws| && lo <= hi <= |ram|
    requires forall j :: k <= j < |ws| ==> hi <= ws[j] || ws[j] + DESCRIPTOR <= lo
    ensures Memory(ram, ws)[lo..hi] == Memory(ram, ws[..k])[lo..hi]
    decreases |ws|
  {
    hide Passed, IsEnd;
    if k == |ws| {
      assert ws[..k] == ws;
    } else {
      var init, last := ws[..|ws| - 1], ws[|ws| - 1];
      LaterSpare(ram, init, k, lo, hi);
      assert init[..k] == ws[..k];
      var before, after := Memory(ram, init), Memory(ram, ws);
      assert after == Passed(before, last, UnibusWord(ram, last), IsEnd(ram, last));
      assert after[lo..hi] == before[lo..hi];
    }
  }

  /** One descriptor, as the device comes to it and as it leaves it. */
  lemma ReturnedAtOnce(ram: seq<Byte>, items: seq<Item>, i: nat, m: seq<Byte>)
    requires i < |items| && Written(ram, items[i])
    requires forall j :: 0 <= j < i ==> Off(items[i].at, items[i].at + 12, items[j])
    requires m == Memory(ram, Places(items)[..i])
    ensures items[i].at + 12 <= |ram| == |m| && m[items[i].at..items[i].at + 12] == ram[items[i].at..items[i].at + 12]
    ensures Returned(m, Memory(ram, Places(items)[..i + 1]), items[i])
  {
    hide Passed, Returned, Memory, UnibusWord, Buffer, Off, Clear;
    var ws, item := Places(items), items[i];
    ItemIs(ram, item);
    hide Written, IsEnd, IsChain, Target, Length, Passes;
    OffIsClear(items, i, item.at, item.at + 12);
    ClearSurvives(ram, ws[..i], item.at, item.at + 12);
    SameDescriptor(ram, m, item.at);
    PassedIs(m, item);
    MemorySnoc(ram, ws, i);
  }

  /** The driver finds every descriptor of its list returned. */
  lemma ListReturned(ram: seq<Byte>, items: seq<Item>, stop: nat, i: nat)
    requires AllWritten(ram, items) && Separate(ram, items, stop) && i < |items|
    ensures items[i].at + 12 <= |ram| && Returned(ram, Memory(ram, Places(items)), items[i])
  {
    hide Returned, Memory, Written, BufferOff;
    var ws, item := Places(items), items[i];
    assert Written(ram, item);
    var before := Memory(ram, ws[..i]);
    ReturnedAtOnce(ram, items, i, before);
    forall j | i + 1 <= j < |ws| ensures item.at + 12 <= ws[j] || ws[j] + DESCRIPTOR <= item.at {
      assert Off(items[j].at, items[j].at + 12, item);
    }
    hide AllWritten, Separate;
    LaterSpare(ram, ws, i + 1, item.at, item.at + 12);
    ReturnedLocal(ram, before, Memory(ram, ws[..i + 1]), Memory(ram, ws), item);
  }

  lemma MemorySnoc(ram: seq<Byte>, ws: seq<nat>, i: nat)
    requires i < |ws|
    ensures Memory(ram, ws[..i + 1]) == Passed(Memory(ram, ws[..i]), ws[i], UnibusWord(ram, ws[i]), IsEnd(ram, ws[i]))
  {
    assert ws[..i + 1][..i] == ws[..i];
  }

  // --- The registers ---

  /** A driver starts a list at a 22-bit address it writes to registers 4 and 5, whatever else
      the high register holds. */
  lemma StartIs(registers: seq<Word>, p: nat, other: nat)
    requires |registers| == 8 && p < 0x40_0000 && other < 0x400
    requires registers[4] == p % 0x1_0000 && registers[5] == other * 0x40 + p / 0x1_0000
    ensures Start(registers) == p
  {
    QuotientIs(registers[5], 0x40, other, p / 0x1_0000);
  }

  /** Frames go to the wire when bit 8 of CSR is set and back to the receive queue, which keeps
      one, when it is not; an end with bit 6 set asks for the vector in bits 9..2 of register 6. */
  lemma FramesGo(e: Effects, frames: seq<seq<Byte>>, ended: bool)
    requires |e.registers| == 8
    ensures var r, csr := HandedOn(e, frames, ended), e.registers[CSR];
            && (if BitOf(csr, 8) then r.wire == e.wire + frames && r.received == e.received
                else r.wire == e.wire
                     && r.received == if e.received == [] && frames != [] then [frames[0]] else e.received)
            && (ended && BitOf(csr, 6) ==>
                  exists vector: Word :: r.vectors == e.vectors + {vector} && VectorOf(e, vector))
            && (!(ended && BitOf(csr, 6)) ==> r.vectors == e.vectors)
            && (!ended ==> r.registers == e.registers)
  {
    assert Pow2(8) == 0x100 && Pow2(6) == 0x40;
    VectorIs(e);
  }

  /** The vector register without bits 15..10, 1 and 0. */
  predicate VectorOf(e: Effects, vector: Word)
    requires |e.registers| == 8
  {
    forall i :: 0 <= i < 16 ==> BitOf(vector, i) == (2 <= i < 10 && BitOf(e.registers[6], i))
  }

  lemma VectorIs(e: Effects)
    requires |e.registers| == 8
    ensures VectorOf(e, Vector(e.registers))
  {
    var w, v := e.registers[6], Vector(e.registers);
    assert Pow2(2) == 4 && Pow2(8) == 0x100;
    hide Pow2, BitOf;
    forall i | 0 <= i < 16 ensures BitOf(v, i) == (2 <= i < 10 && BitOf(w, i)) {
      JoinedBit(w / 4 % 0x100, 0, 2, i);
      JoinedBit(w / 4, w % 4, 2, i);
      if i < 2 {
        NoBit(i);
      } else {
        JoinedBit(0, w / 4 % 0x100, 8, i - 2);
        JoinedBit(w / 4 / 0x100, w / 4 % 0x100, 8, i - 2);
        if i >= 10 {
          NoBit(i - 10);
        }
      }
    }
  }
}
