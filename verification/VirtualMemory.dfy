/** With memory management on and no two accessible 64-byte blocks in one frame, checked bus
    accesses behave like one independent little-endian byte array per mode and space. */
module VirtualMemory {
  import opened Words
  import opened Division
  import opened ProcessorStatus
  import opened Mmu
  import opened Bus

  /** 64 bytes of virtual memory: the unit a page length counts in. */
  datatype Block = Block(mode: Mode, space: Space, apf: nat, number: nat)

  /** Told from the registers' bits: MMR3 2..0 separate data from instructions in kernel,
      supervisor and user mode; a page's access code must allow reading, and its length must
      reach the block. */
  predicate Accessible(m: MmuState, b: Block) {
    && (b.space == DSpace ==>
          b.mode != 2 && m.mmr3 / (if b.mode == 0 then 4 else if b.mode == 1 then 2 else 1) % 2 == 1)
    && b.apf < 8 && b.number < 0x80
    && var pdr := m.pages[PageIndex(b.mode, b.space, b.apf)].pdr; Allows(pdr, false) && Reaches(pdr, b.number)
  }

  /** The frame of a block, in units of 64 bytes; 18-bit addresses wrap. */
  function Frame(m: MmuState, b: Block): nat
    requires b.apf < 8
  {
    var f := m.pages[PageIndex(b.mode, b.space, b.apf)].par + b.number;
    if m.Wide() then f else f % 0x1000
  }

  ghost predicate DisjointFrames(m: MmuState) {
    forall b, c :: Accessible(m, b) && Accessible(m, c) && Frame(m, b) == Frame(m, c) ==> b == c
  }

  /** One byte of virtual memory. */
  datatype Key = Key(mode: Mode, space: Space, address: Word)

  type Flat = f: imap<Key, Byte> | forall k: Key :: k in f
    ghost witness imap k: Key :: (0 as Byte)

  function BlockOf(k: Key): Block {
    Block(k.mode, k.space, k.address / 0x2000, k.address / 0x40 % 0x80)
  }

  /** Where a byte lives, when it is accessible RAM. */
  function Home(b: BusState, k: Key): (r: Option<nat>)
    ensures r.Some? ==> r.value < |b.ram|
  {
    if b.mmu.Effective(k.mode, k.space) != k.space then None
    else match Locate(b, k.mode, k.address, k.space)
      case Cell(offset, _) => Some(offset)
      case _ => None
  }

  ghost predicate Agree(b: BusState, flat: Flat) {
    forall k: Key :: Home(b, k).Some? ==> b.ram[Home(b, k).value] == flat[k]
  }

  // --- Frames and homes ---

  lemma WrapFrame(frame: nat, rest: nat)
    requires rest < 0x40
    ensures (frame * 0x40 + rest) % 0x4_0000 == frame % 0x1000 * 0x40 + rest
  {
    QuotientIs(frame * 0x40 + rest, 0x4_0000, frame / 0x1000, frame % 0x1000 * 0x40 + rest);
  }

  /** A byte has a home exactly when its block is accessible and its place lies in RAM below the
      I/O page; the home is that place. */
  lemma HomeExactly(b: BusState, k: Key)
    requires b.mmu.Enabled()
    ensures var place := Frame(b.mmu, BlockOf(k)) * 0x40 + k.address % 0x40;
            Home(b, k) ==
            if Accessible(b.mmu, BlockOf(k)) && place < |b.ram|
               && place < (if b.mmu.mmr3 / 0x10 % 2 == 1 then 0x3F_E000 else 0x3_E000)
            then Some(place) else None
  {
    hide Relocated, PageIndex, LockForAccess, LockForLength;
    var page := PageIndex(k.mode, k.space, k.address / 0x2000);
    var par := b.mmu.pages[page].par;
    SplitAddress(par, k.address);
    WrapFrame(par + k.address / 0x40 % 0x80, k.address % 0x40);
  }

  /** With memory management off an address is its own home, below the I/O page. */
  lemma HomeWithoutMapping(b: BusState, k: Key)
    requires !b.mmu.Enabled() && b.mmu.Effective(k.mode, k.space) == k.space
    ensures Home(b, k) == if k.address < 0xE000 && k.address < |b.ram| then Some(k.address) else None
  {
  }

  lemma KeyFromBlock(k: Key)
    ensures k.address == BlockOf(k).apf * 0x2000 + BlockOf(k).number * 0x40 + k.address % 0x40
  {
    QuotientIs(k.address, 0x2000, k.address / 0x40 / 0x80,
               k.address as int / 0x40 % 0x80 * 0x40 + k.address as int % 0x40);
  }

  lemma HomesDistinct(b: BusState, k: Key, l: Key)
    requires b.mmu.Enabled() && DisjointFrames(b.mmu)
    requires Home(b, k).Some? && Home(b, l).Some? && Home(b, k) == Home(b, l)
    ensures k == l
  {
    HomeExactly(b, k);
    HomeExactly(b, l);
    assert Frame(b.mmu, BlockOf(k)) == Frame(b.mmu, BlockOf(l));
    KeyFromBlock(k);
    KeyFromBlock(l);
  }

  function Next(k: Key): Key
    requires k.address < 0xFFFF
  {
    k.(address := k.address + 1)
  }

  /** An even number and the next one lie in the same block of even size. */
  lemma NextInBlock(address: nat, half: nat)
    requires address % 2 == 0 && half > 0
    ensures address % (2 * half) % 2 == 0
    ensures (address + 1) / (2 * half) == address / (2 * half) && (address + 1) % (2 * half) == address % (2 * half) + 1
  {
    var q, r := address / (2 * half), address % (2 * half);
    QuotientIs(address, 2, q * half + r / 2, r % 2);
    QuotientIs(address + 1, 2 * half, q, r + 1);
  }

  lemma EvenHasNext(address: Word)
    requires address % 2 == 0
    ensures address < 0xFFFF
  {
  }

  lemma RawNext(par: Word, address: Word)
    requires address < 0xFFFF && address % 2 == 0
    ensures Relocated(par, address) % 2 == 0 && Relocated(par, address + 1) == Relocated(par, address) + 1
  {
    NextInBlock(address, 0x1000);
    QuotientIs(par * 0x40 + address as int % 0x2000, 2, par * 0x20 + address as int % 0x2000 / 2, 0);
  }

  /** An even address and the next one, in a page and in the 18-bit space. */
  lemma RelocatedNext(par: Word, address: Word)
    requires address < 0xFFFF && address % 2 == 0
    ensures var raw := Relocated(par, address);
            raw % 2 == 0 && raw % 0x4_0000 % 2 == 0
            && Relocated(par, address + 1) == raw + 1 && (raw + 1) % 0x4_0000 == raw % 0x4_0000 + 1
  {
    var raw := Relocated(par, address);
    RawNext(par, address);
    hide Relocated;
    NextInBlock(raw, 0x2_0000);
  }

  lemma WithinNext(p: Page, address: Word)
    requires address < 0xFFFF && address % 2 == 0
    ensures (address + 1) / 0x2000 == address / 0x2000 && WithinLength(p, address + 1) == WithinLength(p, address)
  {
    NextInBlock(address, 0x1000);
    NextInBlock(address, 0x20);
  }

  lemma TranslateNext(m: MmuState, mode: Mode, address: Word, space: Space)
    requires m.Enabled() && address < 0xFFFF && address % 2 == 0
    requires Translate(m, mode, address, false, space).Physical?
    ensures var t := Translate(m, mode, address, false, space);
            t.offset % 2 == 0 && Translate(m, mode, address + 1, false, space) == Physical(t.offset + 1, t.page)
  {
    hide PageIndex, GetTrapAction, LockForAccess, LockForLength, Relocated, WithinLength;
    var page := m.pages[PageIndex(mode, space, address / 0x2000)];
    WithinNext(page, address);
    RelocatedNext(page.par, address);
  }

  lemma PlaceNext(b: BusState, t: Translation)
    requires t.Physical? && t.page < PAGES && t.offset % 2 == 0 && Place(b, t).Cell?
    ensures Place(b, t) == Cell(t.offset, t.page)
    ensures Place(b, t.(offset := t.offset + 1)) == Cell(t.offset + 1, t.page)
  {
  }

  /** The two bytes of a word at an even address lie next to each other. */
  lemma HomeOfNext(b: BusState, k: Key)
    requires b.mmu.Enabled() && Home(b, k).Some? && Home(b, k).value % 2 == 0
    ensures k.address % 2 == 0 && Home(b, Next(k)) == Some(Home(b, k).value + 1)
  {
    hide Translate, Place;
    EvenHome(b, k);
    EvenHasNext(k.address);
    TranslateNext(b.mmu, k.mode, k.address, k.space);
    PlaceNext(b, Translate(b.mmu, k.mode, k.address, false, k.space));
  }

  lemma EvenHome(b: BusState, k: Key)
    requires b.mmu.Enabled() && Home(b, k).Some? && Home(b, k).value % 2 == 0
    ensures k.address % 2 == 0 && Translate(b.mmu, k.mode, k.address, false, k.space).Physical?
  {
    hide Frame, Translate;
    HomeExactly(b, k);
    QuotientIs(k.address, 2, k.address as int / 0x40 * 0x20 + k.address as int % 0x40 / 2, k.address as int % 0x40 % 2);
    var frame := Frame(b.mmu, BlockOf(k));
    QuotientIs(Home(b, k).value, 2, frame * 0x20 + k.address as int % 0x40 / 2, k.address as int % 0x40 % 2);
  }

  lemma HomesStable(b: BusState, after: BusState, k: Key)
    requires SameTranslation(b.mmu, after.mmu) && |after.ram| == |b.ram|
    ensures Home(after, k) == Home(b, k)
  {
    TranslationStable(b.mmu, after.mmu, k.mode, k.address, false, k.space);
  }

  lemma DisjointStable(m: MmuState, n: MmuState)
    requires SameTranslation(m, n) && DisjointFrames(m)
    ensures DisjointFrames(n)
  {
    forall b, c | Accessible(n, b) && Accessible(n, c) && Frame(n, b) == Frame(n, c)
      ensures b == c
    {
      SameAccessible(m, n, b);
      SameAccessible(m, n, c);
    }
  }

  lemma SameAccessible(m: MmuState, n: MmuState, b: Block)
    requires SameTranslation(m, n)
    ensures Accessible(m, b) == Accessible(n, b)
    ensures b.apf < 8 ==> Frame(m, b) == Frame(n, b)
  {
    if b.apf < 8 {
      assert SameMapping(m.pages[PageIndex(b.mode, b.space, b.apf)], n.pages[PageIndex(b.mode, b.space, b.apf)]);
    }
  }

  // --- The refinement ---

  datatype Op =
    | Load(mode: Mode, address: Word, width: Width, space: Space)
    | Store(mode: Mode, address: Word, width: Width, space: Space, value: Word)

  /** A bus access; a store answers with the value it stored. */
  function Perform(b: BusState, op: Op): Access<Word> {
    match op
    case Load(mode, address, width, space) => Read(b, mode, address, width, space)
    case Store(mode, address, width, space, value) =>
      match Write(b, mode, address, width, value, space)
      case Done(_, after) => Done(value, after)
      case Abort(after) => Abort(after)
      case Device => Device
  }

  ghost function FlatLoad(flat: Flat, k: Key, width: Width): Word {
    if width == ByteWide || k.address == 0xFFFF then flat[k]
    else flat[k] as int + flat[Next(k)] as int * 0x100
  }

  ghost function FlatStore(flat: Flat, k: Key, width: Width, value: Word): Flat {
    if width == ByteWide || k.address == 0xFFFF then flat[k := Low(value)]
    else flat[k := Low(value)][Next(k) := High(value)]
  }

  function KeyOf(m: MmuState, op: Op): Key {
    Key(op.mode, m.Effective(op.mode, op.space), op.address)
  }

  ghost function FlatPerform(flat: Flat, m: MmuState, op: Op): (Word, Flat) {
    var k := KeyOf(m, op);
    match op
    case Load(_, _, width, _) => (FlatLoad(flat, k, width), flat)
    case Store(_, _, width, _, value) => (value, FlatStore(flat, k, width, value))
  }

  lemma EffectiveIdempotent(m: MmuState, mode: Mode, space: Space)
    ensures m.Effective(mode, m.Effective(mode, space)) == m.Effective(mode, space)
  {
  }

  lemma LoadAgrees(b: BusState, flat: Flat, op: Op)
    requires b.mmu.Enabled() && Agree(b, flat)
    requires op.Load? && Perform(b, op).Done?
    ensures Perform(b, op).value == FlatLoad(flat, KeyOf(b.mmu, op), op.width)
    ensures Agree(Perform(b, op).bus, flat)
  {
    var k := KeyOf(b.mmu, op);
    EffectiveIdempotent(b.mmu, op.mode, op.space);
    var home := Home(b, k);
    assert home.Some? && b.ram[home.value] == flat[k];
    if op.width == WordWide {
      HomeOfNext(b, k);
      assert b.ram[Home(b, Next(k)).value] == flat[Next(k)];
    }
    var after := Perform(b, op).bus;
    AccessKeepsTranslation(b, op.mode, op.address, op.width, 0, op.space);
    forall l: Key | Home(after, l).Some?
      ensures after.ram[Home(after, l).value] == flat[l]
    {
      HomesStable(b, after, l);
    }
  }

  lemma StoreByteAgrees(b: BusState, flat: Flat, k: Key, after: BusState, value: Byte)
    requires b.mmu.Enabled() && DisjointFrames(b.mmu) && Agree(b, flat) && Home(b, k).Some?
    requires SameTranslation(b.mmu, after.mmu) && after.ram == b.ram[Home(b, k).value := value]
    ensures Agree(after, flat[k := value])
  {
    forall l: Key | Home(after, l).Some?
      ensures after.ram[Home(after, l).value] == flat[k := value][l]
    {
      HomesStable(b, after, l);
      assert b.ram[Home(b, l).value] == flat[l];
      if Home(b, l) == Home(b, k) {
        HomesDistinct(b, l, k);
      }
    }
  }

  /** Where a word store puts its two bytes. */
  lemma WordStore(b: BusState, op: Op)
    requires op.Store? && op.width == WordWide && Perform(b, op).Done?
    ensures var home := Home(b, KeyOf(b.mmu, op));
            home.Some? && home.value % 2 == 0 && home.value + 1 < |b.ram|
            && Perform(b, op).bus.ram == b.ram[home.value := Low(op.value)][home.value + 1 := High(op.value)]
  {
    hide Translate;
    EffectiveIdempotent(b.mmu, op.mode, op.space);
  }

  lemma StoreAgrees(b: BusState, flat: Flat, op: Op)
    requires b.mmu.Enabled() && DisjointFrames(b.mmu) && Agree(b, flat)
    requires op.Store? && Perform(b, op).Done?
    ensures Agree(Perform(b, op).bus, FlatStore(flat, KeyOf(b.mmu, op), op.width, op.value))
  {
    var k := KeyOf(b.mmu, op);
    EffectiveIdempotent(b.mmu, op.mode, op.space);
    var after := Perform(b, op).bus;
    AccessKeepsTranslation(b, op.mode, op.address, op.width, op.value, op.space);
    if op.width == ByteWide {
      StoreByteAgrees(b, flat, k, after, Low(op.value));
    } else {
      WordStore(b, op);
      HomeOfNext(b, k);
      hide Home, Write, Agree;
      var between := b.(ram := b.ram[Home(b, k).value := Low(op.value)]);
      StoreByteAgrees(b, flat, k, between, Low(op.value));
      HomesStable(b, between, Next(k));
      StoreByteAgrees(between, flat[k := Low(op.value)], Next(k), after, High(op.value));
    }
  }

  /** The values a run of accesses yields, when every one of them succeeds. */
  function Run(b: BusState, ops: seq<Op>): Option<(seq<Word>, BusState)>
    decreases |ops|
  {
    if ops == [] then Some(([], b))
    else
      var first := Perform(b, ops[0]);
      if !first.Done? then None
      else match Run(first.bus, ops[1..])
        case None => None
        case Some(rest) => Some(([first.value] + rest.0, rest.1))
  }

  ghost function FlatRun(flat: Flat, m: MmuState, ops: seq<Op>): (seq<Word>, Flat)
    decreases |ops|
  {
    if ops == [] then ([], flat)
    else
      var first := FlatPerform(flat, m, ops[0]);
      var rest := FlatRun(first.1, m, ops[1..]);
      ([first.0] + rest.0, rest.1)
  }

  lemma FlatRunStable(flat: Flat, m: MmuState, n: MmuState, ops: seq<Op>)
    requires SameTranslation(m, n)
    ensures FlatRun(flat, m, ops) == FlatRun(flat, n, ops)
    decreases |ops|
  {
    if ops != [] {
      TranslationStable(m, n, ops[0].mode, ops[0].address, false, ops[0].space);
      FlatRunStable(FlatPerform(flat, m, ops[0]).1, m, n, ops[1..]);
    }
  }

  /** Virtual memory refines flat arrays: any run of successful loads and stores returns
      what independent arrays would return, and leaves memory in agreement with them. */
  lemma {:induction false} RefinesFlatArrays(b: BusState, flat: Flat, ops: seq<Op>)
    requires b.mmu.Enabled() && DisjointFrames(b.mmu) && Agree(b, flat)
    requires Run(b, ops).Some?
    ensures Run(b, ops).value.0 == FlatRun(flat, b.mmu, ops).0
    ensures Agree(Run(b, ops).value.1, FlatRun(flat, b.mmu, ops).1)
    decreases |ops|
  {
    if ops != [] {
      var op := ops[0];
      var after := Perform(b, op).bus;
      AccessKeepsTranslation(b, op.mode, op.address, op.width, if op.Store? then op.value else 0, op.space);
      DisjointStable(b.mmu, after.mmu);
      if op.Load? {
        LoadAgrees(b, flat, op);
      } else {
        StoreAgrees(b, flat, op);
      }
      var flat' := FlatPerform(flat, b.mmu, op).1;
      RefinesFlatArrays(after, flat', ops[1..]);
      FlatRunStable(flat', b.mmu, after.mmu, ops[1..]);
    }
  }

  /** The access has a home, and a word an even address. */
  predicate Reached(b: BusState, op: Op) {
    Home(b, KeyOf(b.mmu, op)).Some? && (op.width == WordWide ==> op.address % 2 == 0)
  }

  lemma SameParity(b: BusState, k: Key)
    requires b.mmu.Enabled() && Home(b, k).Some?
    ensures Home(b, k).value % 2 == k.address % 2
  {
    hide Frame, Home;
    HomeExactly(b, k);
    var frame, rest := Frame(b.mmu, BlockOf(k)), k.address as int % 0x40;
    QuotientIs(k.address, 2, k.address as int / 0x40 * 0x20 + rest / 2, rest % 2);
    QuotientIs(frame * 0x40 + rest, 2, frame * 0x20 + rest / 2, rest % 2);
  }

  lemma PerformsExactly(b: BusState, op: Op)
    requires b.mmu.Enabled()
    ensures Perform(b, op).Done? <==> Reached(b, op)
  {
    hide Translate;
    EffectiveIdempotent(b.mmu, op.mode, op.space);
    if Home(b, KeyOf(b.mmu, op)).Some? {
      SameParity(b, KeyOf(b.mmu, op));
    }
  }

  lemma ReachedStable(b: BusState, after: BusState, op: Op)
    requires SameTranslation(b.mmu, after.mmu) && |after.ram| == |b.ram|
    ensures Reached(after, op) == Reached(b, op)
  {
    hide Home;
    TranslationStable(b.mmu, after.mmu, op.mode, op.address, false, op.space);
    HomesStable(b, after, KeyOf(b.mmu, op));
  }

  /** A run succeeds exactly when each of its accesses has a home in the table it starts with. */
  lemma {:induction false} RunsExactly(b: BusState, ops: seq<Op>)
    requires b.mmu.Enabled()
    ensures Run(b, ops).Some? <==> forall i :: 0 <= i < |ops| ==> Reached(b, ops[i])
    decreases |ops|
  {
    hide Perform, Reached;
    if ops != [] {
      var op, rest := ops[0], ops[1..];
      PerformsExactly(b, op);
      if Perform(b, op).Done? {
        var after := Perform(b, op).bus;
        PerformKeeps(b, op);
        RunsExactly(after, rest);
        forall i | 0 <= i < |rest| ensures Reached(after, rest[i]) == Reached(b, ops[i + 1]) {
          ReachedStable(b, after, rest[i]);
        }
        if forall i :: 0 <= i < |rest| ==> Reached(after, rest[i]) {
          forall i | 0 <= i < |ops| ensures Reached(b, ops[i]) {
            assert i > 0 ==> Reached(after, rest[i - 1]);
          }
        }
      }
    }
  }

  lemma PerformKeeps(b: BusState, op: Op)
    requires Perform(b, op).Done?
    ensures SameTranslation(b.mmu, Perform(b, op).bus.mmu) && |Perform(b, op).bus.ram| == |b.ram|
  {
    AccessKeepsTranslation(b, op.mode, op.address, op.width, if op.Store? then op.value else 0, op.space);
  }

  /** The arrays a bus state starts from. */
  ghost function Contents(b: BusState): (flat: Flat)
    ensures Agree(b, flat)
  {
    imap k: Key {:trigger Home(b, k)} :: if Home(b, k).Some? then b.ram[Home(b, k).value] else 0
  }

  /** Disjointness is needed: two bytes in one home are one byte. */
  lemma SharedHomeAliases(b: BusState, k: Key, l: Key, value: Byte)
    requires Home(b, k).Some? && Home(b, k) == Home(b, l)
    ensures var w := Write(b, k.mode, k.address, ByteWide, value, k.space);
            w.Done? && var r := Read(w.bus, l.mode, l.address, ByteWide, l.space); r.Done? && r.value == value
  {
    hide Locate;
    var w := Write(b, k.mode, k.address, ByteWide, value, k.space);
    AccessKeepsTranslation(b, k.mode, k.address, ByteWide, value, k.space);
    HomesStable(b, w.bus, l);
  }
}
