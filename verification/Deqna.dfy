/** The DEQNA transmitter (deqna.cpp): a walk along a list of buffer descriptors in memory.
    A descriptor is six words: flags, address high with the control bits, address low, size as
    a negative word count, and two status words. */
module Deqna {
  import opened Words
  import opened Bits
  import opened Division
  import opened Hardware

  const CSR := 7
  const MAX_FRAME: nat := 1514
  const MAX_BUFFER: nat := 2048
  const DESCRIPTOR: nat := 12

  // --- Reading a descriptor ---

  function AddressHigh(ram: seq<Byte>, p: nat): Word {
    UnibusWord(ram, p + 2)
  }

  predicate InRange(ram: seq<Byte>, p: nat) {
    p + DESCRIPTOR <= |ram|
  }

  predicate IsValid(ram: seq<Byte>, p: nat) {
    AddressHigh(ram, p) / 0x8000 == 1
  }

  predicate IsChain(ram: seq<Byte>, p: nat) {
    AddressHigh(ram, p) / 0x4000 % 2 == 1
  }

  predicate IsEnd(ram: seq<Byte>, p: nat) {
    AddressHigh(ram, p) / 0x2000 % 2 == 1
  }

  /** Where the descriptor points: a buffer or another descriptor. */
  function Target(ram: seq<Byte>, p: nat): nat {
    AddressHigh(ram, p) as int % 0x40 * 0x1_0000 + UnibusWord(ram, p + 4)
  }

  function Length(ram: seq<Byte>, p: nat): nat {
    (0x1_0000 - UnibusWord(ram, p + 6) as int) * 2
  }

  predicate TooBig(ram: seq<Byte>, p: nat) {
    !IsChain(ram, p) && (Length(ram, p) > MAX_BUFFER || Target(ram, p) + Length(ram, p) > |ram|)
  }

  /** The walk goes on past this descriptor. */
  predicate Passes(ram: seq<Byte>, p: nat) {
    InRange(ram, p) && IsValid(ram, p) && !TooBig(ram, p)
  }

  function Next(ram: seq<Byte>, p: nat): nat {
    if IsChain(ram, p) then Target(ram, p) else p + DESCRIPTOR
  }

  /** The bytes a descriptor contributes: none when it only leads to another. */
  function Buffer(ram: seq<Byte>, p: nat): seq<Byte> {
    if IsChain(ram, p) || Target(ram, p) + Length(ram, p) > |ram| then []
    else ram[Target(ram, p)..Target(ram, p) + Length(ram, p)]
  }

  // --- The walk ---

  ghost function Unvisited(ram: seq<Byte>, seen: set<nat>): set<nat> {
    (set a: nat | a < |ram| && InRange(ram, a)) - seen
  }

  /** The descriptors passed from `p` on, up to one that does not pass or was seen before. */
  ghost function Walk(ram: seq<Byte>, p: nat, seen: set<nat>): seq<nat>
    decreases Unvisited(ram, seen)
  {
    if !Passes(ram, p) || p in seen then []
    else
      assert p in Unvisited(ram, seen);
      [p] + Walk(ram, Next(ram, p), seen + {p})
  }

  /** Where that walk stops. */
  ghost function Stop(ram: seq<Byte>, p: nat, seen: set<nat>): nat
    decreases Unvisited(ram, seen)
  {
    if !Passes(ram, p) || p in seen then p
    else
      assert p in Unvisited(ram, seen);
      Stop(ram, Next(ram, p), seen + {p})
  }

  /** The walk meets no descriptor twice. */
  ghost predicate NoRepeat(ram: seq<Byte>, p: nat) {
    !Passes(ram, Stop(ram, p, {}))
  }

  /** The place of the walk after `n` descriptors. */
  function Nth(ram: seq<Byte>, p: nat, n: nat): nat
    decreases n
  {
    if n == 0 then p else Nth(ram, Next(ram, p), n - 1)
  }

  lemma {:induction false} WalkReachesStop(ram: seq<Byte>, p: nat, seen: set<nat>)
    ensures Nth(ram, p, |Walk(ram, p, seen)|) == Stop(ram, p, seen)
    decreases Unvisited(ram, seen)
  {
    if Passes(ram, p) && p !in seen {
      assert p in Unvisited(ram, seen);
      WalkReachesStop(ram, Next(ram, p), seen + {p});
    }
  }

  /** A walk that stops at a descriptor it has seen stays among the descriptors it has seen. */
  lemma {:induction false} WalkIsClosed(ram: seq<Byte>, p: nat, seen: set<nat>)
    ensures var ws, stop := Walk(ram, p, seen), Stop(ram, p, seen);
            && (forall d :: d in ws ==> Passes(ram, d) && (Next(ram, d) in ws || Next(ram, d) == stop))
            && (p in ws || p == stop)
            && (Passes(ram, stop) ==> stop in seen || stop in ws)
    decreases Unvisited(ram, seen)
  {
    if Passes(ram, p) && p !in seen {
      assert p in Unvisited(ram, seen);
      WalkIsClosed(ram, Next(ram, p), seen + {p});
    }
  }

  lemma {:induction false} NeverLeaves(ram: seq<Byte>, ws: seq<nat>, p: nat, n: nat)
    requires p in ws && forall d :: d in ws ==> Passes(ram, d) && Next(ram, d) in ws
    ensures Passes(ram, Nth(ram, p, n))
    decreases n
  {
    if n > 0 {
      NeverLeaves(ram, ws, Next(ram, p), n - 1);
    }
  }

  /** The walk comes to an end exactly when it meets no descriptor twice. */
  lemma EndsExactlyWithoutRepeat(ram: seq<Byte>, p: nat)
    ensures NoRepeat(ram, p) <==> exists n: nat :: !Passes(ram, Nth(ram, p, n))
  {
    WalkReachesStop(ram, p, {});
    if !NoRepeat(ram, p) {
      WalkIsClosed(ram, p, {});
      forall n: nat ensures Passes(ram, Nth(ram, p, n)) {
        NeverLeaves(ram, Walk(ram, p, {}), p, n);
      }
    }
  }

  // --- What is sent ---

  predicate AllPass(ram: seq<Byte>, ws: seq<nat>) {
    forall i :: 0 <= i < |ws| ==> Passes(ram, ws[i])
  }

  /** All bytes of the buffers passed. */
  function Gathered(ram: seq<Byte>, ws: seq<nat>): seq<Byte>
  {
    if ws == [] then [] else Gathered(ram, ws[..|ws| - 1]) + Buffer(ram, ws[|ws| - 1])
  }

  /** The bytes since the last END mark. */
  function Since(ram: seq<Byte>, ws: seq<nat>): seq<Byte>
  {
    if ws == [] || IsEnd(ram, ws[|ws| - 1]) then []
    else Since(ram, ws[..|ws| - 1]) + Buffer(ram, ws[|ws| - 1])
  }

  /** The bytes between END marks, where there are any. */
  function Groups(ram: seq<Byte>, ws: seq<nat>): seq<seq<Byte>>
  {
    if ws == [] then []
    else
      var init, last := ws[..|ws| - 1], ws[|ws| - 1];
      var group := Since(ram, init) + Buffer(ram, last);
      Groups(ram, init) + if IsEnd(ram, last) && group != [] then [group] else []
  }

  function Cut(s: seq<Byte>): (r: seq<Byte>)
    ensures r <= s && |r| == Min(|s|, MAX_FRAME)
  {
    if |s| <= MAX_FRAME then s else s[..MAX_FRAME]
  }

  lemma CutOneMore(s: seq<Byte>, b: Byte)
    requires |Cut(s)| < MAX_FRAME
    ensures Cut(s + [b]) == Cut(s) + [b]
  {
  }

  lemma CutRest(s: seq<Byte>, rest: seq<Byte>)
    requires |Cut(s)| == MAX_FRAME || rest == []
    ensures Cut(s + rest) == Cut(s)
  {
    if rest == [] {
      assert s + rest == s;
    }
  }

  function Frames(ram: seq<Byte>, ws: seq<nat>): (r: seq<seq<Byte>>)
    ensures |r| == |Groups(ram, ws)|
  {
    var groups := Groups(ram, ws);
    seq(|groups|, i requires 0 <= i < |groups| => Cut(groups[i]))
  }

  function Flat(groups: seq<seq<Byte>>): seq<Byte> {
    if groups == [] then [] else Flat(groups[..|groups| - 1]) + groups[|groups| - 1]
  }

  /** No byte is lost, repeated or moved: the groups, and what follows the last END mark, are
      the bytes of the buffers in order. */
  lemma {:induction false} Conservation(ram: seq<Byte>, ws: seq<nat>)
    ensures Flat(Groups(ram, ws)) + Since(ram, ws) == Gathered(ram, ws)
  {
    hide Buffer, IsEnd;
    if ws != [] {
      var init, last := ws[..|ws| - 1], ws[|ws| - 1];
      Conservation(ram, init);
      var done, group := Groups(ram, init), Since(ram, init) + Buffer(ram, last);
      assert (done + [group])[..|done|] == done;
      assert done + [] == done;
      assert Flat(done) + group == Gathered(ram, init) + Buffer(ram, last);
      assert Flat(done) + [] == Flat(done) && Flat(done) + group + [] == Flat(done) + group;
    }
  }

  /** Every frame handed on is the front of its group, and is not empty. */
  lemma {:induction false} FramesAreGroups(ram: seq<Byte>, ws: seq<nat>, i: nat)
    requires i < |Frames(ram, ws)|
    ensures 0 < |Frames(ram, ws)[i]| <= MAX_FRAME && Frames(ram, ws)[i] <= Groups(ram, ws)[i]
    ensures |Groups(ram, ws)[i]| <= MAX_FRAME ==> Frames(ram, ws)[i] == Groups(ram, ws)[i]
  {
    GroupsNotEmpty(ram, ws, i);
  }

  lemma {:induction false} GroupsNotEmpty(ram: seq<Byte>, ws: seq<nat>, i: nat)
    requires i < |Groups(ram, ws)|
    ensures Groups(ram, ws)[i] != []
  {
    var init := ws[..|ws| - 1];
    if i < |Groups(ram, init)| {
      GroupsNotEmpty(ram, init, i);
    }
  }

  lemma FramesSnoc(ram: seq<Byte>, ws: seq<nat>, d: nat)
    ensures var group := Since(ram, ws) + Buffer(ram, d);
            && Frames(ram, ws + [d]) == Frames(ram, ws) + (if IsEnd(ram, d) && group != [] then [Cut(group)] else [])
            && Since(ram, ws + [d]) == if IsEnd(ram, d) then [] else group
  {
    assert (ws + [d])[..|ws|] == ws;
  }

  // --- What happens to memory ---

  /** A descriptor that has been passed: no longer busy, and marked done at an END. */
  function Passed(ram: seq<Byte>, p: nat, flags: Word, end: bool): (r: seq<Byte>)
    ensures |r| == |ram| && forall k :: 0 <= k < |ram| && !(p <= k < p + DESCRIPTOR) ==> r[k] == ram[k]
  {
    var idle := SetUnibusWord(ram, p, if flags / 0x4000 % 2 == 1 then flags - 0x4000 else flags);
    if end then SetUnibusWord(SetUnibusWord(idle, p + 8, 0x2000), p + 10, 0) else idle
  }

  /** Memory after the descriptors `ws` have been passed. */
  function Memory(ram: seq<Byte>, ws: seq<nat>): (r: seq<Byte>)
    ensures |r| == |ram|
  {
    if ws == [] then ram
    else
      var last := ws[|ws| - 1];
      Passed(Memory(ram, ws[..|ws| - 1]), last, UnibusWord(ram, last), IsEnd(ram, last))
  }

  /** The bytes from `lo` to `hi` belong to none of the descriptors. */
  predicate Clear(ws: seq<nat>, lo: nat, hi: nat) {
    forall d :: d in ws ==> hi <= d || d + DESCRIPTOR <= lo
  }

  /** No descriptor, and no buffer, lies in a descriptor passed before. */
  ghost predicate Apart(ram: seq<Byte>, ws: seq<nat>, stop: nat) {
    && (forall i :: 0 <= i < |ws| ==> Clear(ws[..i], ws[i], ws[i] + DESCRIPTOR))
    && (forall i :: 0 <= i < |ws| && !IsChain(ram, ws[i]) ==>
          Clear(ws[..i + 1], Target(ram, ws[i]), Target(ram, ws[i]) + Length(ram, ws[i])))
    && (InRange(ram, stop) ==> Clear(ws, stop, stop + DESCRIPTOR))
  }

  lemma {:induction false} ClearSurvives(ram: seq<Byte>, ws: seq<nat>, lo: nat, hi: nat)
    requires Clear(ws, lo, hi) && lo <= hi <= |ram|
    ensures Memory(ram, ws)[lo..hi] == ram[lo..hi]
  {
    hide Passed, IsEnd, IsValid, TooBig;
    if ws != [] {
      var init := ws[..|ws| - 1];
      forall d | d in init ensures hi <= d || d + DESCRIPTOR <= lo {
        assert d in ws;
      }
      ClearSurvives(ram, init, lo, hi);
      var last, before, after := ws[|ws| - 1], Memory(ram, init), Memory(ram, ws);
      assert last in ws;
      assert after == Passed(before, last, UnibusWord(ram, last), IsEnd(ram, last));
      forall k | lo <= k < hi ensures after[k] == before[k] {
        assert !(last <= k < last + DESCRIPTOR);
      }
      assert after[lo..hi] == before[lo..hi];
    }
  }

  /** What one descriptor means depends on its own twelve bytes only. */
  lemma SameDescriptor(ram: seq<Byte>, now: seq<Byte>, p: nat)
    requires |now| == |ram| && InRange(ram, p) && now[p..p + DESCRIPTOR] == ram[p..p + DESCRIPTOR]
    ensures UnibusWord(now, p) == UnibusWord(ram, p) && AddressHigh(now, p) == AddressHigh(ram, p)
    ensures Target(now, p) == Target(ram, p) && Length(now, p) == Length(ram, p)
  {
    forall k | p <= k < p + DESCRIPTOR ensures now[k] == ram[k] {
      assert now[k] == now[p..p + DESCRIPTOR][k - p];
    }
  }

  lemma StoredOver(ram: seq<Byte>, p: nat, v: Word, w: Word)
    ensures SetUnibusWord(SetUnibusWord(ram, p, v), p, w) == SetUnibusWord(ram, p, w)
  {
  }

  lemma StoredElsewhere(ram: seq<Byte>, p: nat, v: Word, lo: nat, hi: nat)
    requires p + 1 < |ram| && lo <= hi <= |ram| && (hi <= p || p + 2 <= lo)
    ensures |SetUnibusWord(ram, p, v)| == |ram| && SetUnibusWord(ram, p, v)[lo..hi] == ram[lo..hi]
  {
  }

  // --- The device ---

  /** The receive queue holds one packet; what comes after is dropped. */
  function Queued(received: seq<seq<Byte>>, frames: seq<seq<Byte>>): seq<seq<Byte>> {
    if |received| >= 1 || frames == [] then received else [frames[0]]
  }

  /** CSR with the transmit interrupt bit set. */
  function Sent(csr: Word): Word {
    if csr / 0x80 % 2 == 1 then csr else csr + 0x80
  }

  /** CSR with the list marked invalid. */
  function Finished(csr: Word): Word {
    if csr / 0x10 % 2 == 1 then csr else csr + 0x10
  }

  function Vector(registers: seq<Word>): Word
    requires |registers| == 8
  {
    registers[6] / 4 % 0x100 * 4
  }

  /** What can be seen of the device: its registers, packets looped back, packets on the wire,
      and the vectors it has asked for. */
  datatype Effects = Effects(registers: seq<Word>, received: seq<seq<Byte>>, wire: seq<seq<Byte>>, vectors: set<Word>)

  function HandedOn(e: Effects, frames: seq<seq<Byte>>, ended: bool): (r: Effects)
    requires |e.registers| == 8
    ensures |r.registers| == 8
  {
    var marked := if ended then e.(registers := e.registers[CSR := Sent(e.registers[CSR])],
                                   vectors := e.vectors +
                                              if e.registers[CSR] / 0x40 % 2 == 1 then {Vector(e.registers)} else {})
                  else e;
    if e.registers[CSR] / 0x100 % 2 == 0 then marked.(received := Queued(e.received, frames))
    else marked.(wire := e.wire + frames)
  }

  lemma HandedOnTwice(e: Effects, frames: seq<seq<Byte>>, more: seq<seq<Byte>>, ended: bool, again: bool)
    requires |e.registers| == 8
    ensures HandedOn(HandedOn(e, frames, ended), more, again) == HandedOn(e, frames + more, ended || again)
  {
    var f := HandedOn(e, frames, ended);
    SentKeeps(e.registers[CSR]);
    assert Queued(Queued(e.received, frames), more) == Queued(e.received, frames + more);
    assert e.wire + frames + more == e.wire + (frames + more);
  }

  lemma SentKeeps(csr: Word)
    ensures Sent(csr) / 0x100 == csr / 0x100 && Sent(csr) / 0x40 % 2 == csr / 0x40 % 2 && Sent(Sent(csr)) == Sent(csr)
    ensures Sent(csr) / 0x100 % 2 == csr / 0x100 % 2 && Sent(csr) / 0x10 % 2 == csr / 0x10 % 2
  {
    BitSeven(csr);
    if csr / 0x80 % 2 == 0 {
      BitSeven(csr + 0x80);
    }
  }

  /** Handing a frame on sets bit 7 of CSR, the end of the list bit 4, and neither any other. */
  lemma CsrBits(csr: Word, i: nat)
    ensures BitOf(Sent(csr), i) == (i == 7 || BitOf(csr, i)) && BitOf(Finished(csr), i) == (i == 4 || BitOf(csr, i))
  {
    assert Pow2(7) == 0x80 && Pow2(4) == 0x10;
    hide Pow2;
    if !BitOf(csr, 7) {
      SetBit(csr, 7, i);
    }
    if !BitOf(csr, 4) {
      SetBit(csr, 4, i);
    }
  }

  lemma BitSeven(x: nat)
    ensures x / 0x100 == x / 0x80 / 2 && (x + 0x80) / 0x80 == x / 0x80 + 1
    ensures (x + 0x80) / 0x40 % 2 == x / 0x40 % 2 && (x + 0x80) / 0x10 % 2 == x / 0x10 % 2
  {
    QuotientIs(x, 0x100, x / 0x80 / 2, x / 0x80 % 2 * 0x80 + x % 0x80);
    AddedMultiple(x, 0x80, 1);
    AddedMultiple(x, 0x40, 2);
    AddedMultiple(x / 0x40, 2, 1);
    AddedMultiple(x, 0x10, 8);
    AddedMultiple(x / 0x10, 2, 4);
  }

  // --- The walk as a list ---

  function Place(ws: seq<nat>, stop: nat, i: nat): nat {
    if i < |ws| then ws[i] else stop
  }

  /** `ws` are the descriptors from `p` to `stop`. */
  ghost predicate Linked(ram: seq<Byte>, p: nat, ws: seq<nat>, stop: nat) {
    && AllPass(ram, ws) && Place(ws, stop, 0) == p
    && forall i :: 0 <= i < |ws| ==> Next(ram, ws[i]) == Place(ws, stop, i + 1)
  }

  lemma {:induction false} WalkIsLinked(ram: seq<Byte>, p: nat, seen: set<nat>)
    ensures Linked(ram, p, Walk(ram, p, seen), Stop(ram, p, seen))
    decreases Unvisited(ram, seen)
  {
    hide TooBig, IsValid, IsChain;
    if Passes(ram, p) && p !in seen {
      assert p in Unvisited(ram, seen);
      WalkIsLinked(ram, Next(ram, p), seen + {p});
      var ws, stop, rest := Walk(ram, p, seen), Stop(ram, p, seen), Walk(ram, Next(ram, p), seen + {p});
      forall i | 0 <= i < |ws| ensures Passes(ram, ws[i]) && Next(ram, ws[i]) == Place(ws, stop, i + 1) {
        if i > 0 {
          assert ws[i] == rest[i - 1] && Place(ws, stop, i + 1) == Place(rest, stop, i);
        }
      }
    }
  }

  predicate Ended(ram: seq<Byte>, ws: seq<nat>) {
    exists i :: 0 <= i < |ws| && IsEnd(ram, ws[i])
  }

  lemma EndedSnoc(ram: seq<Byte>, ws: seq<nat>, i: nat)
    requires i < |ws|
    ensures Ended(ram, ws[..i + 1]) == (Ended(ram, ws[..i]) || IsEnd(ram, ws[i]))
  {
    hide IsEnd;
    if Ended(ram, ws[..i]) {
      var k :| 0 <= k < i && IsEnd(ram, ws[..i][k]);
      assert IsEnd(ram, ws[..i + 1][k]);
    }
    if IsEnd(ram, ws[i]) {
      assert IsEnd(ram, ws[..i + 1][i]);
    }
    if Ended(ram, ws[..i + 1]) && !IsEnd(ram, ws[i]) {
      var k :| 0 <= k < i + 1 && IsEnd(ram, ws[..i + 1][k]);
      assert IsEnd(ram, ws[..i][k]);
    }
  }

  lemma NothingSent(ram: seq<Byte>, ws: seq<nat>, was: Effects)
    requires |was.registers| == 8
    ensures HandedOn(was, Frames(ram, ws[..0]), Ended(ram, ws[..0])) == was
    ensures Memory(ram, ws[..0]) == ram && Since(ram, ws[..0]) == [] && Cut([]) == []
  {
    assert was.wire + [] == was.wire;
  }

  lemma PassesAt(ram: seq<Byte>, ws: seq<nat>, stop: nat, p: nat, i: nat)
    requires Linked(ram, p, ws, stop) && !Passes(ram, stop) && i <= |ws|
    ensures Passes(ram, Place(ws, stop, i)) == (i < |ws|)
    ensures i < |ws| ==> InRange(ram, Place(ws, stop, i))
  {
    hide IsValid, TooBig;
  }

  lemma SameMeaning(ram: seq<Byte>, now: seq<Byte>, p: nat)
    requires |now| == |ram| && AddressHigh(now, p) == AddressHigh(ram, p)
    requires Target(now, p) == Target(ram, p) && Length(now, p) == Length(ram, p)
    ensures IsValid(now, p) == IsValid(ram, p) && IsEnd(now, p) == IsEnd(ram, p) && IsChain(now, p) == IsChain(ram, p)
    ensures Passes(now, p) == Passes(ram, p) && Next(now, p) == Next(ram, p)
  {
  }

  lemma SameBuffer(ram: seq<Byte>, ws: seq<nat>, p: nat)
    requires var m := Memory(ram, ws);
             IsChain(m, p) == IsChain(ram, p) && Target(m, p) == Target(ram, p) && Length(m, p) == Length(ram, p)
    requires !IsChain(ram, p) ==> Clear(ws, Target(ram, p), Target(ram, p) + Length(ram, p))
    ensures Buffer(Memory(ram, ws), p) == Buffer(ram, p)
  {
    hide Memory, Clear, Target, Length, IsChain;
    if !IsChain(ram, p) && Target(ram, p) + Length(ram, p) <= |ram| {
      ClearSurvives(ram, ws, Target(ram, p), Target(ram, p) + Length(ram, p));
    }
  }

  /** The next descriptor is still as it was when the walk began. */
  lemma RoundReady(ram: seq<Byte>, p: nat, ws: seq<nat>, stop: nat, i: nat)
    requires Linked(ram, p, ws, stop) && Apart(ram, ws, stop) && !Passes(ram, stop) && i <= |ws|
    requires InRange(ram, Place(ws, stop, i))
    ensures var m, d := Memory(ram, ws[..i]), Place(ws, stop, i);
            && Passes(m, d) == Passes(ram, d) == (i < |ws|) && IsValid(m, d) == IsValid(ram, d)
            && (i < |ws| ==>
                  && (!IsChain(m, d) ==> Target(m, d) + Length(m, d) <= d || d + DESCRIPTOR <= Target(m, d))
                  && IsEnd(m, d) == IsEnd(ram, d) && Buffer(m, d) == Buffer(ram, d)
                  && UnibusWord(m, d) == UnibusWord(ram, d)
                  && Next(m, d) == Place(ws, stop, i + 1))
  {
    hide UnibusWord, AddressHigh, Memory, Clear, Passes, IsValid, IsEnd, IsChain, Target, Length, Next, Buffer;
    var m, d := Memory(ram, ws[..i]), Place(ws, stop, i);
    assert ws[..|ws|] == ws;
    ClearSurvives(ram, ws[..i], d, d + DESCRIPTOR);
    SameDescriptor(ram, m, d);
    SameMeaning(ram, m, d);
    if i < |ws| {
      if !IsChain(ram, d) {
        ClearPrefix(ws, i, Target(ram, d), Target(ram, d) + Length(ram, d));
      }
      SameBuffer(ram, ws[..i], d);
    }
  }

  lemma ClearPrefix(ws: seq<nat>, i: nat, lo: nat, hi: nat)
    requires i < |ws| && Clear(ws[..i + 1], lo, hi)
    ensures Clear(ws[..i], lo, hi) && (hi <= ws[i] || ws[i] + DESCRIPTOR <= lo)
  {
    assert ws[..i + 1] == ws[..i] + [ws[i]];
    assert ws[i] in ws[..i + 1];
    forall d | d in ws[..i] ensures hi <= d || d + DESCRIPTOR <= lo {
      assert d in ws[..i + 1];
    }
  }

  /** Memory, frames and interrupts after one more descriptor. */
  lemma RoundDone(ram: seq<Byte>, ws: seq<nat>, i: nat, was: Effects)
    requires i < |ws| && |was.registers| == 8
    ensures Memory(ram, ws[..i + 1]) == Passed(Memory(ram, ws[..i]), ws[i], UnibusWord(ram, ws[i]), IsEnd(ram, ws[i]))
    ensures var group := Since(ram, ws[..i]) + Buffer(ram, ws[i]);
            && Since(ram, ws[..i + 1]) == (if IsEnd(ram, ws[i]) then [] else group)
            && HandedOn(was, Frames(ram, ws[..i + 1]), Ended(ram, ws[..i + 1])) ==
               if IsEnd(ram, ws[i])
               then HandedOn(HandedOn(was, Frames(ram, ws[..i]), Ended(ram, ws[..i])),
                             if group != [] then [Cut(group)] else [], true)
               else HandedOn(was, Frames(ram, ws[..i]), Ended(ram, ws[..i]))
  {
    hide HandedOn, Frames, Since, Buffer, IsEnd, Passed, Ended, Cut;
    assert ws[..i + 1] == ws[..i] + [ws[i]];
    assert ws[..i + 1][..i] == ws[..i];
    FramesSnoc(ram, ws[..i], ws[i]);
    EndedSnoc(ram, ws, i);
    var group := Since(ram, ws[..i]) + Buffer(ram, ws[i]);
    HandedOnTwice(was, Frames(ram, ws[..i]), if group != [] then [Cut(group)] else [], Ended(ram, ws[..i]), true);
    assert Frames(ram, ws[..i]) + [] == Frames(ram, ws[..i]);
    var before, more := Frames(ram, ws[..i]), if group != [] then [Cut(group)] else [];
    assert Frames(ram, ws[..i + 1]) == before + if IsEnd(ram, ws[i]) then more else [];
    assert Ended(ram, ws[..i + 1]) == (Ended(ram, ws[..i]) || IsEnd(ram, ws[i]));
    if IsEnd(ram, ws[i]) {
      assert HandedOn(was, Frames(ram, ws[..i + 1]), Ended(ram, ws[..i + 1])) == HandedOn(was, before + more, true);
    } else {
      assert Frames(ram, ws[..i + 1]) == before;
    }
  }

  function Start(registers: seq<Word>): nat
    requires |registers| == 8
  {
    registers[5] as int % 0x40 * 0x1_0000 + registers[4]
  }

  /** The list is marked invalid when the transmitter is done with it. */
  function Closed(e: Effects): Effects
    requires |e.registers| == 8
  {
    e.(registers := e.registers[CSR := Finished(e.registers[CSR])])
  }

  class DeqnaUnit {
    const bus: BusUnit
    var registers: seq<Word>
    var received: seq<seq<Byte>>
    var wire: seq<seq<Byte>>
    var vectors: set<Word>

    function State(): Effects
      reads this
    {
      Effects(registers, received, wire, vectors)
    }

    constructor (bus: BusUnit)
      ensures this.bus == bus && State() == Effects([0, 0, 0, 0, 0, 0, 0x1FC, 0x1031], [], [], {})
    {
      this.bus := bus;
      registers, received, wire, vectors := [0, 0, 0, 0, 0, 0, 0x1FC, 0x1031], [], [], {};
    }

    method QueueRxPacket(frame: seq<Byte>)
      modifies this`received
      ensures received == Queued(old(received), [frame])
    {
      if |received| < 1 {
        received := received + [frame];
      }
    }

    /** The copying loop: as much of a buffer as the frame still has room for. */
    method CopyBuffer(chain: nat, length: nat, buffer: array<Byte>, offset: nat, ghost pending: seq<Byte>)
        returns (end: nat)
      requires buffer.Length == MAX_FRAME && offset <= MAX_FRAME && buffer != bus.ram
      requires chain + length <= bus.ram.Length && buffer[..offset] == Cut(pending)
      modifies buffer
      ensures end <= MAX_FRAME && buffer[..end] == Cut(pending + bus.ram[chain..chain + length])
    {
      hide Cut;
      end := offset;
      var i := 0;
      ghost var copied := pending;
      assert pending + bus.ram[chain..chain] == pending;
      while i < length && end < buffer.Length
        invariant i <= length && end <= MAX_FRAME
        invariant copied == pending + bus.ram[chain..chain + i] && buffer[..end] == Cut(copied)
      {
        var v := bus.ReadUnibusByte(chain + i);
        CutOneMore(copied, v);
        buffer[end] := v;
        copied := copied + [v];
        i, end := i + 1, end + 1;
      }
      CutRest(copied, bus.ram[chain + i..chain + length]);
      assert copied + bus.ram[chain + i..chain + length] == pending + bus.ram[chain..chain + length];
    }

    /** What an END mark does. */
    method HandOn(p: nat, frame: seq<Byte>)
      requires |registers| == 8 && p + DESCRIPTOR <= bus.ram.Length
      modifies this, bus.ram
      ensures State() == HandedOn(old(State()), if frame == [] then [] else [frame], true)
      ensures bus.ram[..] == SetUnibusWord(SetUnibusWord(old(bus.ram[..]), p + 8, 0x2000), p + 10, 0)
    {
      if |frame| > 0 {
        if registers[CSR] / 0x100 % 2 == 0 {
          QueueRxPacket(frame);
        } else {
          wire := wire + [frame];
        }
      }
      bus.WriteUnibusWord(p + 8, 0x2000);
      bus.WriteUnibusWord(p + 10, 0);
      SentKeeps(registers[CSR]);
      registers := registers[CSR := Sent(registers[CSR])];
      if registers[CSR] / 0x40 % 2 == 1 {
        vectors := vectors + {Vector(registers)};
      }
    }

    /** One round of the walk. */
    method PassDescriptor(p: nat, buffer: array<Byte>, offset: nat, ghost pending: seq<Byte>)
      returns (stopped: bool, next: nat, end: nat)
      requires bus.Valid() && |registers| == 8 && InRange(bus.ram[..], p)
      requires buffer.Length == MAX_FRAME && offset <= MAX_FRAME && buffer != bus.ram
               && buffer[..offset] == Cut(pending)
      requires Passes(bus.ram[..], p) && !IsChain(bus.ram[..], p) ==>
                 Target(bus.ram[..], p) + Length(bus.ram[..], p) <= p || p + DESCRIPTOR <= Target(bus.ram[..], p)
      modifies this, bus.ram, buffer
      ensures |registers| == 8 && end <= MAX_FRAME && stopped == !Passes(old(bus.ram[..]), p)
      ensures stopped ==> State() == old(State()) && next == p
                          && bus.ram[..] ==
                             if IsValid(old(bus.ram[..]), p) then SetUnibusWord(old(bus.ram[..]), p, 0xFFFF)
                                            else old(bus.ram[..])
      ensures !stopped ==>
                var m, group := old(bus.ram[..]), pending + Buffer(old(bus.ram[..]), p);
                && bus.ram[..] == Passed(m, p, UnibusWord(m, p), IsEnd(m, p)) && next == Next(m, p)
                && buffer[..end] == (if IsEnd(m, p) then [] else Cut(group))
                && State() == if IsEnd(m, p) then HandedOn(old(State()), if group != [] then [Cut(group)] else [], true)
                              else old(State())
    {
      hide HandedOn, Cut, SetUnibusWord, UnibusWord, Clear;
      stopped, next, end := false, p, offset;
      ghost var m := bus.ram[..];
      var flags := bus.ReadUnibusWord(p);
      var ph := bus.ReadUnibusWord(p + 2);
      var pl := bus.ReadUnibusWord(p + 4);
      var chain := ph as int % 0x40 * 0x1_0000 + pl;
      var len := bus.ReadUnibusWord(p + 6);
      var length := (0xFFFF - len as int + 1) * 2;
      if ph / 0x8000 == 0 {
        return true, p, end;
      }
      bus.WriteUnibusWord(p, 0xFFFF);
      if ph / 0x4000 % 2 == 0 {
        if length > MAX_BUFFER || chain + length > bus.ram.Length {
          return true, p, end;
        }
        StoredElsewhere(m, p, 0xFFFF, chain, chain + length);
        end := CopyBuffer(chain, length, buffer, offset, pending);
      } else {
        assert pending + [] == pending;
      }
      bus.WriteUnibusWord(p, if flags / 0x4000 % 2 == 1 then flags - 0x4000 else flags);
      StoredOver(m, p, 0xFFFF, if flags / 0x4000 % 2 == 1 then flags - 0x4000 else flags);
      if ph / 0x2000 % 2 == 1 {
        HandOn(p, buffer[..end]);
        end := 0;
      }
      next := if ph / 0x4000 % 2 == 1 then chain else p + DESCRIPTOR;
    }

    /** The whole list, when its walk repeats no descriptor and neither descriptors nor buffers
        lie in descriptors passed before them. */
    method Transmitter()
      requires bus.Valid() && |registers| == 8
      requires var ram, p := bus.ram[..], Start(registers);
               registers[CSR] / 0x10 % 2 == 0 ==> NoRepeat(ram, p) && Apart(ram, Walk(ram, p, {}), Stop(ram, p, {}))
      modifies this, bus.ram
      ensures old(registers[CSR]) / 0x10 % 2 == 1 ==> State() == old(State()) && bus.ram[..] == old(bus.ram[..])
      ensures old(registers[CSR]) / 0x10 % 2 == 0 ==>
                var ram, p := old(bus.ram[..]), Start(old(registers));
                var ws, stop := Walk(ram, p, {}), Stop(ram, p, {});
                && AllPass(ram, ws)
                && State() == Closed(HandedOn(old(State()), Frames(ram, ws), Ended(ram, ws)))
                && bus.ram[..] ==
                   if InRange(ram, stop) && IsValid(ram, stop) then SetUnibusWord(Memory(ram, ws), stop, 0xFFFF)
                                  else Memory(ram, ws)
    {
      hide HandedOn, Cut, Frames, Since, Passes, Memory, Passed, IsEnd, IsValid, IsChain, Target, Length, Buffer;
      hide Apart, AllPass, Ended, Next, Walk, Stop;
      if registers[CSR] / 0x10 % 2 == 1 {
        return;
      }
      var buffer := new Byte[MAX_FRAME];
      var pBuffers: nat, bufferOffset: nat, stopped := Start(registers), 0, false;
      ghost var ram, was, i: nat := bus.ram[..], State(), 0;
      ghost var ws, stop := Walk(ram, pBuffers, {}), Stop(ram, pBuffers, {});
      ghost var start := pBuffers;
      WalkIsLinked(ram, pBuffers, {});
      NothingSent(ram, ws, was);
      assert ws[..|ws|] == ws;
      while pBuffers + DESCRIPTOR <= bus.ram.Length && !stopped
        invariant i <= |ws| && pBuffers == Place(ws, stop, i) && |registers| == 8 && bufferOffset <= MAX_FRAME
        invariant State() == HandedOn(was, Frames(ram, ws[..i]), Ended(ram, ws[..i]))
        invariant !stopped ==> bus.ram[..] == Memory(ram, ws[..i]) && buffer[..bufferOffset] == Cut(Since(ram, ws[..i]))
        invariant stopped ==> i == |ws| && InRange(ram, stop)
                              && bus.ram[..] ==
                                 if IsValid(ram, stop) then SetUnibusWord(Memory(ram, ws), stop, 0xFFFF)
                                 else Memory(ram, ws)
        decreases |ws| - i, !stopped
      {
        RoundReady(ram, start, ws, stop, i);
        var next: nat;
        stopped, next, bufferOffset := PassDescriptor(pBuffers, buffer, bufferOffset, Since(ram, ws[..i]));
        if !stopped {
          RoundDone(ram, ws, i, was);
          i := i + 1;
        }
        pBuffers := next;
      }
      PassesAt(ram, ws, stop, start, i);
      registers := registers[CSR := Finished(registers[CSR])];
    }
  }
}
