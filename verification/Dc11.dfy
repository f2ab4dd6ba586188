/** The DC11 serial interface (dc11.cpp): four lines, each with status and data registers and
    a receive buffer. */
module Dc11 {
  import opened Words
  import opened Bits
  import opened Division

  const LINES: nat := 4

  /** `buffer` holds what `get_byte` delivered; a `char` of it is read sign-extended. */
  datatype Line = Line(rcsr: Word, rbuf: Word, tscr: Word, tbuf: Word, connected: bool, buffer: seq<Byte>) {

    predicate RxEnabled() {
      rcsr / 0x40 % 2 == 1
    }

    predicate TxEnabled() {
      tscr / 0x40 % 2 == 1
    }
  }

  function RxVector(line: nat): nat {
    0xC0 + line * 8
  }

  function TxVector(line: nat): nat {
    0xC0 + line * 8 + 4
  }

  function SignExtended(b: Byte): Word {
    if b < 0x80 then b else b + 0xFF00
  }

  /** `__builtin_parity`. */
  function Parity(v: nat): nat {
    if v == 0 then 0 else (v % 2 + Parity(v / 2)) % 2
  }

  /** ERROR, RING INDICATOR (when a line comes up) and CARRIER TRANSITION. */
  function WithErrors(rcsr: Word, up: bool): Word {
    rcsr % 0x2000 + 0xA000 + if up then 0x4000 else rcsr / 0x4000 % 2 * 0x4000
  }

  function WithDone(rcsr: Word): Word {
    if rcsr / 0x80 % 2 == 1 then rcsr else rcsr + 0x80
  }

  function WithParity(rcsr: Word, p: nat): Word {
    rcsr / 0x40 * 0x40 + p % 2 * 0x20 + rcsr % 0x20
  }

  function WithCarrier(rcsr: Word, connected: bool): Word {
    rcsr / 8 * 8 + rcsr / 2 % 2 * 2 + if connected then 5 else 0
  }

  // Nothing but a program turns receive interrupts on or off.

  lemma ErrorsKeepEnable(rcsr: Word, up: bool)
    ensures WithErrors(rcsr, up) / 0x40 % 2 == rcsr / 0x40 % 2
  {
    var c: int := rcsr;
    var low, high := c % 0x2000, 0x280 + if up then 0x100 else c / 0x4000 % 2 * 0x100;
    ClearedKeepEnable(rcsr);
    QuotientIs(WithErrors(rcsr, up), 0x40, low / 0x40 + high, low % 0x40);
  }

  lemma ClearedKeepEnable(rcsr: Word)
    ensures rcsr % 0x2000 / 0x40 % 2 == rcsr / 0x40 % 2
  {
    var low := rcsr as int % 0x2000;
    QuotientIs(rcsr, 0x40, rcsr as int / 0x2000 * 0x80 + low / 0x40, low % 0x40);
  }

  lemma DoneKeepsEnable(rcsr: Word)
    ensures WithDone(rcsr) / 0x40 % 2 == rcsr / 0x40 % 2
  {
    QuotientIs(rcsr as int + 0x80, 0x40, rcsr / 0x40 + 2, rcsr % 0x40);
  }

  lemma ParityKeepsEnable(rcsr: Word, p: nat)
    ensures WithParity(rcsr, p) / 0x40 == rcsr / 0x40
  {
    QuotientIs(WithParity(rcsr, p), 0x40, rcsr / 0x40, p % 2 * 0x20 + rcsr % 0x20);
  }

  lemma CarrierKeepsEnable(rcsr: Word, connected: bool)
    ensures WithCarrier(rcsr, connected) / 0x40 == rcsr / 0x40
  {
    var c: int := rcsr;
    QuotientIs(c, 8, c / 0x40 * 8 + c / 8 % 8, c % 8);
    QuotientIs(WithCarrier(rcsr, connected), 0x40, c / 0x40,
               c / 8 % 8 * 8 + c / 2 % 2 * 2 + if connected then 5 else 0);
  }

  /** The bits of the status register: 15, 13 and, when the line comes up, 14 for an error; 7 for
      data; 5 the parity; 2 and 0 the carrier. No other bit changes. */
  lemma StatusBits(rcsr: Word, up: bool, p: nat, i: nat)
    requires i < 16
    ensures BitOf(WithErrors(rcsr, up), i) == (i == 15 || i == 13 || (i == 14 && up) || BitOf(rcsr, i))
    ensures BitOf(WithDone(rcsr), i) == (i == 7 || BitOf(rcsr, i))
    ensures BitOf(WithParity(rcsr, p), i) == if i == 5 then p % 2 == 1 else BitOf(rcsr, i)
    ensures BitOf(WithCarrier(rcsr, up), i) == if i == 0 || i == 2 then up else BitOf(rcsr, i)
  {
    ErrorBits(rcsr, up, i);
    DoneBit(rcsr, i);
    ParityBit(rcsr, p, i);
    CarrierBits(rcsr, up, i);
  }

  lemma ErrorBits(rcsr: Word, up: bool, i: nat)
    requires i < 16
    ensures BitOf(WithErrors(rcsr, up), i) == (i == 15 || i == 13 || (i == 14 && up) || BitOf(rcsr, i))
  {
    var low, top: nat := rcsr as int % 0x2000, 5 + if up then 2 else rcsr as int / 0x4000 % 2 * 2;
    Powers();
    ErrorsIs(rcsr, up);
    TopThree(rcsr);
    hide Pow2, BitOf, WithErrors;
    JoinedBit(top, low, 13, i);
    JoinedBit(rcsr / 0x2000, low, 13, i);
    if i >= 13 {
      SmallBits(top, i - 13);
      SmallBits(rcsr / 0x2000, i - 13);
    }
  }

  lemma ErrorsIs(rcsr: Word, up: bool)
    ensures WithErrors(rcsr, up) == (5 + if up then 2 else rcsr / 0x4000 % 2 * 2) * 0x2000 + rcsr % 0x2000
  {
  }

  lemma Powers()
    ensures Pow2(1) == 2 && Pow2(3) == 8 && Pow2(5) == 0x20 && Pow2(7) == 0x80 && Pow2(13) == 0x2000
  {
    assert Pow2(7) == 0x80;
    Pow2Sum(7, 6);
  }

  lemma TopThree(x: Word)
    ensures x / 0x4000 == x / 0x2000 / 2 && x / 0x2000 < 8
  {
    QuotientIs(x, 0x4000, x / 0x2000 / 2, x / 0x2000 % 2 * 0x2000 + x % 0x2000);
  }

  lemma SmallBits(x: nat, i: nat)
    requires x < 8 && i < 3
    ensures BitOf(x, i) == if i == 0 then x % 2 == 1 else if i == 1 then x / 2 % 2 == 1 else x / 4 == 1
  {
  }

  lemma DoneBit(rcsr: Word, i: nat)
    ensures BitOf(WithDone(rcsr), i) == (i == 7 || BitOf(rcsr, i))
  {
    assert Pow2(7) == 0x80;
    hide Pow2;
    if !BitOf(rcsr, 7) {
      SetBit(rcsr, 7, i);
    }
  }

  lemma ParityBit(rcsr: Word, p: nat, i: nat)
    ensures BitOf(WithParity(rcsr, p), i) == if i == 5 then p % 2 == 1 else BitOf(rcsr, i)
  {
    var low := rcsr as int % 0x20;
    QuotientIs(rcsr, 0x40, rcsr / 0x20 / 2, rcsr / 0x20 % 2 * 0x20 + low);
    Powers();
    hide Pow2, BitOf;
    FieldReplaced(rcsr / 0x20, rcsr / 0x40 * 2 + p % 2, rcsr / 0x40, rcsr / 0x20 % 2, p % 2, 1, low, 5, i);
    SmallBits(p % 2, 0);
  }

  lemma CarrierBits(rcsr: Word, up: bool, i: nat)
    ensures BitOf(WithCarrier(rcsr, up), i) == if i == 0 || i == 2 then up else BitOf(rcsr, i)
  {
    var now: nat := rcsr as int / 2 % 2 * 2 + if up then 5 else 0;
    Powers();
    CarrierIs(rcsr, up);
    hide Pow2, BitOf, WithCarrier;
    JoinedBit(rcsr / 8, now, 3, i);
    JoinedBit(rcsr / 8, rcsr % 8, 3, i);
    if i < 3 {
      CarrierLow(rcsr, up, i);
    }
  }

  lemma CarrierLow(rcsr: Word, up: bool, i: nat)
    requires i < 3
    ensures BitOf(rcsr / 2 % 2 * 2 + if up then 5 else 0, i) == if i == 0 || i == 2 then up else BitOf(rcsr % 8, i)
  {
    hide BitOf;
    SmallBits(rcsr / 2 % 2 * 2 + if up then 5 else 0, i);
    SmallBits(rcsr % 8, i);
    LowThree(rcsr);
  }

  lemma CarrierIs(rcsr: Word, up: bool)
    ensures WithCarrier(rcsr, up) == rcsr / 8 * 8 + (rcsr / 2 % 2 * 2 + if up then 5 else 0)
  {
  }

  lemma LowThree(x: Word)
    ensures x % 8 / 2 % 2 == x / 2 % 2
  {
    QuotientIs(x / 2, 2, x / 8 * 2 + x % 8 / 4, x % 8 / 2 % 2);
  }

  // --- What happens to a line ---

  function Checked(l: Line, up: bool): Line {
    if up == l.connected then l else l.(connected := up, rcsr := WithErrors(l.rcsr, up))
  }

  function Done(l: Line): Line {
    l.(rcsr := WithDone(l.rcsr))
  }

  /** One visit of the polling thread that finds `input`. */
  function Polled(l: Line, up: bool, input: seq<Byte>): Line {
    var c := Checked(l, up);
    if input == [] then c else Done(c.(buffer := c.buffer + input))
  }

  predicate PollTriggers(l: Line, up: bool, input: seq<Byte>) {
    l.RxEnabled() && (up != l.connected || input != [])
  }

  /** The oldest byte taken out. */
  function Popped(l: Line): Line
    requires l.buffer != []
  {
    var p := l.(rcsr := WithParity(l.rcsr, Parity(SignExtended(l.buffer[0]))), buffer := l.buffer[1..]);
    if p.buffer == [] then p else Done(p)
  }

  /** One of the four registers written. */
  function Written(l: Line, sub: nat, v: Word): Line {
    match sub
    case 0 => l.(rcsr := v)
    case 1 => l.(rbuf := v)
    case 2 => l.(tscr := v)
    case _ => l.(tbuf := v)
  }

  /** What a program reads from RBUF. */
  function Value(l: Line): Word {
    if l.buffer == [] then l.rbuf else SignExtended(l.buffer[0])
  }

  lemma CheckedKeeps(l: Line, up: bool)
    ensures Checked(l, up).RxEnabled() == l.RxEnabled() && Checked(l, up).buffer == l.buffer
    ensures Done(l).RxEnabled() == l.RxEnabled() && Done(l).buffer == l.buffer
  {
    ErrorsKeepEnable(l.rcsr, up);
    DoneKeepsEnable(l.rcsr);
  }

  lemma PoppedKeeps(l: Line)
    requires l.buffer != []
    ensures Popped(l).RxEnabled() == l.RxEnabled() && Popped(l).buffer == l.buffer[1..]
  {
    var p := Parity(SignExtended(l.buffer[0]));
    ParityKeepsEnable(l.rcsr, p);
    DoneKeepsEnable(WithParity(l.rcsr, p));
  }

  /** The low byte of what is read is the byte that came in. */
  lemma LowIsTheByte(b: Byte)
    ensures Low(SignExtended(b)) == b
  {
  }

  lemma RxVectorsDiffer(line: nat, other: nat)
    ensures RxVector(line) == RxVector(other) ==> line == other
    ensures RxVector(line) != TxVector(other)
  {
  }

  class Dc11 {
    const registers: array<Word>
    const connected: array<bool>
    const recvBuffers: array<seq<Byte>>
    /** The processor's queue at level 5: a set, so asking twice is asking once. */
    var vectors: set<nat>

    predicate Valid()
      reads this
    {
      && registers.Length == 4 * LINES && connected.Length == LINES && recvBuffers.Length == LINES
    }

    function LineAt(line: nat): Line
      requires Valid() && line < LINES
      reads this, registers, connected, recvBuffers
    {
      Line(registers[4 * line], registers[4 * line + 1], registers[4 * line + 2], registers[4 * line + 3],
           connected[line], recvBuffers[line])
    }

    constructor ()
      ensures Valid() && vectors == {} && fresh(registers) && fresh(connected) && fresh(recvBuffers)
      ensures forall n :: 0 <= n < LINES ==> LineAt(n) == Line(0, 0, 0, 0, false, [])
    {
      registers := new Word[4 * LINES](i => 0);
      connected := new bool[LINES](i => false);
      recvBuffers := new seq<Byte>[LINES](i => []);
      vectors := {};
    }

    method TriggerInterrupt(line: nat, isTx: bool)
      modifies this`vectors
      ensures vectors == old(vectors) + {if isTx then TxVector(line) else RxVector(line)}
    {
      vectors := vectors + {0xC0 + line * 8 + if isTx then 4 else 0};
    }

    /** The polling thread at one line; `up` and `input` are what the channel reports. */
    method Poll(line: nat, up: bool, input: seq<Byte>)
      requires Valid() && line < LINES
      modifies this, registers, connected, recvBuffers
      ensures Valid() && LineAt(line) == Polled(old(LineAt(line)), up, input)
      ensures forall n :: 0 <= n < LINES && n != line ==> LineAt(n) == old(LineAt(n))
      ensures vectors == old(vectors) + if PollTriggers(old(LineAt(line)), up, input) then {RxVector(line)} else {}
    {
      hide WithErrors, WithDone, RxVector;
      ghost var was := LineAt(line);
      CheckedKeeps(was, up);
      if up != connected[line] {
        connected[line] := up;
        registers[4 * line] := WithErrors(registers[4 * line], up);
        if registers[4 * line] / 0x40 % 2 == 1 {
          TriggerInterrupt(line, false);
        }
      }
      var haveData, i := false, 0;
      while i < |input|
        modifies recvBuffers
        invariant i <= |input| && haveData == (i > 0)
        invariant recvBuffers[line] == was.buffer + input[..i]
        invariant forall n :: 0 <= n < LINES && n != line ==> recvBuffers[n] == old(recvBuffers[n])
      {
        recvBuffers[line] := recvBuffers[line] + [input[i]];
        haveData, i := true, i + 1;
      }
      if haveData {
        registers[4 * line] := WithDone(registers[4 * line]);
        DoneKeepsEnable(Checked(was, up).rcsr);
        if registers[4 * line] / 0x40 % 2 == 1 {
          TriggerInterrupt(line, false);
        }
      }
    }

    /** A program reads RBUF. */
    method ReadData(line: nat) returns (v: Word)
      requires Valid() && line < LINES
      modifies this, registers, recvBuffers
      ensures Valid() && v == Value(old(LineAt(line)))
      ensures var was := old(LineAt(line));
              && LineAt(line) == (if was.buffer == [] then was else Popped(was))
              && vectors == old(vectors) + if |was.buffer| > 1 && was.RxEnabled() then {RxVector(line)} else {}
      ensures forall n :: 0 <= n < LINES && n != line ==> LineAt(n) == old(LineAt(n))
    {
      hide WithDone, WithParity;
      ghost var was := LineAt(line);
      v := registers[4 * line + 1];
      if |recvBuffers[line]| > 0 {
        PoppedKeeps(was);
        v := SignExtended(recvBuffers[line][0]);
        registers[4 * line] := WithParity(registers[4 * line], Parity(v));
        recvBuffers[line] := recvBuffers[line][1..];
        if |recvBuffers[line]| > 0 {
          registers[4 * line] := WithDone(registers[4 * line]);
          if registers[4 * line] / 0x40 % 2 == 1 {
            TriggerInterrupt(line, false);
          }
        }
      }
    }

    /** A program reads RCSR: the error bits are seen once. */
    method ReadStatus(line: nat) returns (v: Word)
      requires Valid() && line < LINES
      modifies registers
      ensures var was := old(LineAt(line));
              && v == WithCarrier(was.rcsr, was.connected)
              && LineAt(line) == was.(rcsr := v % 0x2000) && LineAt(line).RxEnabled() == was.RxEnabled()
      ensures forall n :: 0 <= n < LINES && n != line ==> LineAt(n) == old(LineAt(n))
    {
      CarrierKeepsEnable(registers[4 * line], connected[line]);
      v := WithCarrier(registers[4 * line], connected[line]);
      ClearedKeepEnable(v);
      registers[4 * line] := v % 0x2000;
    }

    /** A program writes one of the four registers of a line; a transmitted byte is returned. */
    method WriteWord(line: nat, sub: nat, v: Word) returns (sent: Option<Byte>)
      requires Valid() && line < LINES && sub < 4
      modifies this, registers
      ensures Valid() && sent == if sub == 3 then Some(v % 0x80) else None
      ensures var was := old(LineAt(line));
              && LineAt(line) == Written(was, sub, v)
              && vectors == old(vectors) + if sub == 3 && was.TxEnabled() then {TxVector(line)} else {}
      ensures forall n :: 0 <= n < LINES && n != line ==> LineAt(n) == old(LineAt(n))
    {
      sent := None;
      if sub == 3 {
        sent := Some(v % 0x80);
        if registers[4 * line + 2] / 0x40 % 2 == 1 {
          TriggerInterrupt(line, true);
        }
      }
      registers[4 * line + sub] := v;
    }
  }
}
