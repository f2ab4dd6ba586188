/** No serial byte is stranded or reordered (dc11.cpp). The polling thread and the processor
    share a line under its lock; the polling thread asks for an interrupt through a set that
    merges repeated requests. Every interleaving is a run of the system below. */
module SerialProtocol {
  import opened Words
  import opened Dc11

  type LineNumber = n: nat | n < LINES

  datatype Holder = Free | ByPoller | ByProcessor

  /** Where the polling thread is. */
  datatype Poller =
    | Away
    | Checking(line: LineNumber)
    | Receiving(line: LineNumber, haveData: bool)
    | Asking(line: LineNumber)
    | Departing(line: LineNumber)

  /** Where the processor is in a read of RBUF. */
  datatype Processor =
    | Running
    | Popping(line: LineNumber)
    | Repeating(line: LineNumber)
    | Finishing(line: LineNumber)

  datatype System = System(
    lines: seq<Line>,
    locks: seq<Holder>,
    poller: Poller,
    processor: Processor,
    vectors: set<nat>,
    received: seq<seq<Byte>>,    // what each line has received
    read: seq<seq<Word>>,        // what programs have read of it
    served: seq<bool>)           // the receive interrupt was delivered and RBUF not read since

  datatype Action =
    | PollTake(line: LineNumber)
    | PollCheck(up: bool)
    | PollByte(b: Byte)
    | PollDone
    | PollAsk
    | PollLeave
    | ReadTake(line: LineNumber)
    | ReadPop
    | ReadAsk
    | ReadLeave
    | ReadStatus(line: LineNumber)
    | WriteRegister(line: LineNumber, sub: nat, v: Word)
    | Deliver(vector: nat)
    | OtherDevice(vector: nat)
    | Withdraw(vector: nat)
    | Reset

  predicate Wellformed(s: System) {
    |s.lines| == |s.locks| == |s.received| == |s.read| == |s.served| == LINES
  }

  predicate Enabled(s: System, a: Action)
    requires Wellformed(s)
  {
    match a
    case PollTake(line) => s.poller.Away? && s.locks[line].Free?
    case PollCheck(_) => s.poller.Checking?
    case PollByte(_) => s.poller.Receiving?
    case PollDone => s.poller.Receiving?
    case PollAsk => s.poller.Asking?
    case PollLeave => s.poller.Departing?
    case ReadTake(line) => s.processor.Running? && s.locks[line].Free?
    case ReadPop => s.processor.Popping?
    case ReadAsk => s.processor.Repeating?
    case ReadLeave => s.processor.Finishing?
    case ReadStatus(line) => s.processor.Running? && s.locks[line].Free?
    case WriteRegister(line, sub, _) => s.processor.Running? && s.locks[line].Free? && sub < 4
    case Deliver(vector) => s.processor.Running? && vector in s.vectors
    case OtherDevice(_) => true
    case Withdraw(_) => true
    case Reset => s.processor.Running?
  }

  function Asked(s: System, line: LineNumber): set<nat>
    requires Wellformed(s)
  {
    if s.lines[line].RxEnabled() then s.vectors + {RxVector(line)} else s.vectors
  }

  /** RBUF is read: the byte, if there is one, leaves the buffer. */
  function Pop(s: System): System
    requires Wellformed(s) && s.processor.Popping?
  {
    var line := s.processor.line;
    var l := s.lines[line];
    if l.buffer == [] then s.(processor := Finishing(line), served := s.served[line := false])
    else s.(lines := s.lines[line := Popped(l)], read := s.read[line := s.read[line] + [Value(l)]],
            served := s.served[line := false],
            processor := if |l.buffer| > 1 then Repeating(line) else Finishing(line))
  }

  function Apply(s: System, a: Action): (t: System)
    requires Wellformed(s) && Enabled(s, a)
    ensures Wellformed(t)
  {
    match a
    case PollTake(line) => s.(locks := s.locks[line := ByPoller], poller := Checking(line))
    case PollCheck(up) =>
      var line := s.poller.line;
      var checked := s.(lines := s.lines[line := Checked(s.lines[line], up)], poller := Receiving(line, false));
      if up == s.lines[line].connected then checked else checked.(vectors := Asked(checked, line))
    case PollByte(b) =>
      var line := s.poller.line;
      var l := s.lines[line];
      s.(lines := s.lines[line := l.(buffer := l.buffer + [b])], received := s.received[line := s.received[line] + [b]],
         poller := Receiving(line, true))
    case PollDone =>
      var line := s.poller.line;
      if s.poller.haveData then s.(lines := s.lines[line := Done(s.lines[line])], poller := Asking(line))
      else s.(poller := Departing(line))
    case PollAsk => s.(vectors := Asked(s, s.poller.line), poller := Departing(s.poller.line))
    case PollLeave => s.(locks := s.locks[s.poller.line := Free], poller := Away)
    case ReadTake(line) => s.(locks := s.locks[line := ByProcessor], processor := Popping(line))
    case ReadPop => Pop(s)
    case ReadAsk => s.(vectors := Asked(s, s.processor.line), processor := Finishing(s.processor.line))
    case ReadLeave => s.(locks := s.locks[s.processor.line := Free], processor := Running)
    case ReadStatus(line) =>
      var l := s.lines[line];
      s.(lines := s.lines[line := l.(rcsr := WithCarrier(l.rcsr, l.connected) % 0x2000)])
    case WriteRegister(line, sub, v) =>
      s.(lines := s.lines[line := Written(s.lines[line], sub, v)],
         vectors := if sub == 3 && s.lines[line].TxEnabled() then s.vectors + {TxVector(line)} else s.vectors)
    case Deliver(vector) =>
      s.(vectors := s.vectors - {vector},
         served := seq(LINES, i requires 0 <= i < LINES => s.served[i] || vector == RxVector(i)))
    case OtherDevice(vector) => s.(vectors := s.vectors + {vector})
    case Withdraw(vector) => s.(vectors := s.vectors - {vector})
    case Reset => s.(vectors := {})
  }

  function Run(s: System, actions: seq<Action>): (r: Option<System>)
    requires Wellformed(s)
    ensures r.Some? ==> Wellformed(r.value)
    decreases |actions|
  {
    if actions == [] then Some(s)
    else if !Enabled(s, actions[0]) then None
    else Run(Apply(s, actions[0]), actions[1..])
  }

  /** All that is asked of programs and other devices: this line's receive interrupt stays on,
      nothing withdraws its vector, and there is no RESET. */
  predicate Undisturbed(line: LineNumber, a: Action) {
    match a
    case WriteRegister(n, 0, v) => n == line ==> v / 0x40 % 2 == 1
    case Withdraw(vector) => vector != RxVector(line)
    case Reset => false
    case _ => true
  }

  // --- The invariant of one line ---

  function PollerLine(p: Poller): Option<LineNumber> {
    if p.Away? then None else Some(p.line)
  }

  function ProcessorLine(p: Processor): Option<LineNumber> {
    if p.Running? then None else Some(p.line)
  }

  /** A line's lock is held exactly by the thread that is at the line. */
  predicate LockHeld(holder: Holder, poller: Option<LineNumber>, processor: Option<LineNumber>, n: LineNumber) {
    && (holder.ByPoller? <==> poller == Some(n))
    && (holder.ByProcessor? <==> processor == Some(n))
  }

  predicate LocksHeld(s: System)
    requires Wellformed(s)
  {
    forall n: LineNumber :: LockHeld(s.locks[n], PollerLine(s.poller), ProcessorLine(s.processor), n)
  }

  function LowBytes(words: seq<Word>): seq<Byte> {
    seq<Byte>(|words|, i requires 0 <= i < |words| => Low(words[i]))
  }

  /** What came in is what was read, followed by what is still buffered. */
  predicate InOrder(s: System, line: LineNumber)
    requires Wellformed(s)
  {
    s.received[line] == LowBytes(s.read[line]) + s.lines[line].buffer
  }

  /** A waiting byte is announced, or is about to be by the thread that holds the lock. */
  predicate Announced(s: System, line: LineNumber)
    requires Wellformed(s)
  {
    || s.lines[line].buffer == []
    || RxVector(line) in s.vectors
    || s.served[line]
    || s.poller == Receiving(line, true) || s.poller == Asking(line)
    || s.processor == Repeating(line)
  }

  predicate Inv(s: System, line: LineNumber) {
    Wellformed(s) && LocksHeld(s) && s.lines[line].RxEnabled() && InOrder(s, line) && Announced(s, line)
  }

  lemma LocksKept(s: System, a: Action)
    requires Wellformed(s) && LocksHeld(s) && Enabled(s, a)
    ensures LocksHeld(Apply(s, a))
  {
    hide Checked, Done, Popped, WithCarrier, Value, RxVector, TxVector;
    var t := Apply(s, a);
    forall n: LineNumber ensures LockHeld(t.locks[n], PollerLine(t.poller), ProcessorLine(t.processor), n) {
      assert LockHeld(s.locks[n], PollerLine(s.poller), ProcessorLine(s.processor), n);
    }
  }

  lemma EnabledKept(s: System, a: Action, line: LineNumber)
    requires Wellformed(s) && Enabled(s, a) && Undisturbed(line, a) && s.lines[line].RxEnabled()
    ensures Apply(s, a).lines[line].RxEnabled()
  {
    hide Checked, Done, Popped, WithCarrier, WithDone, Value, RxVector, TxVector, LowBytes;
    var l := s.lines[line];
    match a
    case PollCheck(up) => CheckedKeeps(l, up);
    case PollDone => CheckedKeeps(l, false);
    case ReadPop =>
      if l.buffer != [] {
        PoppedKeeps(l);
      }
    case ReadStatus(_) =>
      CarrierKeepsEnable(l.rcsr, l.connected);
      ClearedKeepEnable(WithCarrier(l.rcsr, l.connected));
    case _ =>
  }

  lemma LowBytesSnoc(words: seq<Word>, w: Word)
    ensures LowBytes(words + [w]) == LowBytes(words) + [Low(w)]
  {
  }

  lemma OrderKept(s: System, a: Action, line: LineNumber)
    requires Wellformed(s) && Enabled(s, a) && InOrder(s, line)
    ensures InOrder(Apply(s, a), line)
  {
    hide Popped, Checked, WithDone, WithCarrier, LowBytes, SignExtended, RxVector, TxVector, Low;
    var l := s.lines[line];
    match a
    case PollCheck(up) => CheckedKeeps(l, up);
    case PollByte(b) =>
      assert LowBytes(s.read[line]) + (l.buffer + [b]) == LowBytes(s.read[line]) + l.buffer + [b];
    case ReadPop =>
      if s.processor.line == line && l.buffer != [] {
        PoppedKeeps(l);
        LowIsTheByte(l.buffer[0]);
        LowBytesSnoc(s.read[line], Value(l));
        assert [l.buffer[0]] + l.buffer[1..] == l.buffer;
        assert LowBytes(s.read[line]) + [l.buffer[0]] + l.buffer[1..] == LowBytes(s.read[line]) + l.buffer;
      }
    case _ =>
  }

  lemma AnnouncedKept(s: System, a: Action, line: LineNumber)
    requires Wellformed(s) && LocksHeld(s) && Enabled(s, a) && Undisturbed(line, a) && s.lines[line].RxEnabled()
             && Announced(s, line)
    ensures Announced(Apply(s, a), line)
  {
    hide Popped, Checked, WithDone, WithCarrier, SignExtended, RxVector, TxVector;
    var l := s.lines[line];
    match a
    case PollCheck(up) => CheckedKeeps(l, up);
    case ReadPop =>
      if s.processor.line == line && l.buffer != [] {
        PoppedKeeps(l);
      }
    case _ =>
  }

  /** In every run with the line's receive interrupt on: bytes are read in the order they came
      in, none lost and none repeated; and when no thread holds the line, a waiting byte has
      its interrupt queued, or the interrupt was delivered and RBUF has not been read since. */
  lemma {:induction false} NoStrandedByte(s: System, actions: seq<Action>, line: LineNumber)
    requires Inv(s, line) && Run(s, actions).Some? && forall i :: 0 <= i < |actions| ==> Undisturbed(line, actions[i])
    ensures Inv(Run(s, actions).value, line)
    ensures var t := Run(s, actions).value;
            t.locks[line].Free? && t.lines[line].buffer != [] ==> RxVector(line) in t.vectors || t.served[line]
    decreases |actions|
  {
    hide Apply, InOrder, RxVector;
    if actions != [] {
      LocksKept(s, actions[0]);
      EnabledKept(s, actions[0], line);
      OrderKept(s, actions[0], line);
      AnnouncedKept(s, actions[0], line);
      NoStrandedByte(Apply(s, actions[0]), actions[1..], line);
    }
  }

  /** Lines that have just been switched on. */
  function Start(lines: seq<Line>): System
    requires |lines| == LINES
  {
    System(lines, seq(LINES, i => Free), Away, Running, {}, seq(LINES, i => []), seq(LINES, i => []),
      seq(LINES, i => false))
  }

  lemma StartsGood(lines: seq<Line>, line: LineNumber)
    requires |lines| == LINES && lines[line].RxEnabled() && lines[line].buffer == []
    ensures Inv(Start(lines), line)
  {
  }

  // --- A handler that reads once per interrupt ---

  /** Take the interrupt and read RBUF. */
  function Handle(line: LineNumber, more: bool): seq<Action> {
    [Deliver(RxVector(line)), ReadTake(line), ReadPop] + (if more then [ReadAsk] else []) + [ReadLeave]
  }

  function HandleAll(line: LineNumber, n: nat): seq<Action> {
    if n == 0 then [] else Handle(line, n > 1) + HandleAll(line, n - 1)
  }

  lemma {:induction false} RunAppends(s: System, first: seq<Action>, second: seq<Action>)
    requires Wellformed(s) && Run(s, first).Some?
    ensures Run(s, first + second) == Run(Run(s, first).value, second)
    decreases |first|
  {
    hide Apply, Enabled;
    if first == [] {
      assert first + second == second;
    } else {
      assert (first + second)[0] == first[0] && (first + second)[1..] == first[1..] + second;
      RunAppends(Apply(s, first[0]), first[1..], second);
    }
  }

  /** The processor can take an interrupt of this line and read a byte. */
  predicate Ready(s: System, line: LineNumber) {
    Wellformed(s) && s.lines[line].RxEnabled() && s.locks[line].Free? && s.processor.Running?
    && (s.lines[line].buffer != [] ==> RxVector(line) in s.vectors)
  }

  lemma RunOfThree(s: System, a: Action, b: Action, c: Action)
    requires Wellformed(s) && Enabled(s, a) && Enabled(Apply(s, a), b) && Enabled(Apply(Apply(s, a), b), c)
    ensures Run(s, [a, b, c]) == Some(Apply(Apply(Apply(s, a), b), c))
  {
    hide Apply, Enabled;
    assert [a, b, c] == [a] + [b, c] && [b, c] == [b] + [c] && [c] == [c] + [];
    OneByOne(s, a, [b, c]);
    OneByOne(Apply(s, a), b, [c]);
    OneByOne(Apply(Apply(s, a), b), c, []);
  }

  /** From the interrupt to the byte. */
  lemma TakeAndPop(s: System, line: LineNumber)
    requires Ready(s, line) && s.lines[line].buffer != []
    ensures var l, r := s.lines[line], Run(s, [Deliver(RxVector(line)), ReadTake(line), ReadPop]);
            && r.Some? && r.value.received == s.received && r.value.locks[line].ByProcessor?
            && r.value.lines[line].buffer == l.buffer[1..] && r.value.lines[line].RxEnabled()
            && r.value.read[line] == s.read[line] + [Value(l)]
            && r.value.processor == if |l.buffer| > 1 then Repeating(line) else Finishing(line)
  {
    hide Popped, RxVector, Value;
    PoppedKeeps(s.lines[line]);
    RunOfThree(s, Deliver(RxVector(line)), ReadTake(line), ReadPop);
  }

  /** From the byte back to the program, asking again when there is more. */
  lemma AskAndLeave(s: System, line: LineNumber)
    requires Wellformed(s) && s.lines[line].RxEnabled()
    requires s.processor == if s.lines[line].buffer != [] then Repeating(line) else Finishing(line)
    ensures var r := Run(s, (if s.lines[line].buffer != [] then [ReadAsk] else []) + [ReadLeave]);
            r.Some? && Ready(r.value, line) && r.value.received == s.received && r.value.lines == s.lines
            && r.value.read == s.read
  {
    hide RxVector;
    var s' := if s.lines[line].buffer != [] then Apply(s, ReadAsk) else s;
    if s.lines[line].buffer != [] {
      OneByOne(s, ReadAsk, [ReadLeave]);
    }
    OneByOne(s', ReadLeave, []);
    assert [ReadLeave] + [] == [ReadLeave] && [] + [ReadLeave] == [ReadLeave];
  }

  /** One interrupt, one byte, and the request for the next. */
  lemma HandleStep(s: System, line: LineNumber)
    requires Wellformed(s) && Ready(s, line) && InOrder(s, line) && s.lines[line].buffer != []
    ensures var r := Run(s, Handle(line, |s.lines[line].buffer| > 1));
            r.Some? && Ready(r.value, line) && InOrder(r.value, line) && r.value.received == s.received
            && r.value.lines[line].buffer == s.lines[line].buffer[1..]
  {
    hide Apply, Enabled, Ready, Run, SignExtended, LowBytes, Low, RxVector;
    var l := s.lines[line];
    var front := [Deliver(RxVector(line)), ReadTake(line), ReadPop];
    var back := (if |l.buffer| > 1 then [ReadAsk] else []) + [ReadLeave];
    TakeAndPop(s, line);
    var t := Run(s, front).value;
    AskAndLeave(t, line);
    RunAppends(s, front, back);
    assert Handle(line, |l.buffer| > 1) == front + back;
    LowIsTheByte(l.buffer[0]);
    LowBytesSnoc(s.read[line], Value(l));
    assert [l.buffer[0]] + l.buffer[1..] == l.buffer;
    assert LowBytes(s.read[line]) + [l.buffer[0]] + l.buffer[1..] == LowBytes(s.read[line]) + l.buffer;
  }

  lemma OneByOne(s: System, a: Action, rest: seq<Action>)
    requires Wellformed(s) && Enabled(s, a)
    ensures Run(s, [a] + rest) == Run(Apply(s, a), rest)
  {
    hide Apply;
    assert ([a] + rest)[1..] == rest;
  }

  /** A handler that reads RBUF once for every interrupt empties the buffer: after as many
      interrupts as there are bytes, everything received has been read, in order. */
  lemma {:induction false} OneInterruptPerByte(s: System, line: LineNumber)
    requires Ready(s, line) && InOrder(s, line)
    ensures var r := Run(s, HandleAll(line, |s.lines[line].buffer|));
            r.Some? && r.value.lines[line].buffer == [] && LowBytes(r.value.read[line]) == s.received[line]
    decreases |s.lines[line].buffer|
  {
    hide Handle, LowBytes, Apply, Enabled, Low;
    var n := |s.lines[line].buffer|;
    if n == 0 {
      assert LowBytes(s.read[line]) + [] == LowBytes(s.read[line]);
    } else {
      HandleStep(s, line);
      RunAppends(s, Handle(line, n > 1), HandleAll(line, n - 1));
      OneInterruptPerByte(Run(s, Handle(line, n > 1)).value, line);
    }
  }

  // --- A visit of the polling thread ---

  function Bytes(input: seq<Byte>): seq<Action>
    decreases |input|
  {
    if input == [] then [] else [PollByte(input[0])] + Bytes(input[1..])
  }

  function Visit(line: LineNumber, up: bool, input: seq<Byte>): seq<Action> {
    [PollTake(line), PollCheck(up)]
      + (Bytes(input) + (if input == [] then [PollDone] else [PollDone, PollAsk]) + [PollLeave])
  }

  lemma {:induction false} BytesArrive(s: System, line: LineNumber, input: seq<Byte>)
    requires Wellformed(s) && s.poller.Receiving? && s.poller.line == line
    ensures var r := Run(s, Bytes(input));
            r.Some? && r.value.lines == s.lines[line := s.lines[line].(buffer := s.lines[line].buffer + input)]
            && r.value.vectors == s.vectors && r.value.poller == Receiving(line, s.poller.haveData || input != [])
    decreases |input|
  {
    if input == [] {
      assert s.lines[line].buffer + [] == s.lines[line].buffer;
    } else {
      OneByOne(s, PollByte(input[0]), Bytes(input[1..]));
      BytesArrive(Apply(s, PollByte(input[0])), line, input[1..]);
      assert s.lines[line].buffer + [input[0]] + input[1..] == s.lines[line].buffer + input;
    }
  }

  /** The end of a visit that found bytes, and of one that found none. */
  lemma VisitEnds(s: System, line: LineNumber)
    requires Wellformed(s) && s.poller.Receiving? && s.poller.line == line
    ensures var r := Run(s, (if s.poller.haveData then [PollDone, PollAsk] else [PollDone]) + [PollLeave]);
            && r.Some? && r.value.lines == (if s.poller.haveData then s.lines[line := Done(s.lines[line])] else s.lines)
            && r.value.vectors == if s.poller.haveData then Asked(s, line) else s.vectors
  {
    hide WithDone, RxVector;
    CheckedKeeps(s.lines[line], false);
    var s1 := Apply(s, PollDone);
    if s.poller.haveData {
      RunOfThree(s, PollDone, PollAsk, PollLeave);
      assert [PollDone, PollAsk] + [PollLeave] == [PollDone, PollAsk, PollLeave];
    } else {
      OneByOne(s, PollDone, [PollLeave]);
      OneByOne(s1, PollLeave, []);
      assert [PollLeave] + [] == [PollLeave];
    }
  }

  /** Undisturbed, the steps of a visit do to the line and to the queue what `Poll` does. */
  lemma VisitIsPoll(s: System, line: LineNumber, up: bool, input: seq<Byte>)
    requires Wellformed(s) && s.poller.Away? && s.locks[line].Free?
    ensures var r := Run(s, Visit(line, up, input));
            && r.Some? && r.value.lines == s.lines[line := Polled(s.lines[line], up, input)]
            && r.value.vectors == s.vectors + if PollTriggers(s.lines[line], up, input) then {RxVector(line)} else {}
  {
    hide WithErrors, WithDone, RxVector, Bytes, Run;
    CheckedKeeps(s.lines[line], up);
    var s1 := Apply(s, PollTake(line));
    var s2 := Apply(s1, PollCheck(up));
    BytesArrive(s2, line, input);
    var s3 := Run(s2, Bytes(input)).value;
    VisitEnds(s3, line);
    var back := (if input == [] then [PollDone] else [PollDone, PollAsk]) + [PollLeave];
    RunAppends(s2, Bytes(input), back);
    assert Bytes(input) + (if input == [] then [PollDone] else [PollDone, PollAsk]) + [PollLeave]
           == Bytes(input) + back;
    OneByOne(s1, PollCheck(up), Bytes(input) + back);
    OneByOne(s, PollTake(line), [PollCheck(up)] + (Bytes(input) + back));
    assert Visit(line, up, input) == [PollTake(line)] + ([PollCheck(up)] + (Bytes(input) + back));
    assert s.lines[line].buffer + [] == s.lines[line].buffer;
  }
}
