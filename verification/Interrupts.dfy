/** The interrupt queue (cpu.cpp) on values: eight levels of pending vectors, the flag the
    processor looks at, delivery, and what follows for nesting and draining. */
module Interrupts {
  import opened Words
  import opened WordSets
  import opened ProcessorStatus
  import opened CpuState
  import opened ControlFlow

  predicate Empty(q: Queue) {
    forall i :: 0 <= i < 8 ==> q[i] == {}
  }

  /** The lowest non-empty level from `i` up that is above the priority. */
  function PickFrom(q: Queue, priority: Level, i: nat): (r: Option<Level>)
    requires i <= 8
    ensures r == None ==> forall j :: i <= j < 8 && priority < j ==> q[j] == {}
    ensures r.Some? ==> i <= r.value && priority < r.value && q[r.value] != {}
    ensures r.Some? ==> forall j :: i <= j < r.value && priority < j ==> q[j] == {}
    decreases 8 - i
  {
    if i == 8 then None
    else if priority < i && q[i] != {} then Some(i)
    else PickFrom(q, priority, i + 1)
  }

  function Pick(q: Queue, priority: Level): Option<Level> {
    PickFrom(q, priority, 0)
  }

  /** `check_pending_interrupts`, what WAIT waits for. */
  predicate Pending(q: Queue, priority: Level) {
    exists i :: priority < i < 8 && q[i] != {}
  }

  function Enqueue(q: Queue, level: Level, vector: Word): Queue {
    q[level := q[level] + {vector}]
  }

  function Dequeue(q: Queue, level: Level, vector: Word): Queue {
    q[level := q[level] - {vector}]
  }

  // --- What the processor does with the queue ---

  /** `execute_any_pending_interrupt`. */
  function ExecutePending(s: Cpu): Outcome<()> {
    if Empty(s.queue) then Next((), s)
    else
      var seen := s.(anyQueued := true);
      match Pick(s.queue, s.psw.priority)
      case None => Next((), seen)
      case Some(level) =>
        var vector := First(s.queue[level]);
        Trap(seen.(queue := Dequeue(s.queue, level, vector)), vector, Some(level))
  }

  /** The first part of `cpu::step`: exchange the flag, take a delayed trap, scan. */
  function Poll(s: Cpu): Outcome<()> {
    if !s.anyQueued then Next((), s)
    else
      var s1 := s.(anyQueued := false);
      match s.delayedTrap
      case None => ExecutePending(s1)
      case Some(vector) =>
        var (_, s2) :- Trap(s1, vector, Some(7));
        ExecutePending(s2.(delayedTrap := None))
  }

  /** WAIT ends exactly when a scan would deliver. */
  lemma PendingIsPickable(q: Queue, priority: Level)
    ensures Pending(q, priority) <==> Pick(q, priority).Some?
  {
    var r := Pick(q, priority);
    if Pending(q, priority) {
      var i :| priority < i < 8 && q[i] != {};
      assert r.Some?;
    }
  }

  lemma TrapEffect(s: Cpu, vector: Word, ipl: Option<Level>)
    requires Trap(s, vector, ipl).Next?
    ensures var t := Trap(s, vector, ipl).cpu;
            t.queue == s.queue && (ipl.Some? ==> t.psw.priority == ipl.value) && (s.anyQueued ==> t.anyQueued)
            && t.psw.previous == s.psw.mode
  {
    hide Bus.Read, Bus.Write, Decode, Wrap;
  }

  /** A step that finds the flag up and no delayed trap delivers the first vector of the
      lowest level above the priority when there is one, raises the priority to that level,
      consumes that vector and no other, and keeps the flag up while anything is queued. */
  lemma PollDelivers(s: Cpu)
    requires s.anyQueued && s.delayedTrap == None && Poll(s).Next?
    ensures var t := Poll(s).cpu;
            match Pick(s.queue, s.psw.priority)
            case None => t == s.(anyQueued := !Empty(s.queue))
            case Some(level) =>
              t.psw.priority == level && t.anyQueued
              && t.queue == Dequeue(s.queue, level, First(s.queue[level]))
  {
    hide Trap;
    var r := Pick(s.queue, s.psw.priority);
    if !Empty(s.queue) && r.Some? {
      var vector := First(s.queue[r.value]);
      TrapEffect(s.(anyQueued := true, queue := Dequeue(s.queue, r.value, vector)), vector, Some(r.value));
    }
  }

  // --- Draining ---

  /** The levels above the priority that have something pending, lowest first. */
  function PendingLevels(q: Queue, i: nat): seq<Level>
    requires i <= 8
    decreases 8 - i
  {
    if i == 8 then []
    else if q[i] != {} then [i as Level] + PendingLevels(q, i + 1)
    else PendingLevels(q, i + 1)
  }

  function LevelsAbove(s: Cpu): seq<Level> {
    PendingLevels(s.queue, s.psw.priority as int + 1)
  }

  /** A run of `n` steps whose instructions change neither the priority nor the queue; the
      levels it enters, in order. `handler` is the rest of each step: the instruction after
      the entry, free to change everything but the interrupt state. */
  ghost predicate Enters(s: Cpu, levels: seq<Level>, t: Cpu)
    decreases |levels|
  {
    if levels == [] then s == t
    else exists u: Cpu ::
           && Poll(s).Next? && Poll(s).cpu.psw.priority == levels[0]
           && Pick(s.queue, s.psw.priority) == Some(levels[0])
           && SameInterruptState(Poll(s).cpu, u)
           && Enters(u, levels[1..], t)
  }

  predicate SameInterruptState(s: Cpu, u: Cpu) {
    u.queue == s.queue && u.psw.priority == s.psw.priority && u.anyQueued == s.anyQueued
    && u.delayedTrap == s.delayedTrap
  }

  /** A run of `n` steps, whatever they deliver. */
  ghost predicate StepsQuietly(s: Cpu, t: Cpu, n: nat)
    decreases n
  {
    if n == 0 then s == t
    else exists u: Cpu ::
           && Poll(s).Next? && Poll(s).cpu.delayedTrap == None
           && SameInterruptState(Poll(s).cpu, u) && StepsQuietly(u, t, n - 1)
  }

  lemma PendingLevelsPick(q: Queue, priority: Level, i: nat)
    requires priority < i <= 8
    ensures var levels := PendingLevels(q, i);
            match PickFrom(q, priority, i)
            case None => levels == []
            case Some(level) => levels == [level] + PendingLevels(q, level + 1)
    decreases 8 - i
  {
    if i < 8 && q[i] == {} {
      PendingLevelsPick(q, priority, i + 1);
    }
  }

  lemma PickSkipsLow(q: Queue, priority: Level, i: nat)
    requires i <= priority + 1
    ensures PickFrom(q, priority, i) == PickFrom(q, priority, priority + 1)
    decreases 8 - i
  {
    if i <= priority {
      PickSkipsLow(q, priority, i + 1);
    }
  }

  lemma PendingLevelsAbove(q: Queue, q': Queue, i: nat)
    requires i <= 8 && forall j :: i <= j < 8 ==> q[j] == q'[j]
    ensures PendingLevels(q, i) == PendingLevels(q', i)
    decreases 8 - i
  {
    if i < 8 {
      PendingLevelsAbove(q, q', i + 1);
    }
  }

  lemma LevelsAbovePick(s: Cpu) returns (level: Level)
    requires LevelsAbove(s) != []
    ensures Pick(s.queue, s.psw.priority) == Some(level)
    ensures LevelsAbove(s) == [level] + PendingLevels(s.queue, level as int + 1)
  {
    PendingLevelsPick(s.queue, s.psw.priority, s.psw.priority as int + 1);
    PickSkipsLow(s.queue, s.psw.priority, 0);
    level := Pick(s.queue, s.psw.priority).value;
  }

  /** With k levels pending above the priority and nothing arriving, k consecutive steps
      enter all of them, in increasing order. */
  lemma {:induction false} DrainsInOrder(s: Cpu, t: Cpu, n: nat)
    requires s.delayedTrap == None && (s.anyQueued || Empty(s.queue))
    requires n == |LevelsAbove(s)| && StepsQuietly(s, t, n)
    ensures Enters(s, LevelsAbove(s), t)
    decreases n
  {
    hide Poll, First, Enqueue, PendingLevels, Enters;
    var levels := LevelsAbove(s);
    if n > 0 {
      var level := LevelsAbovePick(s);
      var u: Cpu :| Poll(s).Next? && Poll(s).cpu.delayedTrap == None && SameInterruptState(Poll(s).cpu, u)
        && StepsQuietly(u, t, n - 1);
      PollDelivers(s);
      PendingLevelsAbove(s.queue, u.queue, level as int + 1);
      assert LevelsAbove(u) == levels[1..];
      DrainsInOrder(u, t, n - 1);
      OneEntry(s, u, levels, t);
    } else {
      NoEntries(s);
    }
  }

  lemma OneEntry(s: Cpu, u: Cpu, levels: seq<Level>, t: Cpu)
    requires levels != [] && Poll(s).Next? && Poll(s).cpu.psw.priority == levels[0]
    requires Pick(s.queue, s.psw.priority) == Some(levels[0])
    requires SameInterruptState(Poll(s).cpu, u) && Enters(u, levels[1..], t)
    ensures Enters(s, levels, t)
  {
    hide Poll, Pick;
  }

  lemma NoEntries(s: Cpu)
    ensures Enters(s, [], s)
  {
  }

  // --- Nesting ---

  /** The scan takes an interrupt the way a `Flow` enters one, after taking its vector out of
      the queue, and only a level above the priority. */
  lemma PollEntersAbove(s: Cpu)
    requires s.anyQueued && s.delayedTrap == None && Pick(s.queue, s.psw.priority).Some?
    ensures var level := Pick(s.queue, s.psw.priority).value;
            var vector := First(s.queue[level]);
            var ready := s.(queue := Dequeue(s.queue, level, vector));
            && Calm(s, ready) && ready.psw == s.psw && ready.bus == s.bus && ready.regs == s.regs
            && Poll(s) == Trap(ready, vector, Some(level)) && Delivered(ready, Some(level), level)
  {
    hide Trap;
    var level := Pick(s.queue, s.psw.priority).value;
    assert s.queue[level] != {};
    var ready := s.(queue := Dequeue(s.queue, level, First(s.queue[level])));
    assert s.(anyQueued := false).(anyQueued := true, queue := ready.queue) == ready;
  }

  /** An entry from the queue: it has a level, above the priority it interrupts. */
  predicate Delivered(s: Cpu, ipl: Option<Level>, level: Level) {
    ipl == Some(level) && level > s.psw.priority
  }

  /** A called subroutine has returned. */
  function Returned(link: RegNr, target: Word, body: Flow, s: Cpu, live: set<Pin>): Option<Cpu> {
    match RunBody(Jsr(s, link, target), body, CallPins(s, link, live))
    case None => None
    case Some(t) => Finished(Rts(t, link))
  }

  /** A trap's or interrupt's handler has returned. */
  function Resumed(vector: Word, ipl: Option<Level>, body: Flow, s: Cpu, live: set<Pin>): Option<Cpu> {
    match RunBody(EnteredKernel(Trap(s, vector, ipl)), body, TrapPins(s, live))
    case None => None
    case Some(t) => Finished(Rti(t))
  }

  /** No instruction and no trap of the flow lowers the priority; only returns do. */
  predicate Raising(flow: Flow, s: Cpu, live: set<Pin>)
    decreases flow
  {
    match flow
    case End => true
    case Work(after, rest) => s.psw.priority <= after.psw.priority && Raising(rest, after, live)
    case Call(link, target, body, rest) =>
      && (match Finished(Jsr(s, link, target))
          case None => true
          case Some(e) => Raising(body, e, CallPins(s, link, live)))
      && (match Returned(link, target, body, s, live)
          case None => true
          case Some(back) => Raising(rest, back, live))
    case Interrupt(vector, ipl, body, rest) =>
      && (match Finished(Trap(s, vector, ipl))
          case None => true
          case Some(e) => s.psw.priority <= e.psw.priority && Raising(body, e, TrapPins(s, live)))
      && (match Resumed(vector, ipl, body, s, live)
          case None => true
          case Some(back) => Raising(rest, back, live))
  }

  /** Somewhere in the flow, interrupts from the queue are nested inside each other (inside
      subroutines and other traps, too), with these levels from the outermost inwards. */
  predicate Nested(flow: Flow, s: Cpu, live: set<Pin>, levels: seq<Level>)
    decreases flow
  {
    levels == [] ||
    match flow
    case End => false
    case Work(after, rest) => Nested(rest, after, live, levels)
    case Call(link, target, body, rest) =>
      || (match Finished(Jsr(s, link, target))
          case None => false
          case Some(e) => Nested(body, e, CallPins(s, link, live), levels))
      || (match Returned(link, target, body, s, live)
          case None => false
          case Some(back) => Nested(rest, back, live, levels))
    case Interrupt(vector, ipl, body, rest) =>
      || (match Finished(Trap(s, vector, ipl))
          case None => false
          case Some(e) =>
            || Nested(body, e, TrapPins(s, live), levels)
            || (Delivered(s, ipl, levels[0]) && Nested(body, e, TrapPins(s, live), levels[1..])))
      || (match Resumed(vector, ipl, body, s, live)
          case None => false
          case Some(back) => Nested(rest, back, live, levels))
  }

  /** Strictly increasing levels, all above the priority; there are only seven to choose. */
  predicate Climbing(levels: seq<Level>, priority: Level)
    decreases levels
  {
    levels == [] || (levels[0] > priority && Climbing(levels[1..], levels[0]))
  }

  lemma {:induction false} ClimbingIsShort(levels: seq<Level>, priority: Level)
    requires Climbing(levels, priority)
    ensures |levels| <= 7 - priority
    ensures forall i :: 0 <= i < |levels| ==> levels[i] > priority
    ensures forall i, j :: 0 <= i < j < |levels| ==> levels[i] < levels[j]
    decreases levels
  {
    if levels != [] {
      ClimbingIsShort(levels[1..], levels[0]);
      assert levels == [levels[0]] + levels[1..];
    }
  }

  lemma {:induction false} ClimbingFromBelow(levels: seq<Level>, priority: Level, below: Level)
    requires Climbing(levels, priority) && below <= priority
    ensures Climbing(levels, below)
  {
  }

  lemma RtsKeepsPsw(t: Cpu, link: RegNr)
    requires Rts(t, link).Next?
    ensures Rts(t, link).cpu.psw == t.psw
  {
    hide Bus.Read;
  }

  /** A call's entry and return, as far as the priority is concerned. */
  lemma CallPriority(link: RegNr, target: Word, body: Flow, s: Cpu, live: set<Pin>, t: Cpu) returns (e: Cpu, back: Cpu)
    requires link != SP && AboveLimit(s, 1) && Intact(s, live)
    requires RunBody(Jsr(s, link, target), body, CallPins(s, link, live)) == Some(t)
    ensures Finished(Jsr(s, link, target)) == Some(e) && e.psw == s.psw
    ensures Intact(e, CallPins(s, link, live)) && Run(body, e, CallPins(s, link, live)) == Some(t)
    ensures Finished(Rts(t, link)) == Some(back) && Returned(link, target, body, s, live) == Some(back)
    ensures back.psw == t.psw && Intact(back, live)
  {
    hide Jsr, Rts, Intact, CallPins, Run;
    e := Jsr(s, link, target).cpu;
    JsrShape(s, link, target, e);
    CallReturns(link, target, body, s, live, t);
    back := Rts(t, link).cpu;
    RtsKeepsPsw(t, link);
  }

  /** The same of a trap or interrupt. */
  lemma InterruptPriority(vector: Word, ipl: Option<Level>, body: Flow, s: Cpu, live: set<Pin>, t: Cpu)
      returns (e: Cpu, back: Cpu)
    requires AboveLimit(InKernel(s), 2) && Intact(s, live)
    requires RunBody(EnteredKernel(Trap(s, vector, ipl)), body, TrapPins(s, live)) == Some(t)
    ensures Finished(Trap(s, vector, ipl)) == Some(e) && (ipl.Some? ==> e.psw.priority == ipl.value)
    ensures Intact(e, TrapPins(s, live)) && Run(body, e, TrapPins(s, live)) == Some(t)
    ensures Finished(Rti(t)) == Some(back) && Resumed(vector, ipl, body, s, live) == Some(back)
    ensures back.psw == s.psw && Intact(back, live)
  {
    hide Trap, Rti, Intact, TrapPins, Run;
    e := Trap(s, vector, ipl).cpu;
    TrapEffect(s, vector, ipl);
    InterruptReturns(vector, ipl, body, s, live, t);
    back := Rti(t).cpu;
  }

  /** What follows an entry or return keeps the priority at least as high. */
  lemma {:induction false} PriorityKept(flow: Flow, s: Cpu, live: set<Pin>, t: Cpu)
    requires Intact(s, live) && Run(flow, s, live) == Some(t) && Raising(flow, s, live)
    ensures s.psw.priority <= t.psw.priority
    decreases flow
  {
    hide Jsr, Rts, Rti, Trap, Intact, CallPins, TrapPins, Returned, Resumed;
    match flow
    case End =>
    case Work(after, rest) =>
      PriorityKept(rest, after, live, t);
    case Call(link, target, body, rest) =>
      var u := RunBody(Jsr(s, link, target), body, CallPins(s, link, live)).value;
      var e, back := CallPriority(link, target, body, s, live, u);
      PriorityKept(body, e, CallPins(s, link, live), u);
      PriorityKept(rest, back, live, t);
    case Interrupt(vector, ipl, body, rest) =>
      var u := RunBody(EnteredKernel(Trap(s, vector, ipl)), body, TrapPins(s, live)).value;
      var _, back := InterruptPriority(vector, ipl, body, s, live, u);
      PriorityKept(rest, back, live, t);
  }

  lemma {:induction false} NestedClimbs(flow: Flow, s: Cpu, live: set<Pin>, t: Cpu, levels: seq<Level>)
    requires Intact(s, live) && Run(flow, s, live) == Some(t) && Raising(flow, s, live)
    requires Nested(flow, s, live, levels)
    ensures Climbing(levels, s.psw.priority)
    decreases flow
  {
    hide Jsr, Rts, Rti, Trap, Intact, CallPins, TrapPins, Returned, Resumed, Climbing;
    if levels == [] {
      NothingClimbs(s.psw.priority);
    } else {
      match flow
      case End =>
      case Work(after, rest) =>
        NestedClimbs(rest, after, live, t, levels);
        ClimbingFromBelow(levels, after.psw.priority, s.psw.priority);
      case Call(link, target, body, rest) =>
        var pins := CallPins(s, link, live);
        var u := RunBody(Jsr(s, link, target), body, pins).value;
        var e, back := CallPriority(link, target, body, s, live, u);
        if Nested(body, e, pins, levels) {
          NestedClimbs(body, e, pins, u, levels);
        } else {
          PriorityKept(body, e, pins, u);
          NestedClimbs(rest, back, live, t, levels);
          ClimbingFromBelow(levels, u.psw.priority, s.psw.priority);
        }
      case Interrupt(vector, ipl, body, rest) =>
        var pins := TrapPins(s, live);
        var u := RunBody(EnteredKernel(Trap(s, vector, ipl)), body, pins).value;
        var e, back := InterruptPriority(vector, ipl, body, s, live, u);
        if Nested(body, e, pins, levels) {
          NestedClimbs(body, e, pins, u, levels);
          ClimbingFromBelow(levels, e.psw.priority, s.psw.priority);
        } else if Delivered(s, ipl, levels[0]) && Nested(body, e, pins, levels[1..]) {
          NestedClimbs(body, e, pins, u, levels[1..]);
          OneMore(levels, s.psw.priority);
        } else {
          NestedClimbs(rest, back, live, t, levels);
        }
    }
  }

  lemma NothingClimbs(priority: Level)
    ensures Climbing([], priority)
  {
  }

  lemma OneMore(levels: seq<Level>, priority: Level)
    requires levels != [] && levels[0] > priority && Climbing(levels[1..], levels[0])
    ensures Climbing(levels, priority)
  {
  }

  /** While nothing but returns lowers the priority, the levels of interrupts nested inside
      each other strictly increase, in every balanced run of the processor; so from priority
      p at most 7 - p of them are ever unreturned at once. */
  lemma NestingIsBounded(flow: Flow, s: Cpu, live: set<Pin>, t: Cpu, levels: seq<Level>)
    requires Intact(s, live) && Run(flow, s, live) == Some(t) && Raising(flow, s, live)
    requires Nested(flow, s, live, levels)
    ensures |levels| <= 7 - s.psw.priority
    ensures forall i :: 0 <= i < |levels| ==> levels[i] > s.psw.priority
    ensures forall i, j :: 0 <= i < j < |levels| ==> levels[i] < levels[j]
    ensures s.psw.priority <= t.psw.priority
  {
    hide Run, Raising, Nested, Intact, Climbing;
    NestedClimbs(flow, s, live, t, levels);
    ClimbingIsShort(levels, s.psw.priority);
    PriorityKept(flow, s, live, t);
  }
}
