/** No interrupt is lost (cpu.cpp). Device threads change the queue under a lock and then
    raise a flag; the processor lowers the flag without the lock and then scans under it.
    Every interleaving of those steps is a run of the transition system below. Thread 0 is
    the processor, which may also queue interrupts itself. */
module InterruptProtocol {
  import opened Words
  import opened WordSets
  import opened ProcessorStatus
  import opened CpuState
  import opened Interrupts

  /** Where a thread is in `queue_interrupt`, `unqueue_interrupt` or the processor's scan. */
  datatype Place =
    | Idle
    | Inserting(level: Level, vector: Word)   // holds the lock
    | Raising                                 // inserted, about to set the flag; holds the lock
    | Erasing(level: Level, vector: Word)     // holds the lock
    | Releasing                               // holds the lock
    | Exchanged                               // the flag was up and has been lowered; no lock
    | Scanning(next: nat)                     // levels below `next` are done; holds the lock

  type Source = (Level, Word)

  datatype System = System(
    queue: Queue,
    flag: bool,
    lock: Option<nat>,
    places: seq<Place>,
    priority: Level,
    accepted: multiset<Source>,    // insertions of a vector that was not yet queued
    withdrawn: multiset<Source>,   // vectors unqueued or cleared by RESET
    delivered: multiset<Source>)

  datatype Action =
    | BeginQueue(thread: nat, level: Level, vector: Word)
    | Insert(thread: nat)
    | Raise(thread: nat)
    | BeginUnqueue(thread: nat, level: Level, vector: Word)
    | Erase(thread: nat)
    | Release(thread: nat)
    | Exchange
    | DelayedTrap(yellow: bool)
    | BeginScan
    | ScanLevel
    | Work(priority: Level, yellow: bool)
    | Reset

  predicate Holding(p: Place) {
    !p.Idle? && !p.Exchanged?
  }

  function At(s: System, thread: nat): Place {
    if thread < |s.places| then s.places[thread] else Idle
  }

  /** Whether a thread may take a step now. */
  predicate Enabled(s: System, a: Action) {
    match a
    case BeginQueue(t, _, _) => t < |s.places| && s.places[t] == Idle && s.lock == None
    case Insert(t) => At(s, t).Inserting?
    case Raise(t) => At(s, t).Raising?
    case BeginUnqueue(t, _, _) => t < |s.places| && s.places[t] == Idle && s.lock == None
    case Erase(t) => At(s, t).Erasing?
    case Release(t) => At(s, t).Releasing?
    case Exchange => At(s, 0).Idle? && s.places != []
    case DelayedTrap(_) => At(s, 0).Exchanged?
    case BeginScan => At(s, 0).Exchanged? && s.lock == None
    case ScanLevel => At(s, 0).Scanning?
    case Work(_, _) => At(s, 0).Idle? && s.places != []
    case Reset => At(s, 0).Idle? && s.places != []
  }

  function Sources(q: Queue): set<Source> {
    set l: Level, v: Word | v in q[l] :: (l, v)
  }

  /** One level of the scan: pass it by, or take its first vector and raise the priority. */
  function ScanStep(s: System): System
    requires At(s, 0).Scanning?
  {
    var i := s.places[0].next;
    if i >= 8 then s.(places := s.places[0 := Releasing])
    else if s.queue[i] == {} then s.(places := s.places[0 := Scanning(i + 1)])
    else if i <= s.priority then s.(flag := true, places := s.places[0 := Scanning(i + 1)])
    else
      var v := First(s.queue[i]);
      s.(flag := true, queue := Dequeue(s.queue, i, v), priority := i,
         delivered := s.delivered + multiset{(i as Level, v)}, places := s.places[0 := Releasing])
  }

  function Apply(s: System, a: Action): System
    requires Enabled(s, a)
  {
    match a
    case BeginQueue(t, level, vector) => s.(lock := Some(t), places := s.places[t := Inserting(level, vector)])
    case Insert(t) =>
      var Inserting(level, vector) := s.places[t];
      s.(queue := Enqueue(s.queue, level, vector), places := s.places[t := Raising],
         accepted := if vector in s.queue[level] then s.accepted else s.accepted + multiset{(level, vector)})
    case Raise(t) => s.(flag := true, places := s.places[t := Releasing])
    case BeginUnqueue(t, level, vector) => s.(lock := Some(t), places := s.places[t := Erasing(level, vector)])
    case Erase(t) =>
      var Erasing(level, vector) := s.places[t];
      s.(queue := Dequeue(s.queue, level, vector), places := s.places[t := Releasing],
         withdrawn := if vector in s.queue[level] then s.withdrawn + multiset{(level, vector)} else s.withdrawn)
    case Release(t) => s.(lock := None, places := s.places[t := Idle])
    case Exchange => if s.flag then s.(flag := false, places := s.places[0 := Exchanged]) else s
    case DelayedTrap(yellow) => s.(priority := 7, flag := s.flag || yellow)
    case BeginScan => s.(lock := Some(0), places := s.places[0 := Scanning(0)])
    case ScanLevel => ScanStep(s)
    case Work(priority, yellow) => s.(priority := priority, flag := s.flag || yellow)
    case Reset => s.(queue := seq(8, i => {}), withdrawn := s.withdrawn + multiset(Sources(s.queue)))
  }

  function Start(threads: nat): System {
    System(seq(8, i => {}), false, None, seq(threads, i => Idle), 0, multiset{}, multiset{}, multiset{})
  }

  /** The state after a run, or None when some action was not enabled. */
  function Run(s: System, actions: seq<Action>): Option<System>
    decreases |actions|
  {
    if actions == [] then Some(s)
    else if !Enabled(s, actions[0]) then None
    else Run(Apply(s, actions[0]), actions[1..])
  }

  // --- The invariant ---

  predicate LockHeld(s: System) {
    && (s.lock.Some? ==> s.lock.value < |s.places| && Holding(s.places[s.lock.value]))
    && (forall t :: 0 <= t < |s.places| && Holding(s.places[t]) ==> s.lock == Some(t))
    && (forall t :: 0 < t < |s.places| ==> !s.places[t].Exchanged? && !s.places[t].Scanning?)
  }

  /** A queued interrupt is announced: by the flag, or by a thread that will raise it, or by
      the processor that has yet to look. */
  ghost predicate Announced(s: System) {
    Empty(s.queue)
    || s.flag
    || (exists t :: 0 <= t < |s.places| && s.places[t].Raising?)
    || At(s, 0).Exchanged?
    || (At(s, 0).Scanning? && forall i :: 0 <= i < s.places[0].next && i < 8 ==> s.queue[i] == {})
  }

  predicate Conserved(s: System) {
    forall l: Level, v: Word {:trigger s.accepted[(l, v)]} ::
      s.accepted[(l, v)] == s.delivered[(l, v)] + s.withdrawn[(l, v)] + Bit(v in s.queue[l])
  }

  ghost predicate Inv(s: System) {
    LockHeld(s) && Announced(s) && Conserved(s)
  }

  lemma LockKept(s: System, a: Action)
    requires LockHeld(s) && Enabled(s, a)
    ensures LockHeld(Apply(s, a))
  {
    hide Enqueue, Dequeue, First;
    var s' := Apply(s, a);
    forall t | 0 <= t < |s'.places|
      ensures (Holding(s'.places[t]) ==> s'.lock == Some(t))
              && (t > 0 ==> !s'.places[t].Exchanged? && !s'.places[t].Scanning?)
    {
      assert Holding(s.places[t]) ==> s.lock == Some(t);
    }
  }

  lemma AnnouncedKept(s: System, a: Action)
    requires LockHeld(s) && Announced(s) && Enabled(s, a)
    ensures Announced(Apply(s, a))
  {
    var s' := Apply(s, a);
    match a
    case Insert(t) =>
      assert s'.places[t].Raising?;
    case Reset =>
      assert Empty(s'.queue);
    case Raise(t) =>
    case ScanLevel =>
    case Erase(t) =>
    case _ =>
      assert s'.queue == s.queue && |s'.places| == |s.places|;
      assert forall t :: 0 <= t < |s.places| && s.places[t].Raising? ==> s'.places[t].Raising?;
  }

  lemma ConservedAt(s: System, a: Action, l: Level, v: Word)
    requires Enabled(s, a) && s.accepted[(l, v)] == s.delivered[(l, v)] + s.withdrawn[(l, v)] + Bit(v in s.queue[l])
    ensures var s' := Apply(s, a);
            s'.accepted[(l, v)] == s'.delivered[(l, v)] + s'.withdrawn[(l, v)] + Bit(v in s'.queue[l])
  {
    if a.Reset? {
      assert multiset(Sources(s.queue))[(l, v)] == Bit((l, v) in Sources(s.queue));
    }
  }

  lemma ConservedKept(s: System, a: Action)
    requires Conserved(s) && Enabled(s, a)
    ensures Conserved(Apply(s, a))
  {
    hide Apply, Enabled;
    var s' := Apply(s, a);
    forall l: Level, v: Word
      ensures s'.accepted[(l, v)] == s'.delivered[(l, v)] + s'.withdrawn[(l, v)] + Bit(v in s'.queue[l])
    {
      assert s.accepted[(l, v)] == s.delivered[(l, v)] + s.withdrawn[(l, v)] + Bit(v in s.queue[l]);
      ConservedAt(s, a, l, v);
    }
  }

  /** In every interleaving, from an empty queue: whenever the lock is free and the processor
      is not between lowering the flag and scanning, a queued interrupt has the flag up; and
      each accepted interrupt is queued still, or was delivered or withdrawn exactly once. */
  lemma {:induction false} NoLostInterrupt(s: System, actions: seq<Action>)
    requires Inv(s) && Run(s, actions).Some?
    ensures Inv(Run(s, actions).value)
    ensures var t := Run(s, actions).value;
            t.lock == None && !At(t, 0).Exchanged? && !t.flag ==> Empty(t.queue)
    decreases |actions|
  {
    hide Apply, Conserved;
    if actions != [] {
      LockKept(s, actions[0]);
      AnnouncedKept(s, actions[0]);
      ConservedKept(s, actions[0]);
      NoLostInterrupt(Apply(s, actions[0]), actions[1..]);
    }
  }

  lemma StartsGood(threads: nat)
    ensures Inv(Start(threads))
  {
    assert Empty(Start(threads).queue);
  }

  // --- A scan delivers ---

  /** While the processor scans it holds the lock, and no other step is possible. */
  lemma ScanExcludes(s: System, a: Action)
    requires LockHeld(s) && At(s, 0).Scanning? && Enabled(s, a)
    ensures a.ScanLevel?
  {
  }

  /** The scan so far: nothing taken, and nothing takeable below the next level. */
  predicate ScanSoFar(s0: System, s: System) {
    && LockHeld(s) && At(s, 0).Scanning?
    && s.queue == s0.queue && s.priority == s0.priority && s.delivered == s0.delivered
    && forall i :: s.priority < i < s.places[0].next && i < 8 ==> s.queue[i] == {}
  }

  /** What a whole scan has done: what `Pick` picks, and that alone. */
  predicate ScanDone(s0: System, s: System) {
    match Pick(s0.queue, s0.priority)
    case None => s.queue == s0.queue && s.priority == s0.priority && s.delivered == s0.delivered
    case Some(level) =>
      var v := First(s0.queue[level]);
      s.queue == Dequeue(s0.queue, level, v) && s.priority == level
      && s.delivered == s0.delivered + multiset{(level, v)}
  }

  predicate StaysScanning(s: System, actions: seq<Action>)
    decreases |actions|
  {
    actions != [] && Enabled(s, actions[0])
    && (if |actions| == 1 then !At(Apply(s, actions[0]), 0).Scanning?
        else At(Apply(s, actions[0]), 0).Scanning? && StaysScanning(Apply(s, actions[0]), actions[1..]))
  }

  lemma PickIs(q: Queue, priority: Level, level: Level)
    requires priority < level && q[level] != {} && forall i :: priority < i < level ==> q[i] == {}
    ensures Pick(q, priority) == Some(level)
  {
    var r := Pick(q, priority);
    assert r.Some?;
  }

  lemma ScanStepExact(s0: System, s: System)
    requires ScanSoFar(s0, s)
    ensures var t := ScanStep(s);
            if At(t, 0).Scanning? then ScanSoFar(s0, t) else ScanDone(s0, t)
  {
    var i := s.places[0].next;
    if i >= 8 {
      assert Pick(s.queue, s.priority) == None;
    } else if s.queue[i] != {} && s.priority < i {
      PickIs(s.queue, s.priority, i);
    }
    LockKept(s, ScanLevel);
  }

  /** Whatever other threads want meanwhile, a scan that starts with something deliverable
      delivers exactly the first vector of the lowest level above the priority. */
  lemma {:induction false} ScanDelivers(s0: System, s: System, actions: seq<Action>)
    requires ScanSoFar(s0, s) && StaysScanning(s, actions)
    ensures Run(s, actions).Some? && ScanDone(s0, Run(s, actions).value)
    decreases |actions|
  {
    hide ScanStep, ScanDone;
    var a := actions[0];
    var t := Apply(s, a);
    ScanExcludes(s, a);
    ScanStepExact(s0, s);
    if |actions| > 1 {
      ScanDelivers(s0, t, actions[1..]);
    } else {
      assert Run(t, actions[1..]) == Some(t);
    }
  }

  /** The processor's own steps, when it is not interrupted: exchange, lock, scan. */
  function ScanActions(n: nat): seq<Action> {
    if n == 0 then [] else [ScanLevel] + ScanActions(n - 1)
  }

  lemma ScanAdvances(s: System)
    requires At(s, 0).Scanning?
    ensures var t := ScanStep(s);
            At(t, 0).Scanning? ==> s.places[0].next < 8 && t.places[0].next == s.places[0].next + 1
  {
  }

  lemma {:induction false} ScanEnds(s: System) returns (n: nat)
    requires LockHeld(s) && At(s, 0).Scanning? && s.places[0].next <= 8
    ensures StaysScanning(s, ScanActions(n))
    decreases 8 - s.places[0].next
  {
    hide ScanStep, LockHeld;
    LockKept(s, ScanLevel);
    ScanAdvances(s);
    var t := Apply(s, ScanLevel);
    assert ScanActions(1) == [ScanLevel];
    n := 1;
    if At(t, 0).Scanning? {
      var m := ScanEnds(t);
      assert ScanActions(m + 1)[0] == ScanLevel && ScanActions(m + 1)[1..] == ScanActions(m);
      n := m + 1;
    }
  }

  /** At the start of a step, with the lock free, an interrupt above the priority is always
      delivered by the exchange and scan that follow, if no delayed trap comes between. */
  lemma StepDelivers(s: System) returns (n: nat)
    requires Inv(s) && s.lock == None && At(s, 0).Idle? && s.places != [] && Pending(s.queue, s.priority)
    ensures var actions := [Exchange, BeginScan] + ScanActions(n);
            Run(s, actions).Some? && ScanDone(s, Run(s, actions).value) && Pick(s.queue, s.priority).Some?
  {
    PendingIsPickable(s.queue, s.priority);
    assert s.flag;
    var s1 := Apply(s, Exchange);
    var s2 := Apply(s1, BeginScan);
    LockKept(s, Exchange);
    LockKept(s1, BeginScan);
    n := ScanEnds(s2);
    ScanDelivers(s, s2, ScanActions(n));
    var actions := [Exchange, BeginScan] + ScanActions(n);
    assert actions[1..] == [BeginScan] + ScanActions(n) && actions[1..][1..] == ScanActions(n);
    assert Run(s, actions) == Run(s1, actions[1..]) == Run(s2, ScanActions(n));
  }
}
