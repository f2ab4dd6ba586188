/** When a breakpoint triggers (breakpoint_and.cpp, breakpoint_or.cpp); `leaf` is what the
    machine says of a single register, memory or instruction breakpoint. */
module BreakpointTrigger {
  import opened Words
  import opened Breakpoints

  predicate Holds(t: Breakpoint, leaf: Breakpoint -> Option<string>)
    decreases t
  {
    match t
    case Group(And, operands) => forall o :: o in operands ==> Holds(o, leaf)
    case Group(Or, operands) => exists o :: o in operands && Holds(o, leaf)
    case _ => leaf(t).Some?
  }

  function Triggered(t: Breakpoint, leaf: Breakpoint -> Option<string>): Option<string>
    decreases t, 1
  {
    match t
    case Group(And, operands) => AllTriggered(operands, leaf, "")
    case Group(Or, operands) => FirstTriggered(operands, leaf)
    case _ => leaf(t)
  }

  function AllTriggered(operands: seq<Breakpoint>, leaf: Breakpoint -> Option<string>, out: string): Option<string>
    decreases operands, 0
  {
    if operands == [] then Some(out)
    else match Triggered(operands[0], leaf)
      case None => None
      case Some(text) => AllTriggered(operands[1..], leaf, out + (if out == [] then "" else ", ") + text)
  }

  function FirstTriggered(operands: seq<Breakpoint>, leaf: Breakpoint -> Option<string>): Option<string>
    decreases operands, 0
  {
    if operands == [] then None
    else if Triggered(operands[0], leaf).Some? then Triggered(operands[0], leaf)
    else FirstTriggered(operands[1..], leaf)
  }

  /** A tree triggers exactly when it holds as a logical formula; an empty `and` always does
      and an empty `or` never. */
  lemma {:induction false} TriggersExactly(t: Breakpoint, leaf: Breakpoint -> Option<string>)
    ensures Triggered(t, leaf).Some? <==> Holds(t, leaf)
    decreases t, 1
  {
    match t
    case Group(And, operands) => AllExactly(operands, leaf, "");
    case Group(Or, operands) => FirstExactly(operands, leaf);
    case _ =>
  }

  lemma {:induction false} AllExactly(operands: seq<Breakpoint>, leaf: Breakpoint -> Option<string>, out: string)
    ensures AllTriggered(operands, leaf, out).Some? <==> forall o :: o in operands ==> Holds(o, leaf)
    decreases operands, 0
  {
    if operands != [] {
      TriggersExactly(operands[0], leaf);
      assert operands == [operands[0]] + operands[1..];
      if Triggered(operands[0], leaf).Some? {
        AllExactly(operands[1..], leaf, out + (if out == [] then "" else ", ") + Triggered(operands[0], leaf).value);
      }
    }
  }

  lemma {:induction false} FirstExactly(operands: seq<Breakpoint>, leaf: Breakpoint -> Option<string>)
    ensures FirstTriggered(operands, leaf).Some? <==> exists o :: o in operands && Holds(o, leaf)
    decreases operands, 0
  {
    if operands != [] {
      TriggersExactly(operands[0], leaf);
      assert operands == [operands[0]] + operands[1..];
      FirstExactly(operands[1..], leaf);
    }
  }

  /** `is_triggered` of all kinds. */
  method IsTriggered(t: Breakpoint, leaf: Breakpoint -> Option<string>) returns (r: Option<string>)
    ensures r == Triggered(t, leaf)
    decreases t, 1
  {
    match t
    case Group(And, operands) => r := AndIsTriggered(operands, leaf);
    case Group(Or, operands) => r := OrIsTriggered(operands, leaf);
    case _ => r := leaf(t);
  }

  method AndIsTriggered(operands: seq<Breakpoint>, leaf: Breakpoint -> Option<string>) returns (r: Option<string>)
    ensures r == AllTriggered(operands, leaf, "")
    decreases operands, 0
  {
    var out := "";
    for i := 0 to |operands|
      invariant AllTriggered(operands[i..], leaf, out) == AllTriggered(operands, leaf, "")
    {
      assert operands[i..][1..] == operands[i + 1..];
      var rc := IsTriggered(operands[i], leaf);
      if rc == None {
        return None;
      }
      out := out + (if out == [] then "" else ", ") + rc.value;
    }
    r := Some(out);
  }

  method OrIsTriggered(operands: seq<Breakpoint>, leaf: Breakpoint -> Option<string>) returns (r: Option<string>)
    ensures r == FirstTriggered(operands, leaf)
    decreases operands, 0
  {
    for i := 0 to |operands|
      invariant FirstTriggered(operands[i..], leaf) == FirstTriggered(operands, leaf)
    {
      assert operands[i..][1..] == operands[i + 1..];
      r := IsTriggered(operands[i], leaf);
      if r.Some? {
        return;
      }
    }
    r := None;
  }
}
