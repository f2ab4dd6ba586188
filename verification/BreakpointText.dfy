/** The printing and parsing loops of breakpoint_*.cpp, proved against the functions. */
module BreakpointText {
  import opened Words
  import opened WordSets
  import opened Text
  import opened Breakpoints

  // --- Printing ---

  lemma OctalsSnoc(values: seq<Word>, i: nat)
    requires i < |values|
    ensures Octals(values[..i + 1]) == Octals(values[..i]) + [Octal(values[i], 6)]
  {
  }

  lemma EmitValuesSnoc(key: string, values: seq<Word>, i: nat)
    requires i < |values|
    ensures EmitValues(key, values[..i + 1]) ==
            (if i == 0 then key + "=" else EmitValues(key, values[..i]) + ",") + Octal(values[i], 6)
  {
    hide Octal, Join;
    var before, one := Octals(values[..i]), [Octal(values[i], 6)];
    OctalsSnoc(values, i);
    JoinConcat(before, one, ',');
    JoinSingle(one[0], ',');
    if i > 0 {
      assert key + "=" + (Join(before, ',') + [','] + one[0]) == key + "=" + Join(before, ',') + "," + one[0];
    }
  }

  /** `breakpoint_register::emit` and `breakpoint_memory::emit`. */
  method EmitKeyed(key: string, values: seq<Word>) returns (out: string)
    requires key != []
    ensures out == EmitValues(key, values)
  {
    hide EmitValues, Octal;
    out := "";
    EmitNothing(key);
    assert values[..0] == [];
    for i := 0 to |values|
      invariant out == EmitValues(key, values[..i]) && (out == [] <==> i == 0)
    {
      EmitValuesSnoc(key, values, i);
      if out == [] {
        out := key + "=";
      } else {
        out := out + ",";
      }
      out := out + Octal(values[i], 6);
    }
    assert values[..|values|] == values;
  }

  lemma EmitNothing(key: string)
    ensures EmitValues(key, []) == []
  {
  }

  lemma {:induction false} EmitAllSnoc(op: Op, operands: seq<Breakpoint>, i: nat)
    requires 0 < i < |operands|
    ensures EmitAll(op, operands[..i + 1]) == EmitAll(op, operands[..i]) + " " + Joiner(op) + " " + Emit(operands[i])
    decreases i
  {
    hide Emit, Joiner;
    assert operands[..i + 1][1..] == operands[1..][..i] && operands[..i][1..] == operands[1..][..i - 1];
    var head := Emit(operands[0]) + " " + Joiner(op) + " ";
    if i > 1 {
      EmitAllSnoc(op, operands[1..], i - 1);
      assert head + (EmitAll(op, operands[1..][..i - 1]) + " " + Joiner(op) + " " + Emit(operands[i]))
             == head + EmitAll(op, operands[1..][..i - 1]) + " " + Joiner(op) + " " + Emit(operands[i]);
    } else {
      assert operands[1..][..i] == [operands[i]];
    }
  }

  /** `emit` of all kinds. */
  method EmitBreakpoint(t: Breakpoint) returns (out: string)
    ensures out == Emit(t)
    decreases t
  {
    match t
    case Register(nr, values) => out := EmitKeyed(Name(nr), Sorted(values));
    case Memory(addr, byteMode, isVirtual, values) =>
      out := EmitKeyed(MemoryKey(addr, byteMode, isVirtual), Sorted(values));
    case Instruction(instruction, mask) => out := "instr[" + Octal(mask, 6) + "]=" + Octal(instruction, 6);
    case Group(op, operands) => out := EmitGroup(op, operands);
  }

  lemma Parenthesized(before: string, joiner: string, text: string)
    ensures "(" + (before + " " + joiner + " " + text) == "(" + before + (" " + joiner + " ") + text
    ensures "(" + (before + " " + joiner + " " + text) == "(" + before + " " + joiner + " " + text
  {
  }

  method EmitGroup(op: Op, operands: seq<Breakpoint>) returns (out: string)
    ensures out == Emit(Group(op, operands))
    decreases operands
  {
    hide EmitAll, Joiner;
    out := "";
    for i := 0 to |operands|
      invariant out == if i == 0 then "" else "(" + EmitAll(op, operands[..i])
    {
      if out == [] {
        out := "(";
      } else {
        out := out + " " + Joiner(op) + " ";
      }
      var text := EmitBreakpoint(operands[i]);
      out := out + text;
      if i > 0 {
        EmitAllSnoc(op, operands, i);
        Parenthesized(EmitAll(op, operands[..i]), Joiner(op), text);
      } else {
        EmitOne(op, operands);
      }
    }
    assert operands[..|operands|] == operands;
    out := out + ")";
  }

  lemma EmitOne(op: Op, operands: seq<Breakpoint>)
    requires operands != []
    ensures EmitAll(op, operands[..1]) == Emit(operands[0])
  {
  }

  // --- Parsing ---

  lemma {:induction false} BadValueStays(pieces: seq<string>, i: nat)
    requires i <= |pieces| && ParseValues(pieces[..i]) == None
    ensures ParseValues(pieces) == None
    decreases |pieces|
  {
    hide Stoi;
    if i < |pieces| {
      assert pieces[..|pieces| - 1][..i] == pieces[..i];
      BadValueStays(pieces[..|pieces| - 1], i);
    } else {
      assert pieces[..i] == pieces;
    }
  }

  /** The loop over a comma list; None stands for an exception of `std::stoi`. */
  method ParseValueList(pieces: seq<string>) returns (r: Option<set<Word>>)
    ensures r == ParseValues(pieces)
  {
    hide Stoi;
    var values := {};
    assert ParseValues(pieces[..0]) == Some({});
    for i := 0 to |pieces|
      invariant ParseValues(pieces[..i]) == Some(values)
    {
      assert pieces[..i + 1][..i] == pieces[..i];
      var v := Stoi(pieces[i]);
      if v == None {
        BadValueStays(pieces, i + 1);
        return None;
      }
      values := values + {Wrap(v.value)};
    }
    assert pieces[..|pieces|] == pieces;
    r := Some(values);
  }

  method CountCloses(token: string) returns (n: nat)
    ensures n == Closes(token)
  {
    n := 0;
    for i := 0 to |token|
      invariant n == Closes(token[..i])
    {
      assert token[..i + 1][..i] == token[..i];
      if token[i] == ')' {
        n := n + 1;
      }
    }
    assert token[..|token|] == token;
  }

  /** The depth loop: the index at which the parentheses match. */
  method FindEnd(parts: seq<string>, i: nat) returns (end: Option<nat>)
    requires i < |parts|
    ensures end == ScanEnd(parts, i, 0)
  {
    hide Closes;
    var depth: int := 0;
    for j := i to |parts|
      invariant ScanEnd(parts, j, depth) == ScanEnd(parts, i, 0)
    {
      var n := CountCloses(parts[j]);
      depth := depth + (if parts[j] != [] && parts[j][0] == '(' then 1 else 0) - n;
      if depth == 0 {
        return Some(j);
      }
    }
    end := None;
  }

  /** The tokens of a group put together again. */
  method Rejoin(parts: seq<string>, i: nat, end: nat) returns (temp: string)
    requires i <= end < |parts|
    ensures temp == Spaced(parts[i..end + 1])
  {
    hide Join;
    temp := "";
    JoinNothing();
    assert parts[i..i] == [];
    for j := i to end + 1
      invariant temp == Spaced(parts[i..j])
    {
      assert parts[i..j + 1] == parts[i..j] + [parts[j]];
      JoinConcat(parts[i..j], [parts[j]], ' ');
      JoinSingle(parts[j], ' ');
      temp := temp + (if j > i then " " else "") + parts[j];
    }
  }

  lemma JoinNothing()
    ensures Join([], ' ') == []
  {
  }

  lemma JoinSingle(s: string, c: char)
    ensures Join([s], c) == s
  {
  }

  /** `parse_breakpoint`. */
  method ParseBreakpoint(text: string) returns (r: Outcome)
    ensures r == Parse(text)
    decreases |text|
  {
    hide ParseLeaf, ScanEnd, Spaced, Split, Strip, Finish;
    var parts := SplitText(text, ' ');
    SplitTokens(text, ' ');
    var parsed: seq<Breakpoint>, combine, i := [], NotSet, 0;
    while i < |parts|
      invariant i <= |parts| && Parse(text) == ParseFrom(parts, i, parsed, combine)
      decreases |parts| - i
    {
      if parts[i][0] == '(' {
        var end := FindEnd(parts, i);
        if end == None {
          return Failed(Unbalanced);
        }
        var temp := Rejoin(parts, i, end.value);
        ShorterInside(parts, i, end.value + 1);
        assert |Spaced(parts)| <= |text| by { Shorter(text); }
        var inner := ParseBreakpoint(Strip(temp));
        if inner.Failed? {
          return inner;
        }
        parsed := parsed + [inner.bp];
        i := end.value + 1;
      } else if parts[i] == "and" || parts[i] == "or" {
        if (combine == All && parts[i] == "or") || (combine == Any && parts[i] == "and") {
          return Failed(Mixed);
        }
        combine := if parts[i] == "and" then All else Any;
        i := i + 1;
      } else if combine == Single {
        return Failed(Missing);
      } else {
        var leaves := ParseLeaf(parts[i]);
        if leaves.NoLeaves? {
          return Failed(leaves.reason);
        }
        if combine == NotSet {
          combine := Single;
        }
        parsed := parsed + leaves.found;
        i := i + 1;
      }
    }
    r := Finish(parsed, combine);
  }

  lemma Shorter(text: string)
    ensures |Spaced(Split(text, ' '))| <= |text|
  {
    SplitTokens(text, ' ');
  }
}
