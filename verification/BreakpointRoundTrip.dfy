/** What is printed for a leaf-first breakpoint is read back as the same breakpoint, but for
    operands whose register has no name. */
module BreakpointRoundTrip {
  import opened Words
  import opened WordSets
  import opened Text
  import opened Breakpoints

  /** Breakpoints with something to print that fits what the parser accepts. */
  predicate Printable(t: Breakpoint) {
    match t
    case Register(_, values) => values != {}
    case Memory(addr, _, _, values) => addr < 0x8000_0000 && values != {}
    case Instruction(_, _) => true
    case Group(_, operands) => |operands| >= 2 && forall o :: o in operands ==> Printable(o)
  }

  /** The registers that have a name. */
  predicate Known(nr: nat) {
    nr < 8 || MMR <= nr < MMR + 4 || nr == PSW
  }

  predicate KnownRegisters(t: Breakpoint) {
    match t
    case Register(nr, _) => Known(nr)
    case Group(_, operands) => forall o :: o in operands ==> KnownRegisters(o)
    case _ => true
  }

  /** What is left of an operand when its printed form is read: the parser passes over the
      name that is printed for unknown registers. */
  function Kept(t: Breakpoint): (r: seq<Breakpoint>)
    ensures |r| <= 1
    decreases t
  {
    match t
    case Register(nr, _) => if Known(nr) then [t] else []
    case Group(op, operands) => [Group(op, KeptAll(operands))]
    case _ => [t]
  }

  function KeptAll(operands: seq<Breakpoint>): (r: seq<Breakpoint>)
    ensures |r| <= |operands|
    decreases operands
  {
    if operands == [] then [] else Kept(operands[0]) + KeptAll(operands[1..])
  }

  /** What reading a printed breakpoint yields. */
  function ReadBack(t: Breakpoint): Outcome {
    if Kept(t) == [] then Failed(WrongCount) else Parsed(Kept(t)[0])
  }

  lemma {:induction false} KeptSnoc(operands: seq<Breakpoint>, k: nat)
    requires k < |operands|
    ensures KeptAll(operands[..k + 1]) == KeptAll(operands[..k]) + Kept(operands[k])
    decreases |operands|
  {
    if k == 0 {
      assert operands[..1][1..] == [];
      assert KeptAll(operands[..1]) == Kept(operands[0]) + [] == [] + Kept(operands[0]);
    } else {
      KeptSnoc(operands[1..], k - 1);
      assert operands[1..][..k] == operands[..k + 1][1..] && operands[1..][..k - 1] == operands[..k][1..];
      assert KeptAll(operands[..k + 1]) == Kept(operands[0]) + (KeptAll(operands[..k][1..]) + Kept(operands[k]));
    }
  }

  /** Nothing is lost exactly when every register is known. */
  lemma {:induction false} KeptWhole(t: Breakpoint)
    ensures KnownRegisters(t) <==> Kept(t) == [t]
    decreases t, 0
  {
    if t.Group? {
      KeptAllWhole(t.operands);
    }
  }

  lemma {:induction false} KeptAllWhole(operands: seq<Breakpoint>)
    ensures (forall o :: o in operands ==> KnownRegisters(o)) <==> KeptAll(operands) == operands
    decreases operands, 1
  {
    if operands != [] {
      var first, rest := operands[0], operands[1..];
      KeptWhole(first);
      KeptAllWhole(rest);
      assert operands == [first] + rest;
      if KeptAll(operands) == operands {
        assert |Kept(first)| == 1;
        assert Kept(first) == operands[..1] && KeptAll(rest) == operands[1..];
      }
    }
  }

  /** The first operand of every group is not itself a group. */
  predicate LeafFirst(t: Breakpoint) {
    t.Group? ==> t.operands != [] && !t.operands[0].Group? && forall o :: o in t.operands ==> LeafFirst(o)
  }

  // --- Values ---

  /** A comma list of octal numbers. */
  predicate IsList(s: string) {
    s != [] && IsOctal(s[0]) && forall i :: 0 <= i < |s| ==> IsOctal(s[i]) || s[i] == ','
  }

  lemma {:induction false} OctalsAreList(values: seq<Word>)
    requires values != []
    ensures AreTokens(Octals(values), ',') && IsList(Join(Octals(values), ','))
    ensures exists rest :: Join(Octals(values), ',') == Octal(values[0], 6) + rest && (rest == [] || rest[0] == ',')
    decreases |values|
  {
    forall i | 0 <= i < |values| ensures IsToken(Octals(values)[i], ',') {
      OctalIsOctal(values[i], 6);
    }
    OctalIsOctal(values[0], 6);
    if |values| == 1 {
      assert Octals(values)[0] + [] == Octals(values)[0];
      assert Join(Octals(values), ',') == Octal(values[0], 6) + [];
    } else {
      assert Octals(values)[1..] == Octals(values[1..]);
      OctalsAreList(values[1..]);
      var rest := [','] + Join(Octals(values[1..]), ',');
      assert Join(Octals(values), ',') == Octal(values[0], 6) + rest;
    }
  }

  function Elements(values: seq<Word>): set<Word> {
    set v | v in values
  }

  lemma ElementsSnoc(values: seq<Word>)
    requires values != []
    ensures Elements(values) == Elements(values[..|values| - 1]) + {values[|values| - 1]}
  {
    assert values == values[..|values| - 1] + [values[|values| - 1]];
  }

  lemma {:induction false} ValuesBack(values: seq<Word>)
    ensures ParseValues(Octals(values)) == Some(Elements(values))
    decreases |values|
  {
    hide Stoi, Octal, Elements;
    if values == [] {
      assert Elements([]) == {} by { NoElements(); }
    } else {
      var init, last := values[..|values| - 1], values[|values| - 1];
      assert Octals(values)[..|values| - 1] == Octals(init);
      ValuesBack(init);
      StoiOctal(last, 6, []);
      ElementsSnoc(values);
    }
  }

  lemma NoElements()
    ensures Elements([]) == {}
  {
  }

  lemma KeyValueSplit(key: string, list: string)
    requires IsToken(key, '=') && IsToken(list, '=')
    ensures Split(key + "=" + list, '=') == [key, list]
  {
    hide Split;
    SplitJoin([key, list], '=');
  }

  /** A comma list as printed, and what the parsers make of it. */
  predicate ListOf(list: string, values: set<Word>) {
    && IsList(list) && IsToken(list, '=')
    && ParseValues(Split(list, ',')) == Some(values) && Stoi(list).Some?
  }

  lemma ListBack(values: set<Word>)
    requires values != {}
    ensures ListOf(Join(Octals(Sorted(values)), ','), values)
  {
    hide Split, Stoi, Octals, Octal, ParseValues, Join, IsOctal;
    var sorted := Sorted(values);
    assert sorted != [];
    OctalsAreList(sorted);
    SplitJoin(Octals(sorted), ',');
    ValuesBack(sorted);
    assert Elements(sorted) == values;
    var rest :| Join(Octals(sorted), ',') == Octal(sorted[0], 6) + rest && (rest == [] || rest[0] == ',');
    CommaIsNotOctal();
    StoiOctal(sorted[0], 6, rest);
    ListIsToken(Join(Octals(sorted), ','));
  }

  lemma CommaIsNotOctal()
    ensures !IsOctal(',')
  {
  }

  lemma ListIsToken(list: string)
    requires IsList(list)
    ensures IsToken(list, '=')
  {
  }

  // --- Leaves ---

  predicate LeafChars(s: string) {
    forall i :: 0 <= i < |s| ==> s[i] != ' ' && s[i] != '(' && s[i] != ')'
  }

  /** A token that is a leaf: nothing in it looks like a group or a separator. */
  predicate LeafToken(s: string) {
    s != [] && s != "and" && s != "or" && LeafChars(s)
  }

  /** Printed with its values, a key is given to the leaf parsers with those values. */
  lemma KeyAndValues(key: string, values: set<Word>)
    requires values != {} && IsToken(key, '=') && LeafChars(key)
    ensures var token := EmitValues(key, Sorted(values));
            && LeafToken(token)
            && ParseRegister(token) == RegisterFor(key, values) && ParseMemory(token) == MemoryFor(key, values)
            && exists v :: ParseInstruction(token) == InstructionFor(key, v)
  {
    hide Split, Stoi, Octals, ParseValues, Join, RegisterFor, MemoryFor, InstructionFor, Sorted;
    var list := Join(Octals(Sorted(values)), ',');
    ListBack(values);
    KeyValueSplit(key, list);
    LeafCharsConcat(key, list);
    var v := Stoi(list).value;
    assert ParseInstruction(EmitValues(key, Sorted(values))) == InstructionFor(key, v);
  }

  lemma LeafCharsConcat(key: string, list: string)
    requires key != [] && LeafChars(key) && IsList(list)
    ensures LeafToken(key + "=" + list)
  {
    var token := key + "=" + list;
    assert token[|key|] == '=';
    forall i | 0 <= i < |token| ensures token[i] != ' ' && token[i] != '(' && token[i] != ')' {
      if i > |key| {
        assert token[i] == list[i - |key| - 1];
      }
    }
  }

  lemma RegisterKeyBack(nr: nat, values: set<Word>)
    requires Known(nr)
    ensures RegisterFor(Name(nr), values) == Found(Register(nr, values)) && MemoryFor(Name(nr), values) == NotMine
    ensures forall v :: InstructionFor(Name(nr), v) == NotMine
    ensures IsToken(Name(nr), '=') && LeafChars(Name(nr))
  {
    if nr < 8 {
      assert Name(nr) == ['R', Digit(nr)];
    } else if nr < PSW {
      assert Name(nr) == ['m', 'm', 'r', Digit(nr - MMR)];
      assert Name(nr)[..3] == "mmr";
    }
  }

  /** The name of an unknown register belongs to none of the three leaf parsers. */
  lemma UnknownKey(nr: nat, values: set<Word>)
    requires !Known(nr)
    ensures RegisterFor(Name(nr), values) == NotMine && MemoryFor(Name(nr), values) == NotMine
    ensures forall v :: InstructionFor(Name(nr), v) == NotMine
    ensures IsToken(Name(nr), '=') && LeafChars(Name(nr))
  {
    assert Name(nr) == "???";
  }

  lemma RegisterBack(nr: nat, values: set<Word>)
    requires values != {}
    ensures ParseLeaf(Emit(Register(nr, values))) == Leaves(Kept(Register(nr, values)))
            && LeafToken(Emit(Register(nr, values)))
  {
    hide Name, MemoryFor, RegisterFor, InstructionFor, ParseRegister, ParseMemory, ParseInstruction, EmitValues,
      Sorted, LeafToken, Known;
    if Known(nr) {
      RegisterKeyBack(nr, values);
    } else {
      UnknownKey(nr, values);
    }
    KeyAndValues(Name(nr), values);
  }

  lemma MemoryKeyIs(addr: nat, byteMode: bool, isVirtual: bool)
    ensures var key, digits := MemoryKey(addr, byteMode, isVirtual), Octal(addr, 8);
            && |key| == 7 + |digits| && key[..3] == "MEM" && key[3] == (if byteMode then 'B' else 'W')
            && key[4] == (if isVirtual then 'V' else 'P')
            && key[5] == '[' && key[6..|key| - 1] == digits && key[|key| - 1] == ']'
  {
    hide Octal;
  }

  lemma MemoryKeyBack(addr: nat, byteMode: bool, isVirtual: bool, values: set<Word>)
    requires addr < 0x8000_0000
    ensures var key := MemoryKey(addr, byteMode, isVirtual);
            && MemoryFor(key, values) == Found(Memory(addr, byteMode, isVirtual, values))
            && RegisterFor(key, values) == NotMine && (forall v :: InstructionFor(key, v) == NotMine)
  {
    hide MemoryKey, Octal, Stoi, Find;
    var key := MemoryKey(addr, byteMode, isVirtual);
    MemoryKeyIs(addr, byteMode, isVirtual);
    OctalIsOctal(addr, 8);
    BracketAtEnd(key, Octal(addr, 8));
    StoiOctal(addr, 8, []);
    NotThose(key, values);
  }

  lemma NotThose(key: string, values: set<Word>)
    requires |key| > 8 && key[0] == 'M' && key[1] == 'E'
    ensures RegisterFor(key, values) == NotMine && forall v :: InstructionFor(key, v) == NotMine
  {
  }

  /** The bracket that ends the address is the first one. */
  lemma BracketAtEnd(key: string, digits: string)
    requires |key| == 7 + |digits| && key[..3] == "MEM" && key[3] in "BW" && key[4] in "VP" && key[5] == '['
    requires key[6..|key| - 1] == digits && key[|key| - 1] == ']'
    requires forall i :: 0 <= i < |digits| ==> IsOctal(digits[i])
    ensures Find(key, ']') == |key| - 1 && IsToken(key, '=') && LeafChars(key)
  {
    forall i | 0 <= i < |key| - 1
      ensures key[i] != ']' && key[i] != '=' && key[i] != ' ' && key[i] != '(' && key[i] != ')'
    {
      if i < 3 {
        assert key[i] == key[..3][i];
      } else if i >= 6 {
        assert key[i] == digits[i - 6];
      }
    }
    FindIs(key, ']', |key| - 1);
  }

  lemma MemoryBack(addr: nat, byteMode: bool, isVirtual: bool, values: set<Word>)
    requires Printable(Memory(addr, byteMode, isVirtual, values))
    ensures var t := Memory(addr, byteMode, isVirtual, values);
            ParseLeaf(Emit(t)) == Leaves([t]) && LeafToken(Emit(t))
  {
    hide MemoryKey, MemoryFor, RegisterFor, InstructionFor, ParseRegister, ParseMemory, ParseInstruction, EmitValues;
    hide Sorted, LeafToken, Octal, Find;
    var key := MemoryKey(addr, byteMode, isVirtual);
    MemoryKeyIs(addr, byteMode, isVirtual);
    OctalIsOctal(addr, 8);
    BracketAtEnd(key, Octal(addr, 8));
    MemoryKeyBack(addr, byteMode, isVirtual, values);
    KeyAndValues(key, values);
  }

  lemma OctalIsToken(n: nat, width: nat)
    ensures IsToken(Octal(n, width), '=') && IsToken(Octal(n, width), ',') && LeafChars(Octal(n, width))
            && IsList(Octal(n, width))
  {
    hide Octal;
    OctalIsOctal(n, width);
  }

  lemma InstructionKeyBack(mask: Word, values: set<Word>, v: int)
    ensures var key := "instr[" + Octal(mask, 6) + "]";
            && InstructionFor(key, v) == Found(Instruction(Wrap(v), mask))
            && RegisterFor(key, values) == NotMine && MemoryFor(key, values) == NotMine
            && IsToken(key, '=') && LeafChars(key)
  {
    hide Octal, Stoi, LeafChars, IsToken;
    var key := "instr[" + Octal(mask, 6) + "]";
    assert key[6..|key| - 1] == Octal(mask, 6) && key[..5] == "instr";
    StoiOctal(mask, 6, []);
    MaskChars(mask);
  }

  lemma MaskChars(mask: Word)
    ensures var key := "instr[" + Octal(mask, 6) + "]"; IsToken(key, '=') && LeafChars(key)
  {
    hide Octal;
    var key := "instr[" + Octal(mask, 6) + "]";
    OctalIsToken(mask, 6);
    forall i | 0 <= i < |key| ensures key[i] != '=' && key[i] != ' ' && key[i] != '(' && key[i] != ')'
    {
      if 6 <= i < |key| - 1 {
        assert key[i] == Octal(mask, 6)[i - 6];
      }
    }
  }

  lemma InstructionBack(instruction: Word, mask: Word)
    ensures ParseLeaf(Emit(Instruction(instruction, mask))) == Leaves([Instruction(instruction, mask)])
    ensures LeafToken(Emit(Instruction(instruction, mask)))
  {
    hide Octal, Stoi, Split, RegisterFor, MemoryFor, InstructionFor, ParseValues, LeafToken, IsList, LeafChars, IsToken;
    var key, value := "instr[" + Octal(mask, 6) + "]", Octal(instruction, 6);
    InstructionKeyBack(mask, {instruction}, instruction);
    OctalIsToken(instruction, 6);
    KeyValueSplit(key, value);
    assert Emit(Instruction(instruction, mask)) == key + "=" + value;
    OneValue(instruction);
    LeafCharsConcat(key, value);
    StoiOctal(instruction, 6, []);
  }

  lemma OneValue(v: Word)
    ensures ParseValues(Split(Octal(v, 6), ',')) == Some({v})
  {
    hide Octal, Split, Stoi;
    OctalIsToken(v, 6);
    SplitJoin([Octal(v, 6)], ',');
    ValuesBack([v]);
    assert Octals([v]) == [Octal(v, 6)] && Elements([v]) == {v};
  }

  lemma LeafBack(t: Breakpoint)
    requires Printable(t) && !t.Group?
    ensures ParseLeaf(Emit(t)) == Leaves(Kept(t)) && LeafToken(Emit(t))
  {
    match t
    case Register(nr, values) => RegisterBack(nr, values);
    case Memory(addr, byteMode, isVirtual, values) => MemoryBack(addr, byteMode, isVirtual, values);
    case Instruction(instruction, mask) => InstructionBack(instruction, mask);
  }

  // --- Groups as tokens ---

  function AddFirst(ts: seq<string>): (r: seq<string>)
    requires ts != []
    ensures |r| == |ts|
  {
    ts[0 := "(" + ts[0]]
  }

  function AddLast(ts: seq<string>): (r: seq<string>)
    requires ts != []
    ensures |r| == |ts|
  {
    ts[|ts| - 1 := ts[|ts| - 1] + ")"]
  }

  /** A parenthesis before the first token and one after the last. */
  function Enclose(ts: seq<string>): (r: seq<string>)
    requires ts != []
    ensures |r| == |ts|
  {
    AddLast(AddFirst(ts))
  }

  function Tokens(t: Breakpoint): (r: seq<string>)
    ensures r != []
    decreases t
  {
    match t
    case Group(op, operands) => if operands == [] then [")"] else Enclose(Inner(op, operands))
    case _ => [Emit(t)]
  }

  function Inner(op: Op, operands: seq<Breakpoint>): (r: seq<string>)
    requires operands != []
    ensures r != []
    decreases operands
  {
    Tokens(operands[0]) + Rest(op, operands[1..])
  }

  function Rest(op: Op, operands: seq<Breakpoint>): seq<string>
    decreases operands
  {
    if operands == [] then [] else [Joiner(op)] + Tokens(operands[0]) + Rest(op, operands[1..])
  }

  lemma AddFirstJoin(ts: seq<string>)
    requires ts != []
    ensures Spaced(AddFirst(ts)) == "(" + Spaced(ts)
    ensures AreTokens(ts, ' ') ==> AreTokens(AddFirst(ts), ' ')
  {
    if |ts| > 1 {
      assert AddFirst(ts)[1..] == ts[1..];
      var rest := " " + Join(ts[1..], ' ');
      assert "(" + ts[0] + rest == "(" + (ts[0] + rest);
    }
  }

  lemma {:induction false} AddLastJoin(ts: seq<string>)
    requires ts != []
    ensures Spaced(AddLast(ts)) == Spaced(ts) + ")"
    ensures AreTokens(ts, ' ') ==> AreTokens(AddLast(ts), ' ')
    decreases |ts|
  {
    if |ts| > 1 {
      assert AddLast(ts)[1..] == AddLast(ts[1..]);
      AddLastJoin(ts[1..]);
      var head := ts[0] + " ";
      assert head + (Join(ts[1..], ' ') + ")") == head + Join(ts[1..], ' ') + ")";
    }
  }

  lemma EncloseJoin(ts: seq<string>)
    requires ts != []
    ensures AreTokens(ts, ' ') ==> AreTokens(Enclose(ts), ' ')
    ensures Spaced(Enclose(ts)) == "(" + Spaced(ts) + ")"
    ensures Strip(Spaced(Enclose(ts))) == Spaced(ts)
  {
    hide AddFirst, AddLast, Spaced, AreTokens;
    AddFirstJoin(ts);
    AddLastJoin(AddFirst(ts));
    var s := Spaced(ts);
    assert ("(" + s + ")")[1..|s| + 1] == s;
  }

  predicate TokensJoin(t: Breakpoint) {
    (Printable(t) ==> AreTokens(Tokens(t), ' ')) && Spaced(Tokens(t)) == Emit(t)
  }

  /** `and`, an operand and what follows it. */
  lemma JoinRest(op: Op, first: seq<string>, rest: seq<string>)
    requires first != []
    ensures var ts := [Joiner(op)] + first + rest;
            && (AreTokens(first, ' ') && AreTokens(rest, ' ') ==> AreTokens(ts, ' '))
            && Spaced(ts) == Joiner(op) + " " + (Spaced(first) + if rest == [] then [] else " " + Spaced(rest))
  {
    hide Join;
    var a, b, c := [Joiner(op)], Spaced(first), Spaced(rest);
    JoinConcat(a, first, ' ');
    JoinConcat(a + first, rest, ' ');
    JoinOne(Joiner(op));
    var head := Joiner(op) + " ";
    assert head + b + " " + c == head + (b + (" " + c));
    assert head + (b + []) == head + b;
  }

  lemma JoinOne(s: string)
    ensures Spaced([s]) == s
  {
  }

  lemma {:induction false} RestIsTokens(op: Op, operands: seq<Breakpoint>)
    requires forall o :: o in operands ==> TokensJoin(o)
    ensures (forall o :: o in operands ==> Printable(o)) ==> AreTokens(Rest(op, operands), ' ')
    ensures operands != [] ==> Spaced(Rest(op, operands)) == Joiner(op) + " " + EmitAll(op, operands)
    decreases operands
  {
    hide AreTokens, Tokens, Emit, Spaced, Joiner;
    if operands == [] {
      NoTokens();
    } else {
      var rest := Rest(op, operands[1..]);
      RestIsTokens(op, operands[1..]);
      assert TokensJoin(operands[0]);
      JoinRest(op, Tokens(operands[0]), rest);
      if |operands| > 1 {
        var b, e := Emit(operands[0]), EmitAll(op, operands[1..]);
        assert b + (" " + (Joiner(op) + " " + e)) == b + " " + Joiner(op) + " " + e;
      } else {
        assert Emit(operands[0]) + [] == Emit(operands[0]);
      }
    }
  }

  lemma NoTokens()
    ensures AreTokens([], ' ')
  {
  }

  lemma ConcatTokens(a: seq<string>, b: seq<string>)
    ensures AreTokens(a, ' ') && AreTokens(b, ' ') ==> AreTokens(a + b, ' ')
  {
  }

  lemma SomeRest(op: Op, operands: seq<Breakpoint>)
    requires operands != []
    ensures Rest(op, operands) != []
  {
  }

  lemma Reassociated(first: string, joiner: string, rest: string)
    ensures first + [' '] + (joiner + " " + rest) == first + " " + joiner + " " + rest
  {
  }

  lemma InnerIsTokens(op: Op, operands: seq<Breakpoint>)
    requires operands != [] && forall o :: o in operands ==> TokensJoin(o)
    ensures (forall o :: o in operands ==> Printable(o)) ==> AreTokens(Inner(op, operands), ' ')
    ensures Spaced(Inner(op, operands)) == EmitAll(op, operands)
  {
    hide AreTokens, Tokens, Rest, Emit, Joiner, Join;
    var rest := Rest(op, operands[1..]);
    RestIsTokens(op, operands[1..]);
    ConcatTokens(Tokens(operands[0]), rest);
    JoinConcat(Tokens(operands[0]), rest, ' ');
    assert TokensJoin(operands[0]);
    if |operands| > 1 {
      SomeRest(op, operands[1..]);
      Reassociated(Emit(operands[0]), Joiner(op), EmitAll(op, operands[1..]));
    } else {
      assert rest == [] by { NoRest(op, operands[1..]); }
      assert Tokens(operands[0]) + [] == Tokens(operands[0]);
    }
  }

  lemma NoRest(op: Op, operands: seq<Breakpoint>)
    requires operands == []
    ensures Rest(op, operands) == []
  {
  }

  /** The text of a breakpoint is its tokens with spaces between them. */
  lemma {:induction false} EmitIsTokens(t: Breakpoint)
    ensures TokensJoin(t)
    decreases t
  {
    hide Spaced, AreTokens, Inner, EmitAll, LeafToken;
    if t.Group? {
      forall o | o in t.operands ensures TokensJoin(o) {
        EmitIsTokens(o);
      }
      if t.operands == [] {
        JoinOne(")");
      } else {
        InnerIsTokens(t.op, t.operands);
        EncloseJoin(Inner(t.op, t.operands));
      }
    } else {
      JoinOne(Emit(t));
      if Printable(t) {
        LeafBack(t);
        OneToken(Emit(t));
      }
    }
  }

  lemma OneToken(s: string)
    requires LeafToken(s)
    ensures AreTokens([s], ' ') && Spaced([s]) == s
  {
  }

  // --- Matching parentheses ---

  function Total(ts: seq<string>): int {
    if ts == [] then 0 else Weight(ts[0]) + Total(ts[1..])
  }

  /** From depth `d`, the depth stays above zero. */
  predicate StaysUp(ts: seq<string>, d: int) {
    ts == [] || (d + Weight(ts[0]) > 0 && StaysUp(ts[1..], d + Weight(ts[0])))
  }

  lemma {:induction false} UpConcat(a: seq<string>, b: seq<string>, d: int)
    ensures Total(a + b) == Total(a) + Total(b)
    ensures StaysUp(a + b, d) <==> StaysUp(a, d) && StaysUp(b, d + Total(a))
    decreases |a|
  {
    hide Weight;
    if a == [] {
      assert a + b == b;
    } else {
      assert (a + b)[1..] == a[1..] + b;
      UpConcat(a[1..], b, d + Weight(a[0]));
    }
  }

  lemma {:induction false} UpHigher(ts: seq<string>, d: int, e: int)
    requires StaysUp(ts, d) && d <= e
    ensures StaysUp(ts, e)
    decreases |ts|
  {
    hide Weight;
    if ts != [] {
      UpHigher(ts[1..], d + Weight(ts[0]), e + Weight(ts[0]));
    }
  }

  /** The scan finds the end of a stretch whose depth comes back to zero only there. */
  lemma {:induction false} ScanFinds(parts: seq<string>, i: nat, ts: seq<string>, d: int)
    requires ts != [] && i + |ts| <= |parts| && parts[i..i + |ts|] == ts
    requires StaysUp(ts[..|ts| - 1], d) && d + Total(ts) == 0
    ensures ScanEnd(parts, i, d) == Some(i + |ts| - 1)
    decreases |ts|
  {
    hide Weight;
    assert parts[i] == ts[0];
    if |ts| > 1 {
      assert ts[..|ts| - 1][1..] == ts[1..][..|ts| - 2];
      assert parts[i + 1..i + 1 + |ts[1..]|] == ts[1..];
      ScanFinds(parts, i + 1, ts[1..], d + Weight(ts[0]));
    } else {
      assert Total(ts[1..]) == 0;
    }
  }

  lemma {:induction false} NoCloses(s: string)
    requires forall i :: 0 <= i < |s| ==> s[i] != ')'
    ensures Closes(s) == 0
  {
    if s != [] {
      NoCloses(s[..|s| - 1]);
    }
  }

  lemma LeafWeight(s: string)
    requires LeafToken(s)
    ensures Weight(s) == 0 && !Opens(s)
  {
    NoCloses(s);
  }

  lemma {:induction false} ClosesConcat(a: string, b: string)
    ensures Closes(a + b) == Closes(a) + Closes(b)
    decreases |b|
  {
    if b == [] {
      assert a + b == a;
    } else {
      assert (a + b)[..|a + b| - 1] == a + b[..|b| - 1];
      ClosesConcat(a, b[..|b| - 1]);
    }
  }

  lemma EncloseWeights(ts: seq<string>)
    requires |ts| >= 2 && ts[0] != [] && ts[|ts| - 1] != [] && !Opens(ts[0])
    ensures var r := Enclose(ts);
            && Weight(r[0]) == Weight(ts[0]) + 1 && Weight(r[|r| - 1]) == Weight(ts[|ts| - 1]) - 1
            && forall i :: 0 < i < |ts| - 1 ==> r[i] == ts[i]
  {
    ClosesConcat("(", ts[0]);
    ClosesConcat(ts[|ts| - 1], ")");
    NoCloses("(");
    assert Closes(")") == 1 + Closes("");
    assert ")"[..0] == "";
  }

  /** Tokens whose depth never falls below where it began, and ends there. */
  ghost predicate Level(ts: seq<string>) {
    Total(ts) == 0 && forall d :: d > 0 ==> StaysUp(ts, d)
  }

  lemma LevelConcat(a: seq<string>, b: seq<string>)
    requires Level(a) && Level(b)
    ensures Level(a + b)
  {
    forall d | d > 0 ensures StaysUp(a + b, d) {
      UpConcat(a, b, d);
    }
    UpConcat(a, b, 1);
  }

  lemma OneWeight(s: string, d: int)
    ensures Total([s]) == Weight(s) && (StaysUp([s], d) <==> d + Weight(s) > 0)
  {
    hide Weight;
    assert [s][1..] == [];
  }

  lemma LevelToken(s: string)
    requires Weight(s) == 0
    ensures Level([s])
  {
    hide Weight;
    forall d | d > 0 ensures StaysUp([s], d) {
      OneWeight(s, d);
    }
    OneWeight(s, 1);
  }

  /** Enclosed, such tokens begin and end at depth zero and are above it in between. */
  lemma EncloseLevel(ts: seq<string>)
    requires |ts| >= 2 && ts[0] != [] && ts[|ts| - 1] != [] && !Opens(ts[0]) && Level(ts)
    ensures var r := Enclose(ts); StaysUp(r[..|r| - 1], 0) && Total(r) == 0 && Level(r)
  {
    hide Weight, Opens;
    var r, n := Enclose(ts), |ts| - 1;
    EncloseWeights(ts);
    var mid := ts[1..n];
    assert ts == [ts[0]] + mid + [ts[n]] && r == [r[0]] + mid + [r[n]] && r[..n] == [r[0]] + mid;
    assert StaysUp(ts, 1);
    forall d | d >= 0 ensures StaysUp([r[0]] + mid, d) && (d > 0 ==> StaysUp(r, d)) && Total(r) == 0 {
      assert StaysUp(ts, d + 1);
      UpConcat([ts[0]] + mid, [ts[n]], d + 1);
      UpConcat([ts[0]], mid, d + 1);
      UpConcat([r[0]] + mid, [r[n]], d);
      UpConcat([r[0]], mid, d);
      OneWeight(ts[0], d + 1);
      OneWeight(ts[n], d + 1 + Total([ts[0]] + mid));
      OneWeight(r[0], d);
      OneWeight(r[n], d + Total([r[0]] + mid));
    }
    assert StaysUp([r[0]] + mid, 0);
  }

  lemma {:induction false} RestIsLevel(op: Op, operands: seq<Breakpoint>)
    requires forall o :: o in operands ==> Printable(o) && Level(Tokens(o))
    ensures Level(Rest(op, operands))
    decreases operands
  {
    hide Level, Tokens;
    if operands == [] {
      NothingIsLevel();
    } else {
      RestIsLevel(op, operands[1..]);
      NoCloses(Joiner(op));
      LevelToken(Joiner(op));
      LevelConcat([Joiner(op)], Tokens(operands[0]));
      LevelConcat([Joiner(op)] + Tokens(operands[0]), Rest(op, operands[1..]));
    }
  }

  lemma NothingIsLevel()
    ensures Level([])
  {
  }

  lemma GroupIsLevel(t: Breakpoint)
    requires Printable(t) && LeafFirst(t) && t.Group?
    requires forall o :: o in t.operands ==> Printable(o) && Level(Tokens(o))
    ensures var ts := Tokens(t); Level(ts) && StaysUp(ts[..|ts| - 1], 0) && Total(ts) == 0
  {
    hide Level, Weight, Opens, Emit, Enclose, StaysUp, Total, Rest, Kept, ParseLeaf, LeafToken;
    var first := t.operands[0];
    assert first in t.operands && !first.Group?;
    LeafBack(first);
    LeafWeight(Emit(first));
    RestIsLevel(t.op, t.operands[1..]);
    LevelConcat(Tokens(first), Rest(t.op, t.operands[1..]));
    InnerEnds(t);
    EncloseLevel(Inner(t.op, t.operands));
  }

  /** In a leaf-first breakpoint every group's tokens balance. */
  lemma {:induction false} TokensAreLevel(t: Breakpoint)
    requires Printable(t) && LeafFirst(t)
    ensures Level(Tokens(t))
    ensures t.Group? ==> StaysUp(Tokens(t)[..|Tokens(t)| - 1], 0) && Total(Tokens(t)) == 0
    decreases t
  {
    hide Level, Weight, Opens, Emit, Tokens, StaysUp, Total;
    if t.Group? {
      forall o | o in t.operands ensures Printable(o) && LeafFirst(o) && Level(Tokens(o)) {
        TokensAreLevel(o);
      }
      GroupIsLevel(t);
    } else {
      LeafBack(t);
      LeafTokens(t);
      LeafWeight(Emit(t));
      LevelToken(Emit(t));
    }
  }

  lemma InnerEnds(t: Breakpoint)
    requires t.Group? && Printable(t)
    ensures var ts := Inner(t.op, t.operands); |ts| >= 2 && ts[0] != [] && ts[|ts| - 1] != []
  {
    forall o | o in t.operands ensures Printable(o) && TokensJoin(o) {
      EmitIsTokens(o);
    }
    var ts := Inner(t.op, t.operands);
    InnerIsTokens(t.op, t.operands);
    assert Rest(t.op, t.operands[1..]) != [];
    assert IsToken(ts[0], ' ') && IsToken(ts[|ts| - 1], ' ');
  }

  // --- Parsing what was printed ---

  /** A leaf at token `i`. */
  lemma LeafStep(parts: seq<string>, i: nat, t: Breakpoint, parsed: seq<Breakpoint>, combine: Combine)
    requires AreTokens(parts, ' ') && i < |parts| && Printable(t) && !t.Group? && parts[i] == Emit(t)
             && !combine.Single?
    ensures ParseFrom(parts, i, parsed, combine)
            == ParseFrom(parts, i + 1, parsed + Kept(t), if combine.NotSet? then Single else combine)
  {
    hide Emit, ParseLeaf, Spaced;
    LeafBack(t);
    LeafWeight(parts[i]);
  }

  /** The inside of a group is read as it should be. */
  predicate InsideRead(t: Breakpoint) {
    t.Group? && t.operands != [] ==> Parse(Spaced(Inner(t.op, t.operands))) == ReadBack(t)
  }

  /** The scan from a group's first token ends at its last. */
  lemma GroupScan(parts: seq<string>, i: nat, t: Breakpoint)
    requires Printable(t) && LeafFirst(t) && t.Group?
    requires i + |Tokens(t)| <= |parts| && parts[i..i + |Tokens(t)|] == Tokens(t)
    ensures Opens(parts[i]) && ScanEnd(parts, i, 0) == Some(i + |Tokens(t)| - 1)
  {
    hide Weight, ScanEnd, Emit, Inner, StaysUp, Total, LeafFirst, Enclose, Opens;
    var ts := Tokens(t);
    TokensAreLevel(t);
    ScanFinds(parts, i, ts, 0);
    EncloseOpens(Inner(t.op, t.operands));
    assert parts[i] == ts[0];
  }

  lemma GroupInside(t: Breakpoint)
    requires t.Group? && t.operands != []
    ensures Strip(Spaced(Tokens(t))) == Spaced(Inner(t.op, t.operands))
  {
    hide Spaced, Inner, Strip, Enclose;
    EncloseJoin(Inner(t.op, t.operands));
  }

  /** A group from token `i` on. */
  lemma GroupStep(parts: seq<string>, i: nat, t: Breakpoint, parsed: seq<Breakpoint>, combine: Combine)
    requires AreTokens(parts, ' ') && Printable(t) && LeafFirst(t) && t.Group? && InsideRead(t)
    requires i + |Tokens(t)| <= |parts| && parts[i..i + |Tokens(t)|] == Tokens(t)
    ensures ParseFrom(parts, i, parsed, combine) == ParseFrom(parts, i + |Tokens(t)|, parsed + Kept(t), combine)
  {
    hide ScanEnd, Opens, Tokens, Inner, Spaced, Strip, Parse, ParseLeaf, AreTokens, LeafFirst, KeptAll;
    GroupScan(parts, i, t);
    GroupInside(t);
  }

  lemma EncloseOpens(ts: seq<string>)
    requires ts != []
    ensures Opens(Enclose(ts)[0])
  {
  }

  /** The rest of a group's operands, each after its `and` or `or`. */
  lemma {:induction false} RestSteps(parts: seq<string>, i: nat, op: Op, operands: seq<Breakpoint>, k: nat,
                                     combine: Combine)
    requires AreTokens(parts, ' ') && i <= |parts| && k <= |operands|
    requires combine == Mode(op) || ((combine.Single? || combine.NotSet?) && k < |operands|)
    requires forall o :: o in operands ==>
               Printable(o) && LeafFirst(o) && InsideRead(o)
    requires parts[i..] == Rest(op, operands[k..])
    ensures ParseFrom(parts, i, KeptAll(operands[..k]), combine) == Parsed(Group(op, KeptAll(operands)))
    decreases |operands| - k
  {
    hide Emit, Parse, ParseLeaf, AreTokens, ScanEnd, LeafFirst, Inner, Spaced, ParseFrom, Tokens, Joiner;
    hide InsideRead, KeptAll, Kept;
    var parsed := KeptAll(operands[..k]);
    if k == |operands| {
      NoRest(op, operands[k..]);
      assert operands[..k] == operands;
      GroupAtEnd(parts, op, KeptAll(operands));
    } else {
      var o, rest := operands[k], Rest(op, operands[k + 1..]);
      assert operands[k..][1..] == operands[k + 1..] && o in operands;
      var n := |Tokens(o)|;
      Pieces(parts, i, Joiner(op), Tokens(o), rest);
      JoinerStep(parts, i, op, parsed, combine);
      if o.Group? {
        GroupStep(parts, i + 1, o, parsed, Mode(op));
      } else {
        LeafTokens(o);
        assert parts[i + 1] == parts[i + 1..i + 1 + n][0];
        LeafStep(parts, i + 1, o, parsed, Mode(op));
      }
      KeptSnoc(operands, k);
      RestSteps(parts, i + 1 + n, op, operands, k + 1, Mode(op));
    }
  }

  lemma GroupAtEnd(parts: seq<string>, op: Op, parsed: seq<Breakpoint>)
    requires AreTokens(parts, ' ')
    ensures ParseFrom(parts, |parts|, parsed, Mode(op)) == Parsed(Group(op, parsed))
  {
  }

  lemma LeafTokens(t: Breakpoint)
    requires Printable(t) && !t.Group?
    ensures Tokens(t) == [Emit(t)]
  {
  }

  lemma Pieces(parts: seq<string>, i: nat, a: string, b: seq<string>, c: seq<string>)
    requires i <= |parts| && parts[i..] == [a] + b + c
    ensures i + 1 + |b| <= |parts| && parts[i] == a && parts[i + 1..i + 1 + |b|] == b && parts[i + 1 + |b|..] == c
  {
    assert parts[i] == parts[i..][0];
    assert parts[i + 1..i + 1 + |b|] == parts[i..][1..1 + |b|];
    assert parts[i + 1 + |b|..] == parts[i..][1 + |b|..];
  }

  lemma JoinerStep(parts: seq<string>, i: nat, op: Op, parsed: seq<Breakpoint>, combine: Combine)
    requires AreTokens(parts, ' ') && i < |parts| && parts[i] == Joiner(op)
    requires combine == Mode(op) || combine.Single? || combine.NotSet?
    ensures ParseFrom(parts, i, parsed, combine) == ParseFrom(parts, i + 1, parsed, Mode(op))
  {
    hide ParseLeaf, Spaced;
  }

  /** Operands with `and` or `or` between them, not in parentheses. */
  lemma OperandsBack(op: Op, operands: seq<Breakpoint>)
    requires |operands| >= 2
    requires forall o :: o in operands ==>
               Printable(o) && LeafFirst(o) && InsideRead(o)
    ensures Parse(Spaced(Inner(op, operands))) == Parsed(Group(op, KeptAll(operands)))
  {
    hide Emit, ParseLeaf, ParseFrom, AreTokens, Spaced, Split, Tokens, Rest, Parse, LeafFirst, Kept, InsideRead;
    var parts, first := Inner(op, operands), operands[0];
    assert first in operands;
    forall o | o in operands ensures Printable(o) && TokensJoin(o) {
      EmitIsTokens(o);
    }
    InnerIsTokens(op, operands);
    var n := |Tokens(first)|;
    assert parts[0..n] == Tokens(first) && parts[n..] == Rest(op, operands[1..]);
    assert [] + Kept(first) == Kept(first) == KeptAll(operands[..1]) by {
      KeptSnoc(operands, 0);
      assert operands[..0] == [];
    }
    if first.Group? {
      GroupStep(parts, 0, first, [], NotSet);
      RestSteps(parts, n, op, operands, 1, NotSet);
    } else {
      LeafTokens(first);
      LeafStep(parts, 0, first, [], NotSet);
      RestSteps(parts, n, op, operands, 1, Single);
    }
    ParseTokens(parts);
  }

  lemma ParseTokens(parts: seq<string>)
    requires AreTokens(parts, ' ')
    ensures Parse(Spaced(parts)) == ParseFrom(parts, 0, [], NotSet)
  {
    hide ParseFrom, AreTokens, Spaced, Split;
    SplitSpaced(parts);
  }

  lemma SplitSpaced(parts: seq<string>)
    requires AreTokens(parts, ' ')
    ensures Split(Spaced(parts), ' ') == parts
  {
    SplitJoin(parts, ' ');
  }

  lemma {:induction false} GroupBack(t: Breakpoint)
    requires Printable(t) && LeafFirst(t)
    ensures InsideRead(t)
    decreases t
  {
    hide Parse, Inner, Spaced;
    if t.Group? {
      forall o | o in t.operands ensures InsideRead(o) {
        GroupBack(o);
      }
      OperandsBack(t.op, t.operands);
    }
  }

  /** Printing and parsing a leaf-first breakpoint gives what is left of it without its unknown
      registers: the same breakpoint when there are none. */
  lemma RoundTrip(t: Breakpoint)
    requires Printable(t) && LeafFirst(t)
    ensures Parse(Emit(t)) == ReadBack(t)
    ensures KnownRegisters(t) ==> Parse(Emit(t)) == Parsed(t)
  {
    hide ParseLeaf, ParseFrom, AreTokens, Split, Emit, Spaced, Inner, Kept, InsideRead;
    var parts := Tokens(t);
    EmitIsTokens(t);
    SplitSpaced(parts);
    if t.Group? {
      GroupBack(t);
      assert parts[0..|parts|] == parts;
      GroupStep(parts, 0, t, [], NotSet);
    } else {
      LeafStep(parts, 0, t, [], NotSet);
    }
    AtTheEnd(parts, t, NotSet);
    AtTheEnd(parts, t, Single);
    assert [] + Kept(t) == Kept(t);
    KeptWhole(t);
  }

  /** Operands that are leaf-first may be typed without parentheses around them, even when
      the first one is a group. */
  lemma TypedOperands(op: Op, operands: seq<Breakpoint>)
    requires |operands| >= 2 && forall o :: o in operands ==> Printable(o) && LeafFirst(o)
    ensures Parse(EmitAll(op, operands)) == Parsed(Group(op, KeptAll(operands)))
  {
    hide Parse, Inner, Spaced, InsideRead;
    forall o | o in operands ensures TokensJoin(o) && InsideRead(o) {
      EmitIsTokens(o);
      GroupBack(o);
    }
    InnerIsTokens(op, operands);
    OperandsBack(op, operands);
  }

  lemma AtTheEnd(parts: seq<string>, t: Breakpoint, combine: Combine)
    requires AreTokens(parts, ' ') && (combine.NotSet? || combine.Single?)
    ensures ParseFrom(parts, |parts|, Kept(t), combine) == ReadBack(t)
  {
  }
}
