/** Which breakpoints are read back as they were printed, of all there are: empty value sets,
    groups of one operand or none, and numbers no `int` holds included. The parser's own result
    says it: what it reads from a printed text has proper leaves only, and a joiner for every
    operand but one of each of its groups, and at least one. */
module BreakpointReadable {
  import opened Words
  import opened WordSets
  import opened Text
  import opened Breakpoints
  import opened BreakpointRoundTrip
  import opened BreakpointExact

  // --- Trees ---

  /** Every leaf can be printed and read back. */
  predicate GoodLeaves(t: Breakpoint) {
    match t
    case Group(_, operands) => forall o :: o in operands ==> GoodLeaves(o)
    case _ => Printable(t) && KnownRegisters(t)
  }

  predicate Wide(t: Breakpoint) {
    t.Group? ==> |t.operands| >= 2 && forall o :: o in t.operands ==> Wide(o)
  }

  /** How many `and` and `or` a text must have to be parsed into this. */
  function Cost(t: Breakpoint): nat {
    match t
    case Group(_, operands) => Max(1, |operands| - 1) + CostAll(operands)
    case _ => 0
  }

  function CostAll(operands: seq<Breakpoint>): nat {
    if operands == [] then 0 else Cost(operands[0]) + CostAll(operands[1..])
  }

  /** How many of them are printed. */
  function Joiners(t: Breakpoint): nat {
    match t
    case Group(_, operands) => Max(0, |operands| - 1) + JoinersAll(operands)
    case _ => 0
  }

  function JoinersAll(operands: seq<Breakpoint>): nat {
    if operands == [] then 0 else Joiners(operands[0]) + JoinersAll(operands[1..])
  }

  lemma {:induction false} CostSnoc(operands: seq<Breakpoint>, t: Breakpoint)
    ensures CostAll(operands + [t]) == CostAll(operands) + Cost(t)
    decreases |operands|
  {
    if operands == [] {
      assert [] + [t] == [t] && [t][1..] == [];
    } else {
      assert (operands + [t])[1..] == operands[1..] + [t];
      CostSnoc(operands[1..], t);
    }
  }

  /** Only where every group has two operands are enough of them printed. */
  lemma {:induction false} CostWide(t: Breakpoint)
    ensures Cost(t) >= Joiners(t) && (Cost(t) == Joiners(t) ==> Wide(t))
    decreases t, 0
  {
    if t.Group? {
      CostAllWide(t.operands);
    }
  }

  lemma {:induction false} CostAllWide(operands: seq<Breakpoint>)
    ensures CostAll(operands) >= JoinersAll(operands)
    ensures CostAll(operands) == JoinersAll(operands) ==> forall o :: o in operands ==> Wide(o)
    decreases operands, 1
  {
    if operands != [] {
      CostWide(operands[0]);
      CostAllWide(operands[1..]);
      assert operands == [operands[0]] + operands[1..];
    }
  }

  lemma {:induction false} GoodAndWide(t: Breakpoint)
    requires GoodLeaves(t) && Wide(t)
    ensures Printable(t) && KnownRegisters(t)
    decreases t
  {
    if t.Group? {
      forall o | o in t.operands ensures Printable(o) && KnownRegisters(o) {
        GoodAndWide(o);
      }
    }
  }

  // --- Tokens ---

  predicate IsJoiner(s: string) {
    s == "and" || s == "or"
  }

  /** Without leading parentheses. */
  function Body(s: string): string {
    if Opens(s) then Body(s[1..]) else s
  }

  /** What every printed word has, and every part of it. */
  predicate Tame(s: string) {
    var b := Body(s);
    && (b != [] ==> b[0] in "RMmpi?)")
    && (|b| > 1 && b[0] == 'M' ==> b[1] == 'E')
    && (|b| > 3 && b[0] == 'm' ==> '0' <= b[3] <= '3')
    && (forall i :: 0 <= i < |b| ==> b[i] != '-')
    && (forall i :: 0 <= i < |b| - 1 && b[i] == '=' ==> IsOctal(b[i + 1]))
  }

  lemma TameFirst(s: string)
    requires Tame(s) && Opens(s)
    ensures Tame(s[1..])
  {
  }

  lemma {:induction false} BodyLast(s: string)
    requires s != []
    ensures Body(s[..|s| - 1]) == if Body(s) == [] then [] else Body(s)[..|Body(s)| - 1]
    decreases |s|
  {
    if Opens(s) {
      if |s| == 1 {
        assert s[1..] == [] && s[..0] == [];
      } else {
        assert s[..|s| - 1][1..] == s[1..][..|s| - 2];
        BodyLast(s[1..]);
      }
    }
  }

  lemma TameLast(s: string)
    requires Tame(s) && s != []
    ensures Tame(s[..|s| - 1])
  {
    hide Body;
    BodyLast(s);
  }

  lemma TameIsWord(s: string)
    requires Tame(s)
    ensures !IsJoiner(s)
  {
  }

  /** Words with at least one joiner between any two. */
  predicate Spread(ts: seq<string>) {
    && (forall k :: 0 <= k < |ts| ==> IsJoiner(ts[k]) || Tame(ts[k]))
    && (forall k :: 0 <= k < |ts| - 1 ==> IsJoiner(ts[k]) || IsJoiner(ts[k + 1]))
  }

  function CountJoiners(ts: seq<string>): nat {
    if ts == [] then 0 else Bit(IsJoiner(ts[0])) + CountJoiners(ts[1..])
  }

  lemma {:induction false} CountConcat(a: seq<string>, b: seq<string>)
    ensures CountJoiners(a + b) == CountJoiners(a) + CountJoiners(b)
    decreases |a|
  {
    if a == [] {
      assert a + b == b;
    } else {
      assert (a + b)[1..] == a[1..] + b;
      CountConcat(a[1..], b);
    }
  }

  lemma CountWord(s: string)
    requires !IsJoiner(s)
    ensures CountJoiners([s]) == CountJoiners(NotEmpty(s)) == 0
  {
    assert [s][1..] == [];
  }

  lemma SpreadSlice(ts: seq<string>, i: nat, j: nat)
    requires Spread(ts) && i <= j <= |ts|
    ensures Spread(ts[i..j])
  {
    hide Tame, IsJoiner;
  }

  // --- Leaves ---

  lemma TwoParts(token: string)
    requires token != [] && token[0] != '=' && |Split(token, '=')| == 2
    requires forall i :: 0 <= i < |token| - 1 && token[i] == '=' ==> IsOctal(token[i + 1])
    ensures var parts, n := Split(token, '='), Find(token, '=');
            && 0 < n < |token| && parts[0] == token[..n] && parts[1] != [] && IsOctal(parts[1][0])
  {
    hide Find;
    var n := Find(token, '=');
    assert n > 0;
    assert n < |token|;
    var rest := token[n + 1..];
    assert Split(token, '=') == [token[..n]] + Split(rest, '=');
    if rest == [] {
      SplitNothing([], '=');
    } else {
      assert IsOctal(rest[0]);
      var m := Find(rest, '=');
      assert m > 0;
    }
  }

  lemma SomePiece(list: string)
    requires list != [] && IsOctal(list[0])
    ensures Split(list, ',') != []
  {
    var n := Find(list, ',');
    assert n > 0;
  }

  /** A value list that begins with a digit has a value. */
  lemma SomeValue(list: string)
    requires list != [] && IsOctal(list[0])
    ensures ParseValues(Split(list, ',')) != Some({})
  {
    hide Split, Stoi;
    SomePiece(list);
  }

  lemma {:induction false} NotNegative(s: string)
    requires forall i :: 0 <= i < |s| ==> s[i] != '-'
    ensures Stoi(s).Some? ==> 0 <= Stoi(s).value < 0x8000_0000
    decreases |s|
  {
    if s != [] && IsSpace(s[0]) {
      NotNegative(s[1..]);
    }
  }

  predicate HasKey(token: string, first: char, second: char) {
    |token| > 1 && token[0] == first && token[1] == second
  }

  lemma RegisterIsGood(token: string)
    requires Tame(token) && token != [] && !Opens(token) && ParseRegister(token).Found?
    ensures var bp := ParseRegister(token).bp;
            bp.Register? && GoodLeaves(bp) && (token[0] == 'R' || token[0] == 'p' || HasKey(token, 'm', 'm'))
  {
    hide Split, ParseValues, Find;
    TwoParts(token);
    var parts := Split(token, '=');
    SomeValue(parts[1]);
    var key := parts[0];
    assert key[0] == token[0];
    if key[0] == 'm' {
      assert |key| > 2 && key[1] == token[1] && key[2] == token[2];
    }
  }

  lemma MemoryIsGood(token: string)
    requires Tame(token) && token != [] && !Opens(token) && ParseMemory(token).Found?
    ensures var bp := ParseMemory(token).bp;
            bp.Memory? && GoodLeaves(bp) && (token[0] == 'M' || HasKey(token, 'm', 'e'))
  {
    hide Split, ParseValues, Find, Stoi;
    TwoParts(token);
    var parts := Split(token, '=');
    SomeValue(parts[1]);
    var key := parts[0];
    assert key[0] == token[0] && key[1] == token[1];
    assert forall i :: 0 <= i < |key| ==> key[i] == token[i];
    NotNegative(AddressText(key));
  }

  lemma InstructionIsGood(token: string)
    requires Tame(token) && token != [] && !Opens(token) && ParseInstruction(token).Found?
    ensures var bp := ParseInstruction(token).bp;
            bp.Instruction? && GoodLeaves(bp) && token[0] == 'i'
  {
    hide Split, ParseValues, Find, Stoi;
    TwoParts(token);
    var key := Split(token, '=')[0];
    assert key[0] == token[0];
  }

  /** A word of a printed text gives at most one leaf, and a good one. */
  lemma LeafIsGood(token: string)
    requires Tame(token) && token != [] && !Opens(token) && ParseLeaf(token).Leaves?
    ensures var found := ParseLeaf(token).found;
            |found| <= 1 && forall o :: o in found ==> !o.Group? && GoodLeaves(o)
  {
    hide ParseRegister, ParseMemory, ParseInstruction, Tame, GoodLeaves;
    var register, memory, instruction := ParseRegister(token), ParseMemory(token), ParseInstruction(token);
    if register.Found? {
      RegisterIsGood(token);
    }
    if memory.Found? {
      MemoryIsGood(token);
    }
    if instruction.Found? {
      InstructionIsGood(token);
    }
    assert !(register.Found? && memory.Found?) && !(register.Found? && instruction.Found?);
    assert !(memory.Found? && instruction.Found?);
  }

  // --- The inside of a range ---

  /** The tokens of a range without its first and last character. */
  function InnerTokens(sub: seq<string>): seq<string>
    requires sub != [] && sub[0] != [] && sub[|sub| - 1] != []
  {
    var n := |sub| - 1;
    if n == 0 then NotEmpty(Strip(sub[0]))
    else NotEmpty(sub[0][1..]) + sub[1..n] + NotEmpty(sub[n][..|sub[n]| - 1])
  }

  lemma SplitLead(s: string, c: char)
    ensures Split([c] + s, c) == Split(s, c)
  {
    assert ([c] + s)[1..] == s;
    assert Find([c] + s, c) == 0;
    assert [] + Split(s, c) == Split(s, c);
  }

  /** What stands before the last piece. */
  function Front(mid: seq<string>): string {
    if mid == [] then [] else Spaced(mid) + [' ']
  }

  lemma JoinFront(mid: seq<string>, last: string)
    ensures Spaced(mid + [last]) == Front(mid) + last
  {
    hide Join;
    JoinConcat(mid, [last], ' ');
    JoinOne(last);
    assert [] + last == last;
  }

  lemma LoneJoin(rest: seq<string>)
    requires rest != []
    ensures Spaced(["("] + rest) == "(" + " " + Spaced(rest)
  {
    hide Join;
    JoinConcat(["("], rest, ' ');
    JoinOne("(");
  }

  lemma LoneStripped(front: string, last: string, u: string)
    requires last != [] && u == last[..|last| - 1]
    ensures Strip("(" + " " + (front + last)) == [' '] + (front + u)
  {
    assert last == u + [last[|u|]];
    assert "(" + " " + (front + last) == "(" + ([' '] + (front + u)) + [last[|u|]];
  }

  lemma LoneParenthesis(mid: seq<string>, last: string)
    requires AreTokens(mid, ' ') && IsToken(last, ' ')
    ensures Split(Strip(Spaced(["("] + (mid + [last]))), ' ') == mid + NotEmpty(last[..|last| - 1])
  {
    hide Split, Join, AreTokens, Front, Strip;
    var u := last[..|last| - 1];
    LoneJoin(mid + [last]);
    JoinFront(mid, last);
    JoinFront(mid, u);
    LoneStripped(Front(mid), last, u);
    SplitLead(Spaced(mid + [u]), ' ');
    SplitJoinLast(mid, u, ' ');
  }

  lemma LoneIsInner(sub: seq<string>)
    requires |sub| >= 2 && AreTokens(sub, ' ') && sub[0] == "("
    ensures sub[|sub| - 1] != [] && Split(Strip(Spaced(sub)), ' ') == InnerTokens(sub)
  {
    hide Split, Strip, Join;
    var n := |sub| - 1;
    var mid := sub[1..n];
    forall k | 0 <= k < |mid| ensures IsToken(mid[k], ' ') {
      assert mid[k] == sub[k + 1];
    }
    assert IsToken(sub[n], ' ');
    LoneParenthesis(mid, sub[n]);
    assert sub == ["("] + (mid + [sub[n]]);
    assert InnerTokens(sub) == [] + mid + NotEmpty(sub[n][..|sub[n]| - 1]) == mid + NotEmpty(sub[n][..|sub[n]| - 1]);
  }

  lemma InnerIs(sub: seq<string>)
    requires sub != [] && AreTokens(sub, ' ') && Opens(sub[0])
    ensures sub[|sub| - 1] != [] && Split(Strip(Spaced(sub)), ' ') == InnerTokens(sub)
  {
    hide Split, Join, Trim;
    assert IsToken(sub[|sub| - 1], ' ') && IsToken(sub[0], ' ');
    if |sub| == 1 {
      assert sub == [sub[0]];
      JoinOne(sub[0]);
      SplitOne(Strip(sub[0]), ' ');
    } else if |sub[0]| >= 2 {
      TrimIsStrip(sub);
      TrimIsInner(sub);
    } else {
      LoneIsInner(sub);
    }
  }

  lemma TrimIsInner(sub: seq<string>)
    requires |sub| >= 2 && |sub[0]| >= 2 && sub[|sub| - 1] != []
    ensures Trim(sub) == InnerTokens(sub)
  {
    assert NotEmpty(sub[0][1..]) == [sub[0][1..]];
  }

  lemma OneSpread(s: string)
    requires Tame(s)
    ensures Spread(NotEmpty(s)) && CountJoiners(NotEmpty(s)) == 0
  {
    hide Tame;
    TameIsWord(s);
    CountWord(s);
  }

  lemma SpreadConcat(a: seq<string>, b: seq<string>)
    requires Spread(a) && Spread(b)
    requires a == [] || b == [] || IsJoiner(a[|a| - 1]) || IsJoiner(b[0])
    ensures Spread(a + b)
  {
    hide Tame, IsJoiner;
    var ts := a + b;
    forall k | 0 <= k < |ts| ensures IsJoiner(ts[k]) || Tame(ts[k]) {
      if k < |a| {
        assert ts[k] == a[k];
      } else {
        assert ts[k] == b[k - |a|];
      }
    }
    forall k | 0 <= k < |ts| - 1 ensures IsJoiner(ts[k]) || IsJoiner(ts[k + 1]) {
      if k + 1 < |a| {
        assert ts[k] == a[k] && ts[k + 1] == a[k + 1];
      } else if k < |a| {
        assert ts[k] == a[|a| - 1] && ts[k + 1] == b[0];
      } else {
        assert ts[k] == b[k - |a|] && ts[k + 1] == b[k + 1 - |a|];
      }
    }
  }

  /** A word before a joiner. */
  lemma SpreadWord(word: string, f: seq<string>)
    requires Tame(word) && Spread(f) && (f != [] ==> IsJoiner(f[0]))
    ensures Spread(NotEmpty(word) + f) && CountJoiners(NotEmpty(word) + f) == CountJoiners(f)
  {
    hide Tame, IsJoiner, Spread, CountJoiners;
    OneSpread(word);
    SpreadConcat(NotEmpty(word), f);
    CountConcat(NotEmpty(word), f);
  }

  /** A word after a joiner. */
  lemma SpreadWordEnd(f: seq<string>, word: string)
    requires Tame(word) && Spread(f) && (f != [] ==> IsJoiner(f[|f| - 1]))
    ensures Spread(f + NotEmpty(word)) && CountJoiners(f + NotEmpty(word)) == CountJoiners(f)
  {
    hide Tame, IsJoiner, Spread, CountJoiners;
    OneSpread(word);
    SpreadConcat(f, NotEmpty(word));
    CountConcat(f, NotEmpty(word));
  }

  lemma NotNeighbours(sub: seq<string>)
    requires |sub| >= 2 && Spread(sub) && !IsJoiner(sub[0]) && !IsJoiner(sub[|sub| - 1])
    ensures |sub| > 2 && IsJoiner(sub[1])
  {
    hide Tame, IsJoiner;
    assert IsJoiner(sub[0]) || IsJoiner(sub[1]);
  }

  /** Between two words of a spread list stand joiners at both ends. */
  lemma MidSpread(sub: seq<string>)
    requires |sub| >= 2 && Spread(sub) && !IsJoiner(sub[0]) && !IsJoiner(sub[|sub| - 1])
    ensures var mid := sub[1..|sub| - 1];
            mid != [] && Spread(mid) && IsJoiner(mid[0]) && IsJoiner(mid[|mid| - 1])
            && CountJoiners(mid) == CountJoiners(sub)
  {
    hide Tame, IsJoiner;
    NotNeighbours(sub);
    var n := |sub| - 1;
    var mid := sub[1..n];
    assert IsJoiner(sub[n]) || IsJoiner(sub[n - 1]);
    SpreadSlice(sub, 1, n);
    CountThree(sub[0], mid, sub[n]);
    assert sub == [sub[0]] + mid + [sub[n]];
  }

  lemma AroundSpread(a: string, mid: seq<string>, b: string)
    requires Tame(a) && Tame(b) && mid != [] && Spread(mid) && IsJoiner(mid[0]) && IsJoiner(mid[|mid| - 1])
    ensures var ts := NotEmpty(a) + mid + NotEmpty(b); Spread(ts) && CountJoiners(ts) == CountJoiners(mid)
  {
    hide Tame, CountJoiners, IsJoiner, Spread, NotEmpty;
    SpreadWord(a, mid);
    var front := NotEmpty(a) + mid;
    assert front[|front| - 1] == mid[|mid| - 1];
    SpreadWordEnd(front, b);
  }

  /** Trimming leaves words words and adds no joiner. */
  lemma InnerSpread(sub: seq<string>)
    requires sub != [] && Spread(sub) && Opens(sub[0]) && sub[|sub| - 1] != [] && !IsJoiner(sub[|sub| - 1])
    ensures Spread(InnerTokens(sub)) && CountJoiners(InnerTokens(sub)) == CountJoiners(sub)
  {
    hide Tame, CountJoiners, IsJoiner, Spread, Strip, NotEmpty;
    EndsAreTame(sub);
    TameIsWord(sub[0]);
    if |sub| == 1 {
      OneInner(sub[0]);
      assert sub == [sub[0]];
    } else {
      TameFirst(sub[0]);
      TameLast(sub[|sub| - 1]);
      MidSpread(sub);
      AroundSpread(sub[0][1..], sub[1..|sub| - 1], sub[|sub| - 1][..|sub[|sub| - 1]| - 1]);
    }
  }

  lemma OneInner(s: string)
    requires Tame(s) && Opens(s)
    ensures Spread(NotEmpty(Strip(s))) && CountJoiners(NotEmpty(Strip(s))) == CountJoiners([s])
  {
    hide Tame, Strip, Spread, IsJoiner;
    TameIsWord(s);
    CountWord(s);
    StripIsTame(s);
    OneSpread(Strip(s));
  }

  lemma EndsAreTame(sub: seq<string>)
    requires sub != [] && Spread(sub) && Opens(sub[0]) && !IsJoiner(sub[|sub| - 1])
    ensures Tame(sub[0]) && Tame(sub[|sub| - 1])
  {
    hide Tame;
    FirstIsWord(sub[0]);
  }

  lemma StripIsTame(s: string)
    requires Tame(s) && Opens(s)
    ensures Tame(Strip(s))
  {
    hide Tame;
    TameNothing();
    TameFirst(s);
    if |s| >= 2 {
      TameLast(s[1..]);
      assert Strip(s) == s[1..][..|s| - 2];
    }
  }

  lemma TameNothing()
    ensures Tame("")
  {
  }

  lemma FirstIsWord(s: string)
    requires Opens(s)
    ensures !IsJoiner(s)
  {
  }

  lemma CountThree(a: string, mid: seq<string>, b: string)
    requires !IsJoiner(a) && !IsJoiner(b)
    ensures CountJoiners([a] + mid + [b]) == CountJoiners(mid)
  {
    hide IsJoiner;
    CountConcat([a] + mid, [b]);
    CountConcat([a], mid);
    CountWord(a);
    CountWord(b);
  }

  // --- What the parser yields ---

  /** A range ends at a word. */
  lemma {:induction false} EndIsWord(parts: seq<string>, j: nat, depth: int, end: nat)
    requires j <= |parts| && depth != 0 && ScanEnd(parts, j, depth) == Some(end)
    ensures !IsJoiner(parts[end])
    decreases |parts| - j
  {
    var d := depth + Weight(parts[j]);
    if d != 0 {
      EndIsWord(parts, j + 1, d, end);
    } else if IsJoiner(parts[j]) {
      NoCloses(parts[j]);
    }
  }

  lemma RangeEnds(parts: seq<string>, i: nat, end: nat)
    requires i < |parts| && Opens(parts[i]) && ScanEnd(parts, i, 0) == Some(end)
    ensures !IsJoiner(parts[end])
  {
    var d := Weight(parts[i]);
    if d != 0 {
      EndIsWord(parts, i + 1, d, end);
    }
  }

  /** A range and what the recursion sees of it. */
  lemma RangeInside(parts: seq<string>, i: nat, end: nat) returns (ts: seq<string>)
    requires AreTokens(parts, ' ') && Spread(parts) && i < |parts| && Opens(parts[i])
    requires ScanEnd(parts, i, 0) == Some(end)
    ensures AreTokens(ts, ' ') && Spread(ts) && |Spaced(ts)| < |Spaced(parts)| && !IsJoiner(parts[end])
    ensures Parse(Strip(Spaced(parts[i..end + 1]))) == ParseFrom(ts, 0, [], NotSet)
    ensures CountJoiners(parts[i..]) == CountJoiners(ts) + CountJoiners(parts[end + 1..])
  {
    hide Split, ParseFrom, Opens, Tame, IsJoiner, CountJoiners, InnerTokens, Weight, Strip, Join;
    var sub := parts[i..end + 1];
    forall k | 0 <= k < |sub| ensures IsToken(sub[k], ' ') {
      assert sub[k] == parts[i + k];
    }
    assert sub[0] == parts[i] && sub[|sub| - 1] == parts[end];
    RangeEnds(parts, i, end);
    InnerIs(sub);
    SpreadSlice(parts, i, end + 1);
    InnerSpread(sub);
    ShorterInside(parts, i, end + 1);
    ts := InnerTokens(sub);
    SplitTokens(Strip(Spaced(sub)), ' ');
    CountConcat(sub, parts[end + 1..]);
    assert sub + parts[end + 1..] == parts[i..];
  }

  /** The state of the loop over the tokens of one level: no more operands than joiners seen,
      but for one that was just read. */
  predicate Paced(parts: seq<string>, i: nat, parsed: seq<Breakpoint>, combine: Combine, seen: nat) {
    && i <= |parts|
    && (forall o :: o in parsed ==> GoodLeaves(o))
    && (combine.All? || combine.Any? ==> seen >= 1)
    && |parsed| <= seen + if i == 0 || IsJoiner(parts[i - 1]) then 0 else 1
  }

  /** Whatever is parsed from such tokens has good leaves, and needed no more joiners than
      there were. */
  lemma {:induction false} ParsedIsPaid(parts: seq<string>, i: nat, parsed: seq<Breakpoint>, combine: Combine,
                                        seen: nat)
    requires AreTokens(parts, ' ') && Spread(parts) && Paced(parts, i, parsed, combine, seen)
    ensures match ParseFrom(parts, i, parsed, combine)
            case Parsed(u) => GoodLeaves(u) && Cost(u) <= CostAll(parsed) + CountJoiners(parts[i..]) + seen
            case _ => true
    decreases |Spaced(parts)|, |parts| - i
  {
    hide Tame, Opens, ParseLeaf, Parse, Spaced, Strip, ScanEnd, GoodLeaves, Cost, CostAll, CountJoiners, AreTokens;
    if i == |parts| {
      FinishIsPaid(parts, parsed, combine, seen);
    } else {
      assert IsJoiner(parts[i]) || Tame(parts[i]);
      if Opens(parts[i]) {
        FirstIsWord(parts[i]);
        if ScanEnd(parts, i, 0).Some? {
          var end := ScanEnd(parts, i, 0).value;
          var ts := RangeInside(parts, i, end);
          ParsedIsPaid(ts, 0, [], NotSet, 0);
          var inner := Parse(Strip(Spaced(parts[i..end + 1])));
          if inner.Parsed? {
            assert ts[0..] == ts;
            NothingCosts();
            CostSnoc(parsed, inner.bp);
            ParsedIsPaid(parts, end + 1, parsed + [inner.bp], combine, seen);
          }
        }
      } else {
        CountOne(parts, i);
        if IsJoiner(parts[i]) {
          ParsedIsPaid(parts, i + 1, parsed, if parts[i] == "and" then All else Any, seen + 1);
        } else if !combine.Single? && ParseLeaf(parts[i]).Leaves? {
          var found := ParseLeaf(parts[i]).found;
          IsNotNothing(parts, i);
          LeafIsGood(parts[i]);
          LeavesAreFree(parsed, found);
          ParsedIsPaid(parts, i + 1, parsed + found, if combine.NotSet? then Single else combine, seen);
        }
      }
    }
  }

  lemma IsNotNothing(parts: seq<string>, i: nat)
    requires AreTokens(parts, ' ') && i < |parts|
    ensures parts[i] != []
  {
    assert IsToken(parts[i], ' ');
  }

  lemma NothingCosts()
    ensures CostAll([]) == 0 && CountJoiners([]) == 0
  {
  }

  lemma CountOne(parts: seq<string>, i: nat)
    requires i < |parts|
    ensures CountJoiners(parts[i..]) == Bit(IsJoiner(parts[i])) + CountJoiners(parts[i + 1..])
  {
    assert parts[i..][1..] == parts[i + 1..];
  }

  lemma LeavesAreFree(parsed: seq<Breakpoint>, found: seq<Breakpoint>)
    requires |found| <= 1 && forall o :: o in found ==> !o.Group?
    ensures CostAll(parsed + found) == CostAll(parsed)
  {
    if found == [] {
      assert parsed + found == parsed;
    } else {
      assert found == [found[0]];
      CostSnoc(parsed, found[0]);
    }
  }

  lemma FinishIsPaid(parts: seq<string>, parsed: seq<Breakpoint>, combine: Combine, seen: nat)
    requires Paced(parts, |parts|, parsed, combine, seen)
    ensures match Finish(parsed, combine)
            case Parsed(u) => GoodLeaves(u) && Cost(u) <= CostAll(parsed) + CountJoiners(parts[|parts|..]) + seen
            case _ => true
  {
    if |parsed| == 1 {
      assert parsed[1..] == [];
    }
  }

  // --- What is printed ---

  /** A word as printed, and one character short of nothing. */
  predicate Whole(s: string) {
    var b := Body(s);
    && Tame(s) && (forall i :: 0 <= i < |s| ==> s[i] != ' ')
    && (b != [] ==> b[|b| - 1] != '=')
    && (b != [] && b[0] == 'm' ==> |b| > 3)
    && (b != [] && b[0] == 'M' ==> |b| > 1)
  }

  predicate WovenRest(ts: seq<string>)
    decreases |ts|
  {
    ts == [] || (|ts| >= 2 && IsJoiner(ts[0]) && Whole(ts[1]) && WovenRest(ts[2..]))
  }

  /** Words, perhaps empty ones, with one joiner between any two. */
  predicate Woven(ts: seq<string>) {
    ts != [] && Whole(ts[0]) && WovenRest(ts[1..])
  }

  lemma {:induction false} RestConcat(a: seq<string>, b: seq<string>)
    requires WovenRest(a) && WovenRest(b)
    ensures WovenRest(a + b)
    decreases |a|
  {
    if a == [] {
      assert a + b == b;
    } else {
      assert (a + b)[2..] == a[2..] + b;
      RestConcat(a[2..], b);
    }
  }

  lemma WovenConcat(a: seq<string>, b: seq<string>)
    requires Woven(a) && WovenRest(b)
    ensures Woven(a + b)
  {
    hide WovenRest, Whole;
    assert (a + b)[1..] == a[1..] + b;
    RestConcat(a[1..], b);
  }

  lemma JoinedWoven(joiner: string, a: seq<string>)
    requires IsJoiner(joiner) && Woven(a)
    ensures WovenRest([joiner] + a)
  {
    assert ([joiner] + a)[2..] == a[1..];
  }

  lemma WholeFirst(s: string)
    requires Whole(s)
    ensures Whole("(" + s)
  {
    assert ("(" + s)[1..] == s;
  }

  lemma {:induction false} BodyMore(s: string)
    ensures Body(s + ")") == Body(s) + ")"
    decreases |s|
  {
    if Opens(s) {
      assert (s + ")")[1..] == s[1..] + ")";
      BodyMore(s[1..]);
    }
  }

  lemma WholeLast(s: string)
    requires Whole(s)
    ensures Whole(s + ")")
  {
    hide Body;
    BodyMore(s);
    var b := Body(s);
    forall i | 0 <= i < |b| && (b + ")")[i] == '=' ensures IsOctal((b + ")")[i + 1]) {
      assert i < |b| - 1;
    }
  }

  lemma {:induction false} RestAddLast(ts: seq<string>)
    requires WovenRest(ts) && ts != []
    ensures WovenRest(AddLast(ts))
    decreases |ts|
  {
    hide Whole;
    if |ts| == 2 {
      WholeLast(ts[1]);
    } else {
      assert AddLast(ts)[2..] == AddLast(ts[2..]);
      RestAddLast(ts[2..]);
    }
  }

  lemma EncloseWoven(ts: seq<string>)
    requires Woven(ts)
    ensures Woven(Enclose(ts))
  {
    hide Whole, WovenRest;
    WholeFirst(ts[0]);
    if |ts| == 1 {
      WholeLast("(" + ts[0]);
    } else {
      assert Enclose(ts)[1..] == AddLast(ts[1..]);
      RestAddLast(ts[1..]);
    }
  }

  lemma KeyIsWhole(key: string, list: string)
    requires key != [] && !Opens(key) && key[0] in "RMmpi?" && IsList(list)
    requires forall i :: 0 <= i < |key| ==> key[i] != '-' && key[i] != '=' && key[i] != ' '
    requires key[0] == 'M' ==> |key| > 1 && key[1] == 'E'
    requires key[0] == 'm' ==> |key| > 3 && '0' <= key[3] <= '3'
    ensures Whole(key + "=" + list)
  {
    var s := key + "=" + list;
    assert Body(s) == s;
    forall i | 0 <= i < |s| ensures s[i] != '-' && s[i] != ' ' && (s[i] == '=' ==> i + 1 < |s| && IsOctal(s[i + 1])) {
      if i > |key| {
        assert s[i] == list[i - |key| - 1];
      }
    }
    assert s[|s| - 1] == list[|list| - 1];
  }

  lemma NothingIsWhole()
    ensures Whole("") && Whole(")")
  {
    assert Body(")") == ")";
  }

  lemma ListIsList(values: set<Word>)
    requires values != {}
    ensures Sorted(values) != [] && IsList(Join(Octals(Sorted(values)), ','))
  {
    hide Octals, Join, ParseValues, Split, Stoi;
    ListBack(values);
  }

  lemma LeafIsWhole(t: Breakpoint)
    requires !t.Group?
    ensures Whole(Emit(t))
  {
    hide Whole, Octal, Octals, Join, Sorted, IsList;
    NothingIsWhole();
    match t
    case Register(nr, values) =>
      if Sorted(values) != [] {
        NotNothing(values);
        ListIsList(values);
        NameIsKey(nr);
        KeyIsWhole(Name(nr), Join(Octals(Sorted(values)), ','));
      }
    case Memory(addr, byteMode, isVirtual, values) =>
      if Sorted(values) != [] {
        NotNothing(values);
        ListIsList(values);
        AddressIsKey(addr, byteMode, isVirtual);
        KeyIsWhole(MemoryKey(addr, byteMode, isVirtual), Join(Octals(Sorted(values)), ','));
      }
    case Instruction(instruction, mask) =>
      OctalIsToken(instruction, 6);
      MaskIsKey(mask);
      var key := "instr[" + Octal(mask, 6) + "]";
      KeyIsWhole(key, Octal(instruction, 6));
      assert key + "=" + Octal(instruction, 6) == Emit(t);
  }

  lemma NotNothing(values: set<Word>)
    requires Sorted(values) != []
    ensures values != {}
  {
  }

  predicate KeyChars(key: string) {
    forall i :: 0 <= i < |key| ==> key[i] != '-' && key[i] != '=' && key[i] != ' '
  }

  lemma NameIsKey(nr: nat)
    ensures var key := Name(nr);
            && key != [] && !Opens(key) && key[0] in "RMmpi?" && KeyChars(key) && key[0] != 'M'
            && (key[0] == 'm' ==> |key| > 3 && '0' <= key[3] <= '3')
  {
    if MMR <= nr < MMR + 4 {
      assert Name(nr) == ['m', 'm', 'r', Digit(nr - MMR)];
    } else if nr == PSW {
      assert Name(nr) == ['p', 's', 'w'];
    } else if nr >= 8 {
      assert Name(nr) == ['?', '?', '?'];
    }
  }

  lemma AddressIsKey(addr: nat, byteMode: bool, isVirtual: bool)
    ensures var key := MemoryKey(addr, byteMode, isVirtual);
            |key| > 1 && !Opens(key) && key[0] == 'M' && key[1] == 'E' && KeyChars(key)
  {
    hide MemoryKey, Octal;
    var key, digits := MemoryKey(addr, byteMode, isVirtual), Octal(addr, 8);
    MemoryKeyIs(addr, byteMode, isVirtual);
    OctalIsOctal(addr, 8);
    assert key[0] == key[..3][0] && key[1] == key[..3][1];
    forall i | 0 <= i < |key| ensures key[i] != '-' && key[i] != '=' && key[i] != ' ' {
      if i < 3 {
        assert key[i] == key[..3][i];
      } else if 6 <= i < |key| - 1 {
        assert key[i] == digits[i - 6];
      }
    }
  }

  lemma MaskIsKey(mask: Word)
    ensures var key := "instr[" + Octal(mask, 6) + "]";
            key != [] && !Opens(key) && key[0] == 'i' && KeyChars(key)
  {
    hide Octal;
    OctalIsOctal(mask, 6);
    var key, digits := "instr[" + Octal(mask, 6) + "]", Octal(mask, 6);
    forall i | 0 <= i < |key| ensures key[i] != '-' && key[i] != '=' && key[i] != ' ' {
      if 6 <= i < |key| - 1 {
        assert key[i] == digits[i - 6];
      }
    }
  }

  lemma {:induction false} RestWoven(op: Op, operands: seq<Breakpoint>)
    requires forall o :: o in operands ==> Woven(Tokens(o)) && |Tokens(o)| == 2 * Joiners(o) + 1
    ensures WovenRest(Rest(op, operands))
    ensures |Rest(op, operands)| == 2 * (JoinersAll(operands) + |operands|)
    decreases operands
  {
    hide Woven, WovenRest, Tokens, Joiners;
    if operands == [] {
      NothingWoven();
    } else {
      JoinedWoven(Joiner(op), Tokens(operands[0]));
      RestWoven(op, operands[1..]);
      RestConcat([Joiner(op)] + Tokens(operands[0]), Rest(op, operands[1..]));
    }
  }

  lemma NothingWoven()
    ensures WovenRest([])
  {
  }

  lemma OneWoven(s: string)
    requires Whole(s)
    ensures Woven([s])
  {
    assert [s][1..] == [];
  }

  /** The printed words and joiners of every breakpoint alternate. */
  lemma {:induction false} TokensWoven(t: Breakpoint)
    ensures Woven(Tokens(t)) && |Tokens(t)| == 2 * Joiners(t) + 1
    decreases t
  {
    hide Woven, Whole, Emit, Rest, Enclose;
    if t.Group? {
      forall o | o in t.operands ensures Woven(Tokens(o)) && |Tokens(o)| == 2 * Joiners(o) + 1 {
        TokensWoven(o);
      }
      if t.operands == [] {
        NothingIsWhole();
        OneWoven(")");
      } else {
        RestWoven(t.op, t.operands[1..]);
        WovenConcat(Tokens(t.operands[0]), Rest(t.op, t.operands[1..]));
        EncloseWoven(Inner(t.op, t.operands));
      }
    } else {
      LeafIsWhole(t);
      OneWoven(Emit(t));
    }
  }

  // --- Splitting what is printed ---

  function NonEmpty(ts: seq<string>): seq<string> {
    if ts == [] then [] else NotEmpty(ts[0]) + NonEmpty(ts[1..])
  }

  /** Splitting undoes joining but for empty pieces. */
  lemma {:induction false} SplitLoose(ts: seq<string>, c: char)
    requires forall k :: 0 <= k < |ts| ==> c !in ts[k]
    ensures Split(Join(ts, c), c) == NonEmpty(ts)
    decreases |ts|
  {
    hide Split;
    if ts == [] {
      SplitOne([], c);
    } else if |ts| == 1 {
      SplitOne(ts[0], c);
      assert NonEmpty(ts[1..]) == [] && NotEmpty(ts[0]) + [] == NotEmpty(ts[0]);
    } else {
      SplitLoose(ts[1..], c);
      var rest := Join(ts[1..], c);
      if ts[0] == [] {
        assert [] + [c] + rest == [c] + rest;
        SplitLead(rest, c);
        assert [] + NonEmpty(ts[1..]) == NonEmpty(ts[1..]);
      } else {
        SplitCons(ts[0], rest, c);
      }
    }
  }

  lemma {:induction false} RestNoSpace(ts: seq<string>)
    requires WovenRest(ts)
    ensures forall k :: 0 <= k < |ts| ==> ' ' !in ts[k]
    decreases |ts|
  {
    if ts != [] {
      RestNoSpace(ts[2..]);
      forall k | 0 <= k < |ts| ensures ' ' !in ts[k] {
        if k >= 2 {
          assert ts[k] == ts[2..][k - 2];
        }
      }
    }
  }

  lemma SpreadCons(word: string, joiner: string, f: seq<string>)
    requires Tame(word) && IsJoiner(joiner) && Spread(f) && (f != [] ==> IsJoiner(f[0]))
    ensures Spread([joiner] + (NotEmpty(word) + f))
    ensures CountJoiners([joiner] + (NotEmpty(word) + f)) == 1 + CountJoiners(f)
  {
    hide Tame;
    SpreadWord(word, f);
    SpreadConcat([joiner], NotEmpty(word) + f);
    CountConcat([joiner], NotEmpty(word) + f);
    assert [joiner][1..] == [];
  }

  /** Without the empty words, still spread, with every joiner. */
  lemma {:induction false} RestSpread(ts: seq<string>)
    requires WovenRest(ts)
    ensures var f := NonEmpty(ts); Spread(f) && 2 * CountJoiners(f) == |ts| && (f != [] ==> IsJoiner(f[0]))
    decreases |ts|
  {
    hide Spread, Tame;
    if ts == [] {
      NothingSpread();
    } else {
      RestSpread(ts[2..]);
      SpreadCons(ts[1], ts[0], NonEmpty(ts[2..]));
      assert ts[1..][1..] == ts[2..];
      assert NonEmpty(ts) == [ts[0]] + (NotEmpty(ts[1]) + NonEmpty(ts[2..]));
    }
  }

  lemma NothingSpread()
    ensures Spread([])
  {
  }

  lemma PrintedTokens(t: Breakpoint)
    ensures var parts := Split(Emit(t), ' ');
            AreTokens(parts, ' ') && Spread(parts) && CountJoiners(parts) == Joiners(t)
  {
    hide Split, Emit, Tokens, Joiners, Spread, CountJoiners, Join, WovenRest, Tame;
    var ts := Tokens(t);
    EmitIsTokens(t);
    TokensWoven(t);
    RestNoSpace(ts[1..]);
    forall k | 0 <= k < |ts| ensures ' ' !in ts[k] {
      assert k > 0 ==> ts[k] == ts[1..][k - 1];
    }
    SplitLoose(ts, ' ');
    SplitTokens(Emit(t), ' ');
    RestSpread(ts[1..]);
    SpreadWord(ts[0], NonEmpty(ts[1..]));
  }

  /** Whatever is printed, what comes back has good leaves and wide enough groups: so nothing
      comes back as it was unless every group of it has two operands and every leaf values and
      names and numbers that can be read. */
  lemma OnlyPrintableComesBack(t: Breakpoint)
    requires Parse(Emit(t)) == Parsed(t)
    ensures Printable(t) && KnownRegisters(t)
  {
    hide Split, ParseFrom, Spread, GoodLeaves, Cost, CostAll, CountJoiners, Emit, AreTokens;
    var parts := Split(Emit(t), ' ');
    PrintedTokens(t);
    NothingCosts();
    ParsedIsPaid(parts, 0, [], NotSet, 0);
    assert parts[0..] == parts;
    CostWide(t);
    GoodAndWide(t);
  }

  /** A breakpoint is read back as it was printed exactly when its value sets are not empty,
      its addresses fit an `int`, its registers have names, its groups have two or more
      operands, and every group begins with a leaf. */
  lemma ReadBackExactly(t: Breakpoint)
    ensures Parse(Emit(t)) == Parsed(t) <==> Printable(t) && KnownRegisters(t) && LeafFirst(t)
  {
    hide Parse, Emit;
    if Printable(t) {
      RoundTripExactly(t);
    }
    if Parse(Emit(t)) == Parsed(t) {
      OnlyPrintableComesBack(t);
    }
  }
}
