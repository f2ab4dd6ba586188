/** Breakpoint expressions (breakpoint_*.cpp): printing them, and the parser for what users
    type. The action of a breakpoint is not part of its text and is left out. */
module Breakpoints {
  import opened Words
  import opened WordSets
  import opened Text

  datatype Op = And | Or

  datatype Breakpoint =
    | Register(nr: nat, values: set<Word>)
    | Memory(addr: nat, byteMode: bool, isVirtual: bool, values: set<Word>)
    | Instruction(instruction: Word, mask: Word)
    | Group(op: Op, operands: seq<Breakpoint>)

  const MMR := 100
  const PSW := 200

  // --- Printing ---

  function Name(nr: nat): string {
    if nr < 8 then ['R', Digit(nr)]
    else if MMR <= nr < MMR + 4 then "mmr" + [Digit(nr - MMR)]
    else if nr == PSW then "psw"
    else "???"
  }

  function Octals(values: seq<Word>): seq<string> {
    seq(|values|, i requires 0 <= i < |values| => Octal(values[i], 6))
  }

  /** A key and its values; nothing at all when there are no values. */
  function EmitValues(key: string, values: seq<Word>): string {
    if values == [] then [] else key + "=" + Join(Octals(values), ',')
  }

  function MemoryKey(addr: nat, byteMode: bool, isVirtual: bool): string {
    "MEM" + [if byteMode then 'B' else 'W', if isVirtual then 'V' else 'P', '['] + Octal(addr, 8) + "]"
  }

  function Joiner(op: Op): string {
    if op.And? then "and" else "or"
  }

  function Emit(t: Breakpoint): string
    decreases t
  {
    match t
    case Register(nr, values) => EmitValues(Name(nr), Sorted(values))
    case Memory(addr, byteMode, isVirtual, values) => EmitValues(MemoryKey(addr, byteMode, isVirtual), Sorted(values))
    case Instruction(instruction, mask) => "instr[" + Octal(mask, 6) + "]=" + Octal(instruction, 6)
    case Group(op, operands) => if operands == [] then ")" else "(" + EmitAll(op, operands) + ")"
  }

  function EmitAll(op: Op, operands: seq<Breakpoint>): string
    requires operands != []
    decreases operands
  {
    if |operands| == 1 then Emit(operands[0])
    else Emit(operands[0]) + " " + Joiner(op) + " " + EmitAll(op, operands[1..])
  }

  // --- Leaves ---

  datatype Leaf = Found(bp: Breakpoint) | NotMine | Wrong | Thrown

  function ToUpper(c: char): char {
    if 'a' <= c <= 'z' then (c as int - 32) as char else c
  }

  /** The values of a comma list, each cut to 16 bits; None when one is not a number. */
  function ParseValues(pieces: seq<string>): Option<set<Word>> {
    if pieces == [] then Some({})
    else
      match (ParseValues(pieces[..|pieces| - 1]), Stoi(pieces[|pieces| - 1]))
      case (Some(values), Some(v)) => Some(values + {Wrap(v)})
      case _ => None
  }

  function RegisterFor(key: string, values: set<Word>): Leaf {
    if |key| < 2 then Wrong
    else if ToUpper(key[0]) == 'R' then
      if '0' <= key[1] <= '7' then Found(Register(key[1] as int - '0' as int, values)) else Wrong
    else if key == "SP" || key == "sp" then Found(Register(6, values))
    else if key == "PC" || key == "pc" then Found(Register(7, values))
    else if "MMR" <= key || "mmr" <= key then
      Found(Register(MMR + (if |key| > 3 then key[3] as int else 0) - '0' as int, values))
    else if "PSW" <= key || "psw" <= key then Found(Register(PSW, values))
    else NotMine
  }

  function ParseRegister(token: string): Leaf {
    var parts := Split(token, '=');
    if |parts| != 2 then Wrong
    else match ParseValues(Split(parts[1], ','))
      case None => Thrown
      case Some(values) => RegisterFor(parts[0], values)
  }

  /** The text between the sixth character and the first bracket after it. */
  function AddressText(key: string): string
    requires |key| >= 8
  {
    var end := Find(key, ']');
    if end < 6 then key[6..] else key[6..end]
  }

  function MemoryFor(key: string, values: set<Word>): Leaf {
    if |key| < 8 || !("MEM" <= key || "mem" <= key) then NotMine
    else match Stoi(AddressText(key))
      case None => Thrown
      case Some(a) => Found(Memory(a % 0x1_0000_0000, ToUpper(key[3]) == 'B', ToUpper(key[4]) == 'V', values))
  }

  function ParseMemory(token: string): Leaf {
    var parts := Split(token, '=');
    if |parts| != 2 then Wrong
    else match ParseValues(Split(parts[1], ','))
      case None => Thrown
      case Some(values) => MemoryFor(parts[0], values)
  }

  function InstructionFor(key: string, instruction: int): Leaf {
    if |key| < 7 || !("INSTR" <= key || "instr" <= key) then NotMine
    else if |key| == 7 then Found(Instruction(Wrap(instruction), 0xFFFF))
    else match Stoi(key[6..|key| - 1])
      case None => Thrown
      case Some(mask) => Found(Instruction(Wrap(instruction), Wrap(mask)))
  }

  function ParseInstruction(token: string): Leaf {
    var parts := Split(token, '=');
    if |parts| != 2 then Wrong
    else match Stoi(parts[1])
      case None => Thrown
      case Some(instruction) => InstructionFor(parts[0], instruction)
  }

  // --- The parser ---

  datatype Reason = Unbalanced | Mixed | Missing | NotUnderstood | WrongCount | Exception

  datatype Outcome = Parsed(bp: Breakpoint) | Failed(reason: Reason)

  datatype Leaves = Leaves(found: seq<Breakpoint>) | NoLeaves(reason: Reason)

  /** One of the three leaf parsers after the others. */
  function AndAlso(so: Leaves, leaf: Leaf): Leaves {
    if so.NoLeaves? then so
    else match leaf
      case Found(bp) => Leaves(so.found + [bp])
      case NotMine => so
      case Wrong => NoLeaves(NotUnderstood)
      case Thrown => NoLeaves(Exception)
  }

  /** Each token is offered to all three. */
  function ParseLeaf(token: string): Leaves {
    AndAlso(AndAlso(AndAlso(Leaves([]), ParseRegister(token)), ParseMemory(token)), ParseInstruction(token))
  }

  datatype Combine = NotSet | Single | All | Any

  function Closes(token: string): nat {
    if token == [] then 0 else Closes(token[..|token| - 1]) + Bit(token[|token| - 1] == ')')
  }

  predicate Opens(token: string) {
    token != [] && token[0] == '('
  }

  /** What a token does to the depth: one leading parenthesis counts, and all closing ones. */
  function Weight(token: string): int {
    Bit(Opens(token)) - Closes(token)
  }

  /** The token at which the depth comes back to zero. */
  function ScanEnd(parts: seq<string>, j: nat, depth: int): (end: Option<nat>)
    requires j <= |parts|
    ensures end.Some? ==> j <= end.value < |parts|
    decreases |parts| - j
  {
    if j == |parts| then None
    else
      var d := depth + Weight(parts[j]);
      if d == 0 then Some(j) else ScanEnd(parts, j + 1, d)
  }

  /** Without the first and the last character. */
  function Strip(s: string): string {
    if |s| < 2 then [] else s[1..|s| - 1]
  }

  function Finish(parsed: seq<Breakpoint>, combine: Combine): Outcome {
    match combine
    case All => Parsed(Group(And, parsed))
    case Any => Parsed(Group(Or, parsed))
    case _ => if |parsed| == 1 then Parsed(parsed[0]) else Failed(WrongCount)
  }

  function Mode(op: Op): Combine {
    if op.And? then All else Any
  }

  function Spaced(parts: seq<string>): string {
    Join(parts, ' ')
  }

  lemma SpacedNotEmpty(parts: seq<string>)
    requires AreTokens(parts, ' ') && parts != []
    ensures |Spaced(parts)| > 0
  {
    assert IsToken(parts[0], ' ');
  }

  /** Part of a text is not longer than the text. */
  lemma ShorterInside(parts: seq<string>, i: nat, j: nat)
    requires AreTokens(parts, ' ') && i < j <= |parts|
    ensures 0 < |Spaced(parts[i..j])| <= |Spaced(parts)| && |Strip(Spaced(parts[i..j]))| < |Spaced(parts)|
  {
    hide Join, IsToken;
    JoinConcat(parts[..i], parts[i..], ' ');
    JoinConcat(parts[i..j], parts[j..], ' ');
    assert parts[..i] + parts[i..] == parts && parts[i..j] + parts[j..] == parts[i..];
    SpacedNotEmpty(parts[i..j]);
  }

  function Parse(s: string): Outcome
    decreases |s|, |s| + 1
  {
    SplitTokens(s, ' ');
    ParseFrom(Split(s, ' '), 0, [], NotSet)
  }

  function ParseFrom(parts: seq<string>, i: nat, parsed: seq<Breakpoint>, combine: Combine): Outcome
    requires AreTokens(parts, ' ') && i <= |parts|
    decreases |Spaced(parts)|, |parts| - i
  {
    if i == |parts| then Finish(parsed, combine)
    else if Opens(parts[i]) then
      match ScanEnd(parts, i, 0)
      case None => Failed(Unbalanced)
      case Some(end) =>
        ShorterInside(parts, i, end + 1);
        var inner := Parse(Strip(Spaced(parts[i..end + 1])));
        if inner.Failed? then inner else ParseFrom(parts, end + 1, parsed + [inner.bp], combine)
    else if parts[i] == "and" || parts[i] == "or" then
      var wanted := if parts[i] == "and" then All else Any;
      if combine != wanted && (combine.All? || combine.Any?) then Failed(Mixed)
      else ParseFrom(parts, i + 1, parsed, wanted)
    else if combine.Single? then Failed(Missing)
    else match ParseLeaf(parts[i])
      case NoLeaves(reason) => Failed(reason)
      case Leaves(found) => ParseFrom(parts, i + 1, parsed + found, if combine.NotSet? then Single else combine)
  }
}
