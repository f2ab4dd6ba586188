/** Text as the debugger handles it: splitting (utils.cpp), octal numbers written by `%0*o`
    and read by `std::stoi` in base 8. */
module Text {
  import opened Words

  // --- Splitting and joining ---

  /** Position of the first `c`, or the length. */
  function Find(s: string, c: char): (n: nat)
    ensures n <= |s| && c !in s[..n] && (n < |s| ==> s[n] == c)
  {
    if s == [] || s[0] == c then 0
    else
      var n := Find(s[1..], c);
      assert s[..n + 1] == [s[0]] + s[1..][..n];
      n + 1
  }

  function NotEmpty(s: string): seq<string> {
    if s == [] then [] else [s]
  }

  /** The non-empty pieces between separators. */
  function Split(s: string, c: char): seq<string>
    decreases |s|
  {
    var n := Find(s, c);
    if n == |s| then NotEmpty(s) else NotEmpty(s[..n]) + Split(s[n + 1..], c)
  }

  /** One round of the splitting loop. */
  lemma SplitStep(before: seq<string>, rest: string, c: char)
    requires Find(rest, c) < |rest|
    ensures var n := Find(rest, c);
            before + Split(rest, c) == (if n > 0 then before + [rest[..n]] else before) + Split(rest[n + 1..], c)
  {
    hide Find;
    var n := Find(rest, c);
    Regroup(before, NotEmpty(rest[..n]), Split(rest[n + 1..], c));
    assert before + [] == before;
  }

  lemma Regroup<T>(a: seq<T>, b: seq<T>, c: seq<T>)
    ensures a + (b + c) == a + b + c
  {
  }

  method SplitText(text: string, c: char) returns (out: seq<string>)
    ensures out == Split(text, c)
  {
    hide Split, Find;
    out := [];
    var rest := text;
    var pos := Find(rest, c);
    while pos < |rest|
      invariant pos == Find(rest, c) && out + Split(rest, c) == Split(text, c)
      decreases |rest|
    {
      SplitStep(out, rest, c);
      if pos > 0 {
        out := out + [rest[..pos]];
      }
      rest := rest[pos + 1..];
      if rest == [] {
        SplitNothing(out, c);
        return;
      }
      pos := Find(rest, c);
    }
    SplitLast(rest, c);
    if |rest| > 0 {
      out := out + [rest];
    }
  }

  lemma SplitNothing(out: seq<string>, c: char)
    ensures out + Split([], c) == out
  {
    assert Find([], c) == 0;
  }

  lemma SplitLast(rest: string, c: char)
    requires Find(rest, c) == |rest|
    ensures Split(rest, c) == if |rest| > 0 then [rest] else []
  {
  }

  function Join(tokens: seq<string>, c: char): string {
    if tokens == [] then []
    else if |tokens| == 1 then tokens[0]
    else tokens[0] + [c] + Join(tokens[1..], c)
  }

  /** A piece that splitting leaves whole. */
  predicate IsToken(t: string, c: char) {
    t != [] && c !in t
  }

  predicate AreTokens(tokens: seq<string>, c: char) {
    forall i :: 0 <= i < |tokens| ==> IsToken(tokens[i], c)
  }

  lemma {:induction false} FindIs(s: string, c: char, n: nat)
    requires n <= |s| && c !in s[..n] && (n < |s| ==> s[n] == c)
    ensures Find(s, c) == n
  {
    if n > 0 {
      assert s[0] in s[..n];
      assert forall x :: x in s[1..][..n - 1] ==> x in s[..n];
      FindIs(s[1..], c, n - 1);
    }
  }

  lemma FindInConcat(t: string, rest: string, c: char)
    requires c !in t
    ensures Find(t + [c] + rest, c) == |t| && Find(t, c) == |t|
  {
    var s := t + [c] + rest;
    assert s[..|t|] == t && t[..|t|] == t;
    FindIs(s, c, |t|);
    FindIs(t, c, |t|);
  }

  lemma SplitCons(t: string, rest: string, c: char)
    requires IsToken(t, c)
    ensures Split(t + [c] + rest, c) == [t] + Split(rest, c)
  {
    hide Find;
    FindInConcat(t, rest, c);
    var s := t + [c] + rest;
    assert s[..|t|] == t && s[|t| + 1..] == rest;
  }

  lemma SplitOne(t: string, c: char)
    requires c !in t
    ensures Split(t, c) == NotEmpty(t)
  {
    hide Find;
    FindInConcat(t, [], c);
  }

  /** Splitting undoes joining. */
  lemma {:induction false} SplitJoin(tokens: seq<string>, c: char)
    requires AreTokens(tokens, c)
    ensures Split(Join(tokens, c), c) == tokens
    decreases |tokens|
  {
    hide Split;
    if tokens == [] {
      SplitOne([], c);
    } else if |tokens| == 1 {
      SplitOne(tokens[0], c);
    } else {
      SplitCons(tokens[0], Join(tokens[1..], c), c);
      SplitJoin(tokens[1..], c);
    }
  }

  lemma {:induction false} SplitTokens(s: string, c: char)
    ensures AreTokens(Split(s, c), c) && |Join(Split(s, c), c)| <= |s| && |Split(s, c)| <= |s|
    decreases |s|
  {
    var n := Find(s, c);
    if n < |s| {
      SplitTokens(s[n + 1..], c);
      if n > 0 {
        JoinConcat([s[..n]], Split(s[n + 1..], c), c);
      } else {
        assert [] + Split(s[n + 1..], c) == Split(s[n + 1..], c);
      }
    }
  }

  lemma {:induction false} JoinConcat(first: seq<string>, second: seq<string>, c: char)
    ensures Join(first + second, c) ==
            if first == [] then Join(second, c)
            else if second == [] then Join(first, c)
            else Join(first, c) + [c] + Join(second, c)
    decreases |first|
  {
    if first == [] {
      assert first + second == second;
    } else if second == [] {
      assert first + second == first;
    } else {
      JoinConcat(first[1..], second, c);
      assert (first + second)[1..] == first[1..] + second;
    }
  }

  // --- Octal numbers ---

  function Digit(d: nat): char
    requires d < 8
  {
    '0' + d as char
  }

  predicate IsOctal(c: char) {
    '0' <= c <= '7'
  }

  /** `%0<width>o`. */
  function Octal(n: nat, width: nat): (s: string)
    ensures s != [] && |s| >= width
    decreases n, width
  {
    if n < 8 && width <= 1 then [Digit(n)]
    else Octal(n / 8, if width == 0 then 0 else width - 1) + [Digit(n % 8)]
  }

  lemma {:induction false} OctalDigits(n: nat, width: nat, i: nat)
    requires i < |Octal(n, width)|
    ensures IsOctal(Octal(n, width)[i])
    decreases n, width
  {
    if !(n < 8 && width <= 1) && i < |Octal(n, width)| - 1 {
      OctalDigits(n / 8, if width == 0 then 0 else width - 1, i);
    }
  }

  function Digits(s: string): (n: nat)
    ensures n <= |s| && forall i :: 0 <= i < n ==> IsOctal(s[i])
    ensures n < |s| ==> !IsOctal(s[n])
  {
    if s == [] || !IsOctal(s[0]) then 0 else 1 + Digits(s[1..])
  }

  function ValueOf(s: string): nat
    requires forall i :: 0 <= i < |s| ==> IsOctal(s[i])
    decreases |s|
  {
    if s == [] then 0
    else
      assert IsOctal(s[|s| - 1]);
      ValueOf(s[..|s| - 1]) * 8 + (s[|s| - 1] as int - '0' as int)
  }

  predicate IsSpace(c: char) {
    c == ' ' || '\t' <= c <= '\r'
  }

  /** `std::stoi(s, nullptr, 8)`: white space, a sign, digits, and anything after them. None
      stands for its exceptions: no digits, or not an `int`. */
  function Stoi(s: string): Option<int>
    decreases |s|
  {
    if s == [] then None
    else if IsSpace(s[0]) then Stoi(s[1..])
    else
      var unsigned := if s[0] == '-' || s[0] == '+' then s[1..] else s;
      var n := Digits(unsigned);
      var value: int := ValueOf(unsigned[..n]);
      var v: int := if s[0] == '-' then -value else value;
      if n > 0 && -0x8000_0000 <= v < 0x8000_0000 then Some(v) else None
  }

  lemma {:induction false} ValueOfOctal(n: nat, width: nat)
    requires forall i :: 0 <= i < |Octal(n, width)| ==> IsOctal(Octal(n, width)[i])
    ensures ValueOf(Octal(n, width)) == n
    decreases n, width
  {
    if !(n < 8 && width <= 1) {
      var w := if width == 0 then 0 else width - 1;
      var s := Octal(n, width);
      assert s[..|s| - 1] == Octal(n / 8, w);
      OctalIsOctal(n / 8, w);
      ValueOfOctal(n / 8, w);
    }
  }

  lemma {:induction false} DigitsUpTo(s: string, n: nat)
    requires n <= |s| && (forall i :: 0 <= i < n ==> IsOctal(s[i])) && (n < |s| ==> !IsOctal(s[n]))
    ensures Digits(s) == n
  {
    if n > 0 {
      DigitsUpTo(s[1..], n - 1);
    }
  }

  /** Reading back an octal number, whatever comes after it. */
  lemma StoiOctal(n: nat, width: nat, rest: string)
    requires n < 0x8000_0000 && (rest == [] || !IsOctal(rest[0]))
    ensures Stoi(Octal(n, width) + rest) == Some(n) && Stoi(Octal(n, width)) == Some(n)
  {
    var s := Octal(n, width);
    OctalIsOctal(n, width);
    DigitsUpTo(s + rest, |s|);
    DigitsUpTo(s, |s|);
    ValueOfOctal(n, width);
    assert (s + rest)[..|s|] == s && s[..|s|] == s;
    assert IsOctal(s[0]);
  }

  lemma OctalIsOctal(n: nat, width: nat)
    ensures forall i :: 0 <= i < |Octal(n, width)| ==> IsOctal(Octal(n, width)[i])
  {
    forall i | 0 <= i < |Octal(n, width)| ensures IsOctal(Octal(n, width)[i]) {
      OctalDigits(n, width, i);
    }
  }
}
