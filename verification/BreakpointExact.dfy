/** What a printed breakpoint is read back as. A token that begins with two parentheses counts
    as one in the parser's scan; this file shows that no printed text with such a token can be
    parsed at all, and so that groups must begin with a leaf. */
module BreakpointExact {
  import opened Words
  import opened WordSets
  import opened Text
  import opened Breakpoints
  import opened BreakpointRoundTrip

  /** A token the scan undercounts. */
  predicate Heavy(s: string) {
    |s| >= 2 && s[0] == '(' && s[1] == '('
  }

  /** Closing parentheses come last. */
  predicate Suffixed(s: string) {
    Closes(s) == 0 || (s[|s| - 1] == ')' && Suffixed(s[..|s| - 1]))
  }

  /** Something other than opening parentheses. */
  predicate Bodied(s: string) {
    s != [] && (s[0] != '(' || Bodied(s[1..]))
  }

  predicate Shape(s: string) {
    Suffixed(s) && (Heavy(s) ==> Closes(s) == 0)
  }

  lemma DropFirst(s: string)
    requires Opens(s)
    ensures Closes(s[1..]) == Closes(s) && (Opens(s[1..]) <==> Heavy(s))
  {
    assert s == "(" + s[1..];
    ClosesConcat("(", s[1..]);
    NoCloses("(");
  }

  lemma {:induction false} DropFirstShape(s: string)
    requires Opens(s) && Shape(s)
    ensures Shape(s[1..])
    decreases |s|
  {
    DropFirst(s);
    if Closes(s) > 0 {
      assert |s| >= 2;
      assert s[..|s| - 1][1..] == s[1..][..|s| - 2];
      DropFirstShape(s[..|s| - 1]);
    } else if s[1..] != [] {
      assert Suffixed(s[1..]);
    }
  }

  /** Without its last character a token keeps its shape and loses at most a closing one. */
  lemma DropLast(s: string)
    requires s != [] && Shape(s)
    ensures var t := s[..|s| - 1];
            Shape(t) && (t != [] ==> Weight(t) == if Closes(s) > 0 then Weight(s) + 1 else Weight(s))
  {
    var t := s[..|s| - 1];
    if t != [] {
      assert t[0] == s[0];
    }
  }

  // --- Depth along a list of tokens ---

  /** There is an undercounted token, and up to it the depth does not fall below zero. */
  predicate Before(ts: seq<string>, d: int) {
    ts != [] && (Heavy(ts[0]) || (d + Weight(ts[0]) >= 0 && Before(ts[1..], d + Weight(ts[0]))))
  }

  /** The depth does not pass zero without stopping there, up to an undercounted token. */
  predicate NoJump(ts: seq<string>, d: int) {
    ts == [] || Heavy(ts[0])
    || d + Weight(ts[0]) == 0
    || (d + Weight(ts[0]) > 0 && NoJump(ts[1..], d + Weight(ts[0])))
  }

  lemma {:induction false} BeforeConcat(a: seq<string>, b: seq<string>, d: int)
    requires Before(a, d)
    ensures Before(a + b, d)
    decreases |a|
  {
    hide Weight, Heavy;
    assert (a + b)[1..] == a[1..] + b;
    if !Heavy(a[0]) {
      BeforeConcat(a[1..], b, d + Weight(a[0]));
    }
  }

  /** Cut after a token that loses its last character. */
  lemma {:induction false} NoJumpCut(a: seq<string>, last: string, rest: seq<string>, d: int)
    requires NoJump(a + [last] + rest, d) && d > 0 && last != [] && Shape(last)
    ensures NoJump(a + NotEmpty(last[..|last| - 1]), d)
    decreases |a|
  {
    var t := last[..|last| - 1];
    if a == [] {
      assert ([] + [last] + rest)[0] == last;
      DropLast(last);
      if t != [] {
        assert [] + NotEmpty(t) == [t] && [t][1..] == [];
        assert Heavy(last) ==> Weight(last) == 1;
      } else {
        assert [] + NotEmpty(t) == [];
      }
    } else {
      assert (a + [last] + rest)[1..] == a[1..] + [last] + rest;
      assert (a + NotEmpty(t))[1..] == a[1..] + NotEmpty(t);
      if !Heavy(a[0]) && d + Weight(a[0]) != 0 {
        NoJumpCut(a[1..], last, rest, d + Weight(a[0]));
      }
    }
  }

  /** Where a scan at depth `d` ends, seen from before an undercounted token: before the
      token, or after it. */
  lemma {:induction false} ScanPasses(parts: seq<string>, j: nat, d: int, end: nat)
    requires j < |parts| && Before(parts[j..], d) && ScanEnd(parts, j, d) == Some(end)
    requires d > 0 || !Heavy(parts[j])
    requires forall k :: 0 <= k < |parts| && Heavy(parts[k]) ==> Closes(parts[k]) == 0
    ensures Before(parts[end + 1..], 0) || Before(parts[j..end], d - 1)
    decreases |parts| - j
  {
    hide Closes;
    var d' := d + Weight(parts[j]);
    assert parts[j..][0] == parts[j] && parts[j..][1..] == parts[j + 1..];
    if Heavy(parts[j]) {
      assert d' != 0 && end > j;
      assert parts[j..end][0] == parts[j];
    } else if d' != 0 {
      ScanPasses(parts, j + 1, d', end);
      if Before(parts[j + 1..end], d' - 1) {
        assert parts[j..end][0] == parts[j] && parts[j..end][1..] == parts[j + 1..end];
      }
    }
  }

  /** Where a scan that cannot jump ends: after an undercounted token, or at depth zero. */
  lemma {:induction false} ScanSettles(parts: seq<string>, j: nat, d: int, end: nat)
    requires j < |parts| && d > 0 && NoJump(parts[j..], d) && ScanEnd(parts, j, d) == Some(end)
    requires forall k :: 0 <= k < |parts| && Heavy(parts[k]) ==> Closes(parts[k]) == 0
    ensures || Before(parts[j..end], d)
            || (StaysUp(parts[j..end], d) && d + Total(parts[j..end]) + Weight(parts[end]) == 0)
    decreases |parts| - j
  {
    hide Closes;
    var d' := d + Weight(parts[j]);
    assert parts[j..][0] == parts[j] && parts[j..][1..] == parts[j + 1..];
    if Heavy(parts[j]) {
      assert d' != 0 && end > j;
      assert parts[j..end][0] == parts[j];
    } else if d' == 0 {
      assert parts[j..end] == [];
    } else {
      ScanSettles(parts, j + 1, d', end);
      assert parts[j..end][0] == parts[j] && parts[j..end][1..] == parts[j + 1..end];
    }
  }

  lemma {:induction false} ScanNever(ts: seq<string>, j: nat, d: int)
    requires j <= |ts| && StaysUp(ts[j..], d)
    ensures ScanEnd(ts, j, d) == None
    decreases |ts| - j
  {
    hide Weight;
    if j < |ts| {
      assert ts[j..][0] == ts[j] && ts[j..][1..] == ts[j + 1..];
      ScanNever(ts, j + 1, d + Weight(ts[j]));
    }
  }

  // --- The inside of a range, as tokens ---

  lemma {:induction false} SplitJoinLast(ts: seq<string>, last: string, c: char)
    requires AreTokens(ts, c) && c !in last
    ensures Split(Join(ts + [last], c), c) == ts + NotEmpty(last)
    decreases |ts|
  {
    hide Split;
    if ts == [] {
      assert Join([] + [last], c) == last;
      SplitOne(last, c);
      assert [] + NotEmpty(last) == NotEmpty(last);
    } else {
      assert IsToken(ts[0], c) && (ts + [last])[1..] == ts[1..] + [last];
      SplitCons(ts[0], Join(ts[1..] + [last], c), c);
      SplitJoinLast(ts[1..], last, c);
      assert [ts[0]] + (ts[1..] + NotEmpty(last)) == ts + NotEmpty(last);
    }
  }

  /** The tokens of a range without its first and last character. */
  function Trim(sub: seq<string>): (r: seq<string>)
    requires |sub| >= 2 && sub[0] != [] && sub[|sub| - 1] != []
    ensures r != []
  {
    var n := |sub| - 1;
    [sub[0][1..]] + sub[1..n] + NotEmpty(sub[n][..|sub[n]| - 1])
  }

  lemma Stripped(last: string, u: string, front: string, whole: string)
    requires last != [] && u == last[..|last| - 1] && whole == "(" + front + " " + last
    ensures Strip(whole) == front + " " + u
  {
    assert last == u + [last[|u|]];
    assert whole == "(" + (front + " " + u) + [last[|u|]];
  }

  lemma TrimIsStrip(sub: seq<string>)
    requires |sub| >= 2 && AreTokens(sub, ' ') && Opens(sub[0]) && |sub[0]| >= 2
    ensures sub[|sub| - 1] != [] && Split(Strip(Spaced(sub)), ' ') == Trim(sub)
  {
    hide Split, Join;
    var n := |sub| - 1;
    assert IsToken(sub[0], ' ') && IsToken(sub[n], ' ');
    var front, u := [sub[0][1..]] + sub[1..n], sub[n][..|sub[n]| - 1];
    assert sub[0] == "(" + front[0] && sub[..n] == AddFirst(front) && sub == sub[..n] + [sub[n]];
    AddFirstJoin(front);
    JoinConcat(sub[..n], [sub[n]], ' ');
    JoinConcat(front, [u], ' ');
    JoinOne(sub[n]);
    JoinOne(u);
    Stripped(sub[n], u, Spaced(front), Spaced(sub));
    assert forall k :: 0 <= k < |front| ==> IsToken(front[k], ' ');
    SplitJoinLast(front, u, ' ');
  }

  // --- Nothing with an undercounted token can be parsed ---

  /** Tokens as they occur inside a printed breakpoint, perhaps cut off at the end. */
  ghost predicate Tracked(parts: seq<string>) {
    && AreTokens(parts, ' ')
    && (forall k :: 0 <= k < |parts| ==> Shape(parts[k]))
    && (forall k :: 0 <= k < |parts| - 1 ==> Bodied(parts[k]))
    && (forall k :: 0 <= k < |parts| && Heavy(parts[k]) ==> NoJump(parts[k + 1..], 1))
  }

  lemma TrimAt(sub: seq<string>, k: nat)
    requires |sub| >= 2 && sub[0] != [] && sub[|sub| - 1] != [] && k < |Trim(sub)|
    ensures Trim(sub)[k] == if k == 0 then sub[0][1..] else if k < |sub| - 1 then sub[k] else sub[k][..|sub[k]| - 1]
    ensures |sub| - 1 <= |Trim(sub)| <= |sub|
    ensures Trim(sub)[k + 1..] ==
            if k < |sub| - 1 then sub[k + 1..|sub| - 1] + NotEmpty(sub[|sub| - 1][..|sub[|sub| - 1]| - 1]) else []
  {
  }

  /** After an undercounted token of a range the depth still does not jump. */
  lemma TrimNoJump(parts: seq<string>, i: nat, end: nat, k: nat)
    requires Tracked(parts) && i <= k < end < |parts| && Heavy(parts[k])
    ensures NoJump(parts[k + 1..end] + NotEmpty(parts[end][..|parts[end]| - 1]), 1)
  {
    hide NoJump, Heavy, Shape, Bodied;
    assert IsToken(parts[end], ' ');
    assert parts[k + 1..] == parts[k + 1..end] + [parts[end]] + parts[end + 1..];
    NoJumpCut(parts[k + 1..end], parts[end], parts[end + 1..], 1);
  }

  lemma Inside<T>(parts: seq<T>, i: nat, end: nat, k: nat)
    requires i <= k <= end < |parts|
    ensures |parts[i..end + 1]| == end + 1 - i && parts[i..end + 1][k - i..end - i] == parts[k..end]
  {
    var sub := parts[i..end + 1];
    forall x | 0 <= x < end - k ensures sub[k - i..end - i][x] == parts[k..end][x] {
      assert sub[k - i..end - i][x] == sub[k - i + x];
    }
  }

  lemma TrimShapeAt(parts: seq<string>, i: nat, end: nat, k: nat)
    requires Tracked(parts) && i < end < |parts| && Opens(parts[i])
    requires |parts[i]| >= 2 && parts[end] != [] && k < |Trim(parts[i..end + 1])|
    ensures var ts := Trim(parts[i..end + 1]); Shape(ts[k]) && (k < |ts| - 1 ==> Bodied(ts[k]))
  {
    hide NoJump, Shape, Heavy, Opens, Bodied, Trim, AreTokens;
    var sub := parts[i..end + 1];
    TrimAt(sub, k);
    assert sub[k] == parts[i + k];
    if k == 0 {
      DropFirstShape(parts[i]);
      HeavyAgain(parts[i]);
    } else if k == end - i {
      DropLast(parts[end]);
    }
  }

  lemma TrimHeavyAt(parts: seq<string>, i: nat, end: nat, k: nat)
    requires Tracked(parts) && i < end < |parts| && Opens(parts[i])
    requires |parts[i]| >= 2 && parts[end] != [] && k < |Trim(parts[i..end + 1])|
    ensures var ts := Trim(parts[i..end + 1]); Heavy(ts[k]) ==> NoJump(ts[k + 1..], 1)
  {
    hide NoJump, Shape, Heavy, Opens, Bodied, Trim, Tracked;
    var sub := parts[i..end + 1];
    var ts := Trim(sub);
    TrimAt(sub, k);
    if Heavy(ts[k]) {
      if k < end - i {
        assert Heavy(parts[i + k]) by {
          if k == 0 {
            HeavyAgain(parts[i]);
          }
        }
        TrimNoJump(parts, i, end, i + k);
        RestOfTrim(parts, i, end, k);
      } else {
        NoJumpNothing();
      }
    }
  }

  lemma SliceOfSlice<T>(parts: seq<T>, i: nat, end: nat, k: nat)
    requires i + k < end < |parts|
    ensures parts[i..end + 1][k + 1..end - i] == parts[i + k + 1..end]
  {
    var sub := parts[i..end + 1];
    var a, b := sub[k + 1..end - i], parts[i + k + 1..end];
    forall x | 0 <= x < |a| ensures a[x] == b[x] {
      assert a[x] == sub[k + 1 + x];
    }
  }

  lemma TrimTail(sub: seq<string>, k: nat)
    requires |sub| >= 2 && sub[0] != [] && sub[|sub| - 1] != [] && k < |sub| - 1
    ensures k < |Trim(sub)|
    ensures Trim(sub)[k + 1..] == sub[k + 1..|sub| - 1] + NotEmpty(sub[|sub| - 1][..|sub[|sub| - 1]| - 1])
  {
    hide NotEmpty;
    var n := |sub| - 1;
    var mid, last := sub[1..n], NotEmpty(sub[n][..|sub[n]| - 1]);
    assert Trim(sub)[k + 1..] == mid[k..] + last;
    assert mid[k..] == sub[k + 1..n];
  }

  /** What follows token `k` in a trimmed range. */
  lemma RestOfTrim(parts: seq<string>, i: nat, end: nat, k: nat)
    requires i < end < |parts| && parts[i] != [] && parts[end] != [] && k < end - i
    ensures k < |Trim(parts[i..end + 1])|
    ensures Trim(parts[i..end + 1])[k + 1..] == parts[i + k + 1..end] + NotEmpty(parts[end][..|parts[end]| - 1])
  {
    hide Trim, NotEmpty;
    var sub := parts[i..end + 1];
    assert sub[0] == parts[i] && sub[end - i] == parts[end];
    TrimTail(sub, k);
    SliceOfSlice(parts, i, end, k);
  }

  lemma TrimTracked(parts: seq<string>, i: nat, end: nat)
    requires Tracked(parts) && i < end < |parts| && Opens(parts[i])
    requires |parts[i]| >= 2 && parts[end] != []
    ensures Tracked(Trim(parts[i..end + 1]))
  {
    hide NoJump, Shape, Heavy, Split, Opens, Trim, Bodied, Spaced, Strip;
    var sub := parts[i..end + 1];
    var ts := Trim(sub);
    forall k | 0 <= k < |sub| ensures IsToken(sub[k], ' ') {
      assert sub[k] == parts[i + k];
    }
    TrimIsStrip(sub);
    SplitTokens(Strip(Spaced(sub)), ' ');
    forall k | 0 <= k < |ts|
      ensures Shape(ts[k]) && (k < |ts| - 1 ==> Bodied(ts[k])) && (Heavy(ts[k]) ==> NoJump(ts[k + 1..], 1))
    {
      TrimShapeAt(parts, i, end, k);
      TrimHeavyAt(parts, i, end, k);
    }
  }

  lemma HeavyAgain(s: string)
    requires Opens(s) && |s| >= 2
    ensures Heavy(s[1..]) ==> Heavy(s)
    ensures Bodied(s) ==> Bodied(s[1..])
  {
  }

  lemma NoJumpNothing()
    ensures NoJump([], 1)
  {
  }

  /** The range from a token that opens one group, seen from inside. */
  lemma InsidePlain(parts: seq<string>, i: nat, end: nat)
    requires Tracked(parts) && i < end < |parts| && Opens(parts[i]) && !Heavy(parts[i]) && |parts[i]| >= 2
             && parts[end] != []
    requires Weight(parts[i]) == 1 && Before(parts[i + 1..end], 0)
    ensures Before(Trim(parts[i..end + 1]), 0)
  {
    hide NoJump, Shape, Bodied;
    var sub := parts[i..end + 1];
    DropFirst(parts[i]);
    TrimAt(sub, 0);
    Inside(parts, i, end, i + 1);
    BeforeConcat(parts[i + 1..end], NotEmpty(parts[end][..|parts[end]| - 1]), 0);
  }

  /** The range from an undercounted token, when it holds another one. */
  lemma InsideHeavy(parts: seq<string>, i: nat, end: nat)
    requires Tracked(parts) && i < end < |parts| && Heavy(parts[i]) && parts[end] != []
    requires Before(parts[i + 1..end], 1)
    ensures Before(Trim(parts[i..end + 1]), 0)
  {
    HeavyWeight(parts[i]);
    hide NoJump, Bodied, Tracked, Trim, Weight, Closes;
    var sub := parts[i..end + 1];
    DropFirst(parts[i]);
    TrimAt(sub, 0);
    Inside(parts, i, end, i + 1);
    BeforeConcat(parts[i + 1..end], NotEmpty(parts[end][..|parts[end]| - 1]), 1);
  }

  /** The range from an undercounted token, when it holds no other: its inside never closes. */
  lemma InsideUnbalanced(parts: seq<string>, i: nat, end: nat)
    requires Tracked(parts) && i < end < |parts| && Heavy(parts[i]) && parts[end] != []
    requires StaysUp(parts[i + 1..end], 1) && 1 + Total(parts[i + 1..end]) + Weight(parts[end]) == 0
    ensures var ts := Trim(parts[i..end + 1]); Opens(ts[0]) && ScanEnd(ts, 0, 0) == None
  {
    hide NoJump, Bodied, Closes, Heavy, Trim, StaysUp, Total, AreTokens, Shape;
    var sub := parts[i..end + 1];
    var mid, u := parts[i + 1..end], parts[end][..|parts[end]| - 1];
    HeavyOpens(parts[i]);
    Inside(parts, i, end, i + 1);
    TrimAt(sub, 0);
    EndCloses(mid, parts[end]);
    DropLast(parts[end]);
    StillUp(Trim(sub), mid, u);
  }

  lemma StillUp(ts: seq<string>, mid: seq<string>, u: string)
    requires ts != [] && ts[1..] == mid + NotEmpty(u) && Weight(ts[0]) == 1
    requires StaysUp(mid, 1) && (u != [] ==> 1 + Total(mid) + Weight(u) > 0)
    ensures ScanEnd(ts, 0, 0) == None
  {
    hide Weight;
    UpConcat(mid, NotEmpty(u), 1);
    if u != [] {
      OneWeight(u, 1 + Total(mid));
    }
    assert ts[0..] == ts && StaysUp(ts, 0);
    ScanNever(ts, 0, 0);
  }

  lemma HeavyOpens(s: string)
    requires Heavy(s) && Shape(s)
    ensures Opens(s) && |s| >= 2 && Opens(s[1..]) && Weight(s[1..]) == 1
  {
    DropFirst(s);
  }

  /** Depth stays up to the last token, which brings it to zero: so that token closes. */
  lemma {:induction false} EndCloses(mid: seq<string>, last: string)
    requires StaysUp(mid, 1) && 1 + Total(mid) + Weight(last) == 0
    ensures 1 + Total(mid) > 0 && Closes(last) > 0
  {
    UpAtEnd(mid, 1);
  }

  lemma {:induction false} UpAtEnd(ts: seq<string>, d: int)
    requires StaysUp(ts, d) && d > 0
    ensures d + Total(ts) > 0
    decreases |ts|
  {
    hide Weight;
    if ts != [] {
      UpAtEnd(ts[1..], d + Weight(ts[0]));
    }
  }

  /** What the recursion sees of a range. */
  lemma InsideParses(parts: seq<string>, i: nat, end: nat)
    requires Tracked(parts) && i < end < |parts| && Opens(parts[i])
    requires |parts[i]| >= 2 && parts[end] != []
    ensures var ts := Trim(parts[i..end + 1]);
            && AreTokens(ts, ' ') && |Spaced(ts)| < |Spaced(parts)|
            && Parse(Strip(Spaced(parts[i..end + 1]))) == ParseFrom(ts, 0, [], NotSet)
  {
    hide Split, Trim, ParseFrom, Shape, Bodied, NoJump, Heavy, Opens;
    var sub := parts[i..end + 1];
    ShorterInside(parts, i, end + 1);
    forall k | 0 <= k < |sub| ensures IsToken(sub[k], ' ') {
      assert sub[k] == parts[i + k];
    }
    TrimIsStrip(sub);
    SplitTokens(Strip(Spaced(sub)), ' ');
  }

  lemma LongEnough(parts: seq<string>, i: nat)
    requires Tracked(parts) && i < |parts| - 1 && Opens(parts[i])
    ensures |parts[i]| >= 2 && parts[|parts| - 1] != []
    ensures forall k :: 0 <= k < |parts| ==> parts[k] != []
  {
    hide NoJump, Shape;
    assert Bodied(parts[i]) && Bodied(parts[i][1..]);
    assert forall k :: 0 <= k < |parts| ==> IsToken(parts[k], ' ');
  }

  /** A range that begins at `i` and has an undercounted token inside, or begins with one. */
  lemma {:induction false} RangeFails(parts: seq<string>, i: nat, end: nat)
    requires Tracked(parts) && i < end < |parts| && Opens(parts[i]) && ScanEnd(parts, i, 0) == Some(end)
    requires Heavy(parts[i]) || (Weight(parts[i]) == 1 && Before(parts[i + 1..end], 0))
    ensures Parse(Strip(Spaced(parts[i..end + 1]))).Failed?
    decreases |Spaced(parts)|, 0
  {
    hide NoJump, Shape, Bodied, Closes, Trim, Opens, Parse, Before, StaysUp, AreTokens, Strip, Spaced;
    LongEnough(parts, i);
    InsideParses(parts, i, end);
    TrimTracked(parts, i, end);
    var ts := Trim(parts[i..end + 1]);
    assert ts[0..] == ts;
    if !Heavy(parts[i]) {
      InsidePlain(parts, i, end);
      ParseFails(ts, 0, [], NotSet);
    } else {
      HeavyOpens(parts[i]);
      HeavyClean(parts);
      HeavyWeight(parts[i]);
      ScanSettles(parts, i + 1, 1, end);
      if Before(parts[i + 1..end], 1) {
        InsideHeavy(parts, i, end);
        ParseFails(ts, 0, [], NotSet);
      } else {
        InsideUnbalanced(parts, i, end);
      }
    }
  }

  lemma TrackedTokens(parts: seq<string>, i: nat)
    requires Tracked(parts)
    ensures AreTokens(parts, ' ') && (i < |parts| ==> Shape(parts[i]))
  {
  }

  lemma HeavyWeight(s: string)
    requires Heavy(s) && Shape(s)
    ensures Weight(s) == 1
  {
  }

  lemma HeavyClean(parts: seq<string>)
    requires Tracked(parts)
    ensures forall k :: 0 <= k < |parts| && Heavy(parts[k]) ==> Closes(parts[k]) == 0
  {
    hide NoJump, Bodied;
  }

  /** Reaching an undercounted token at any depth of the parse means failure. */
  lemma {:induction false} ParseFails(parts: seq<string>, i: nat, parsed: seq<Breakpoint>, combine: Combine)
    requires Tracked(parts) && i <= |parts| && Before(parts[i..], 0)
    ensures ParseFrom(parts, i, parsed, combine).Failed?
    decreases |Spaced(parts)|, 1, |parts| - i
  {
    hide NoJump, Shape, Bodied, ParseLeaf, Parse, Spaced, Strip, Closes, Tracked, Weight, Heavy;
    TrackedTokens(parts, i);
    assert i < |parts| && parts[i] == parts[i..][0] && parts[i..][1..] == parts[i + 1..];
    if Opens(parts[i]) {
      match ScanEnd(parts, i, 0)
      case None =>
      case Some(end) =>
        HeavyClean(parts);
        if Heavy(parts[i]) {
          assert end > i by { HeavyWeight(parts[i]); }
          RangeFails(parts, i, end);
        } else {
          PlainRange(parts, i, end);
          if !Before(parts[end + 1..], 0) {
            RangeFails(parts, i, end);
          } else {
            var inner := Parse(Strip(Spaced(parts[i..end + 1])));
            if inner.Parsed? {
              ParseFails(parts, end + 1, parsed + [inner.bp], combine);
            }
          }
        }
    } else {
      NoWeight(parts[i]);
      if parts[i] == "and" || parts[i] == "or" {
        ParseFails(parts, i + 1, parsed, if parts[i] == "and" then All else Any);
      } else if !combine.Single? && ParseLeaf(parts[i]).Leaves? {
        ParseFails(parts, i + 1, parsed + ParseLeaf(parts[i]).found, if combine.NotSet? then Single else combine);
      }
    }
  }

  lemma NoWeight(s: string)
    requires !Opens(s)
    ensures Weight(s) <= 0 && !Heavy(s)
  {
  }

  /** A range that begins with one parenthesis ends before the undercounted token or holds it. */
  lemma PlainRange(parts: seq<string>, i: nat, end: nat)
    requires Tracked(parts) && i < |parts| && Opens(parts[i]) && !Heavy(parts[i])
    requires Before(parts[i..], 0) && ScanEnd(parts, i, 0) == Some(end)
    ensures Before(parts[end + 1..], 0) || (i < end && Weight(parts[i]) == 1 && Before(parts[i + 1..end], 0))
  {
    hide NoJump, Shape, Bodied, Closes;
    assert parts[i] == parts[i..][0] && parts[i..][1..] == parts[i + 1..];
    HeavyClean(parts);
    if Weight(parts[i]) != 0 {
      assert i + 1 < |parts|;
      ScanPasses(parts, i + 1, 1, end);
    }
  }

  // --- Printed breakpoints ---

  /** An undercounted token is reached with the depth above zero, or the depth comes to zero. */
  predicate Settles(ts: seq<string>, d: int) {
    ts != []
    && (Heavy(ts[0]) || d + Weight(ts[0]) == 0
        || (d + Weight(ts[0]) > 0 && Settles(ts[1..], d + Weight(ts[0]))))
  }

  lemma {:induction false} SettlesConcat(a: seq<string>, b: seq<string>, d: int)
    requires Settles(a, d)
    ensures Settles(a + b, d) && NoJump(a + b, d)
    decreases |a|
  {
    hide Weight, Heavy;
    assert (a + b)[1..] == a[1..] + b;
    if !Heavy(a[0]) && d + Weight(a[0]) != 0 {
      SettlesConcat(a[1..], b, d + Weight(a[0]));
    }
  }

  lemma {:induction false} BeforeSettles(ts: seq<string>, rest: seq<string>, d: int)
    requires Before(ts, d)
    ensures Settles(ts + rest, d + 1)
    decreases |ts|
  {
    hide Weight, Heavy;
    assert (ts + rest)[1..] == ts[1..] + rest;
    if !Heavy(ts[0]) {
      BeforeSettles(ts[1..], rest, d + Weight(ts[0]));
    }
  }

  /** The tokens of a printed breakpoint, one by one. */
  predicate Clean(s: string) {
    Suffixed(s) && Bodied(s) && (Opens(s) ==> Closes(s) == 0)
  }

  predicate AllClean(ts: seq<string>) {
    ts != [] && Closes(ts[0]) == 0 && !Opens(ts[|ts| - 1]) && forall k :: 0 <= k < |ts| ==> Clean(ts[k])
  }

  lemma LeafClean(s: string)
    requires LeafToken(s)
    ensures AllClean([s])
  {
    NoCloses(s);
  }

  lemma CleanConcat(a: seq<string>, b: seq<string>)
    requires AllClean(a) && AllClean(b)
    ensures AllClean(a + b)
  {
    hide Clean, Closes, Opens;
  }

  lemma PutFirst(s: string)
    requires Clean(s) && Closes(s) == 0
    ensures Clean("(" + s) && Closes("(" + s) == 0 && (Heavy("(" + s) <==> Opens(s))
  {
    var t := "(" + s;
    assert t[1..] == s;
    DropFirst(t);
  }

  lemma PutLast(s: string)
    requires Clean(s) && !Opens(s)
    ensures Clean(s + ")") && !Opens(s + ")")
  {
    assert (s + ")")[..|s|] == s;
    ClosesConcat(s, ")");
  }

  lemma EncloseClean(ts: seq<string>)
    requires |ts| >= 2 && AllClean(ts)
    ensures AllClean(Enclose(ts)) && (Heavy(Enclose(ts)[0]) <==> Opens(ts[0]))
    ensures Enclose(ts)[0] == "(" + ts[0] && Enclose(ts)[1..|ts| - 1] == ts[1..|ts| - 1]
  {
    hide Clean, Closes, Opens;
    PutFirst(ts[0]);
    PutLast(ts[|ts| - 1]);
  }

  lemma {:induction false} RestClean(op: Op, operands: seq<Breakpoint>)
    requires operands != [] && forall o :: o in operands ==> Printable(o) && AllClean(Tokens(o))
    ensures AllClean(Rest(op, operands))
    decreases operands
  {
    hide AllClean, Tokens;
    JoinerClean(op);
    CleanConcat([Joiner(op)], Tokens(operands[0]));
    if |operands| > 1 {
      RestClean(op, operands[1..]);
      CleanConcat([Joiner(op)] + Tokens(operands[0]), Rest(op, operands[1..]));
    } else {
      NoRest(op, operands[1..]);
      var ts := [Joiner(op)] + Tokens(operands[0]);
      assert ts + [] == ts;
    }
  }

  lemma JoinerClean(op: Op)
    ensures AllClean([Joiner(op)]) && Weight(Joiner(op)) == 0 && !Heavy(Joiner(op))
  {
    NoCloses(Joiner(op));
  }

  lemma {:induction false} TokensClean(t: Breakpoint)
    requires Printable(t)
    ensures AllClean(Tokens(t)) && (t.Group? ==> |Tokens(t)| >= 3 && AllClean(Inner(t.op, t.operands)))
    decreases t
  {
    hide AllClean, Emit, Enclose, Rest;
    if t.Group? {
      forall o | o in t.operands ensures Printable(o) && AllClean(Tokens(o)) {
        TokensClean(o);
      }
      RestClean(t.op, t.operands[1..]);
      CleanConcat(Tokens(t.operands[0]), Rest(t.op, t.operands[1..]));
      RestLong(t.op, t.operands[1..]);
      EncloseClean(Inner(t.op, t.operands));
    } else {
      LeafBack(t);
      LeafClean(Emit(t));
    }
  }

  lemma RestLong(op: Op, operands: seq<Breakpoint>)
    requires operands != [] && forall o :: o in operands ==> Printable(o)
    ensures |Rest(op, operands)| >= 2
  {
  }

  // --- The first undercounted token ---

  lemma {:induction false} BeforeAfterLevel(a: seq<string>, b: seq<string>, d: int)
    requires StaysUp(a, d + 1) && Before(b, d + Total(a))
    ensures Before(a + b, d)
    decreases |a|
  {
    hide Weight, Heavy;
    if a == [] {
      assert a + b == b;
    } else {
      assert (a + b)[1..] == a[1..] + b;
      BeforeAfterLevel(a[1..], b, d + Weight(a[0]));
    }
  }

  /** For a breakpoint that is not leaf-first. */
  ghost predicate EarlyBefore(ts: seq<string>) {
    forall d :: d >= 0 ==> Before(ts, d)
  }

  lemma LevelThenEarly(a: seq<string>, b: seq<string>)
    requires Level(a) && EarlyBefore(b)
    ensures EarlyBefore(a + b)
  {
    forall d | d >= 0 ensures Before(a + b, d) {
      BeforeAfterLevel(a, b, d);
    }
  }

  lemma EarlyConcat(a: seq<string>, b: seq<string>)
    requires EarlyBefore(a)
    ensures EarlyBefore(a + b)
  {
    forall d | d >= 0 ensures Before(a + b, d) {
      BeforeConcat(a, b, d);
    }
  }

  predicate AllLeafFirst(operands: seq<Breakpoint>) {
    forall o :: o in operands ==> LeafFirst(o)
  }

  lemma {:induction false} RestEarly(op: Op, operands: seq<Breakpoint>)
    requires forall o :: o in operands ==> Printable(o)
    requires forall o :: o in operands ==> (if LeafFirst(o) then Level(Tokens(o)) else EarlyBefore(Tokens(o)))
    requires !AllLeafFirst(operands)
    ensures EarlyBefore(Rest(op, operands))
    decreases operands
  {
    hide EarlyBefore, Level, Tokens, LeafFirst;
    var head := [Joiner(op)];
    var rest := Rest(op, operands[1..]);
    JoinerClean(op);
    LevelToken(Joiner(op));
    if LeafFirst(operands[0]) {
      assert operands == [operands[0]] + operands[1..];
      RestEarly(op, operands[1..]);
      LevelConcat(head, Tokens(operands[0]));
      LevelThenEarly(head + Tokens(operands[0]), rest);
    } else {
      LevelThenEarly(head, Tokens(operands[0]));
      EarlyConcat(head + Tokens(operands[0]), rest);
    }
  }

  lemma EncloseSlices(a: seq<string>, b: seq<string>)
    requires a != [] && b != []
    ensures Enclose(a + b) == AddFirst(a) + AddLast(b) && Enclose(a + b)[1..] == a[1..] + AddLast(b)
  {
  }

  lemma {:induction false} BeforeAddLast(ts: seq<string>, d: int)
    requires Before(ts, d) && !Opens(ts[|ts| - 1])
    ensures Before(AddLast(ts), d)
    decreases |ts|
  {
    hide Weight;
    assert |ts| > 1 by { NotHeavyAlone(ts, d); }
    assert AddLast(ts)[1..] == AddLast(ts[1..]);
    if !Heavy(ts[0]) {
      BeforeAddLast(ts[1..], d + Weight(ts[0]));
    }
  }

  lemma NotHeavyAlone(ts: seq<string>, d: int)
    requires Before(ts, d) && !Opens(ts[|ts| - 1])
    ensures |ts| > 1
  {
    hide Weight;
    assert Heavy(ts[0]) || Before(ts[1..], d + Weight(ts[0]));
  }

  lemma RestEnds(t: Breakpoint)
    requires t.Group? && Printable(t)
    ensures var rest := Rest(t.op, t.operands[1..]); rest != [] && AllClean(rest)
    ensures forall o :: o in t.operands ==> Printable(o) && AllClean(Tokens(o))
  {
    hide AllClean, Tokens;
    forall o | o in t.operands ensures Printable(o) && AllClean(Tokens(o)) {
      TokensClean(o);
    }
    RestClean(t.op, t.operands[1..]);
    RestLong(t.op, t.operands[1..]);
  }

  lemma EarlyInside(leaf: string, rest: seq<string>)
    requires Weight(leaf) == 0 && !Opens(leaf) && leaf != [] && EarlyBefore(rest) && rest != []
             && !Opens(rest[|rest| - 1])
    ensures EarlyBefore(Enclose([leaf] + rest))
  {
    var ts := Enclose([leaf] + rest);
    EncloseSlices([leaf], rest);
    assert ts[0] == "(" + leaf && ts[1..] == AddLast(rest);
    ClosesConcat("(", leaf);
    NoCloses("(");
    forall d | d >= 0 ensures Before(ts, d) {
      BeforeAddLast(rest, d + 1);
    }
  }

  /** A group that is not leaf-first has an undercounted token, reached at no negative depth. */
  lemma {:induction false} TokensEarly(t: Breakpoint)
    requires Printable(t) && !LeafFirst(t)
    ensures EarlyBefore(Tokens(t))
    decreases t
  {
    hide EarlyBefore, Level, Rest, AllClean, Emit, Weight, Opens, Closes;
    var first, rest := t.operands[0], Rest(t.op, t.operands[1..]);
    RestEnds(t);
    TokensClean(t);
    if first.Group? {
      GroupOpens(first);
      EncloseClean(Inner(t.op, t.operands)) by { InnerLong(t); }
      HeavyIsEarly(Tokens(t));
    } else {
      forall o | o in t.operands ensures if LeafFirst(o) then Level(Tokens(o)) else EarlyBefore(Tokens(o)) {
        if LeafFirst(o) {
          TokensAreLevel(o);
        } else {
          TokensEarly(o);
        }
      }
      assert t.operands == [first] + t.operands[1..];
      RestEarly(t.op, t.operands[1..]);
      LeafBack(first);
      LeafWeight(Emit(first));
      LastPlain(rest);
      EarlyInside(Emit(first), rest);
    }
  }

  lemma InnerLong(t: Breakpoint)
    requires t.Group? && Printable(t)
    ensures |Inner(t.op, t.operands)| >= 2
  {
    RestLong(t.op, t.operands[1..]);
  }

  lemma LastPlain(ts: seq<string>)
    requires AllClean(ts)
    ensures !Opens(ts[|ts| - 1])
  {
  }

  lemma GroupOpens(t: Breakpoint)
    requires t.Group? && Printable(t)
    ensures Opens(Tokens(t)[0])
  {
    hide Opens, Inner;
    EncloseOpens(Inner(t.op, t.operands));
  }

  lemma HeavyIsEarly(ts: seq<string>)
    requires ts != [] && Heavy(ts[0])
    ensures EarlyBefore(ts)
  {
  }

  // --- No jumps ---

  lemma {:induction false} SettlesAtEnd(ts: seq<string>, d: int)
    requires ts != [] && StaysUp(ts, d) && d + Total(ts) == 1 && ts[|ts| - 1] != []
    ensures Settles(AddLast(ts), d)
    decreases |ts|
  {
    if |ts| == 1 {
      ClosesConcat(ts[0], ")");
      assert ")"[..0] == "" && Closes(")") == 1;
      assert ts[1..] == [];
    } else {
      assert AddLast(ts)[1..] == AddLast(ts[1..]);
      SettlesAtEnd(ts[1..], d + Weight(ts[0]));
    }
  }

  lemma {:induction false} RestLevel(op: Op, operands: seq<Breakpoint>)
    requires AllLeafFirst(operands) && forall o :: o in operands ==> Printable(o)
    ensures Level(Rest(op, operands))
  {
    hide Level, LeafFirst;
    forall o | o in operands ensures Printable(o) && Level(Tokens(o)) {
      TokensAreLevel(o);
    }
    RestIsLevel(op, operands);
  }

  /** After its first token a group settles, whatever stands before it. */
  lemma {:induction false} FirstSettles(t: Breakpoint)
    requires Printable(t) && t.Group?
    ensures Settles(Tokens(t)[1..], 1)
    decreases t
  {
    hide Weight, Opens, Closes, Emit, Settles, Clean, LeafFirst, Rest, Enclose, AddLast;
    var first, rest := t.operands[0], Rest(t.op, t.operands[1..]);
    RestEnds(t);
    EncloseSlices(Tokens(first), rest);
    if first.Group? {
      FirstSettles(first);
      SettlesConcat(Tokens(first)[1..], AddLast(rest), 1);
    } else {
      LeafTokens(first);
      assert Tokens(first)[1..] == [] && [] + AddLast(rest) == AddLast(rest);
      RestSettles(t);
    }
  }

  lemma RestSettles(t: Breakpoint)
    requires Printable(t) && t.Group?
    ensures Rest(t.op, t.operands[1..]) != [] && Settles(AddLast(Rest(t.op, t.operands[1..])), 1)
  {
    hide Weight, Opens, Closes, Emit, Settles, Clean, LeafFirst, Rest, AddLast, Tokens, Before, StaysUp, Total;
    var operands, rest := t.operands[1..], Rest(t.op, t.operands[1..]);
    RestEnds(t);
    if AllLeafFirst(operands) {
      RestLevel(t.op, operands);
      assert StaysUp(rest, 1);
      LastBodied(rest);
      SettlesAtEnd(rest, 1);
    } else {
      forall o | o in operands ensures if LeafFirst(o) then Level(Tokens(o)) else EarlyBefore(Tokens(o)) {
        if LeafFirst(o) {
          TokensAreLevel(o);
        } else {
          TokensEarly(o);
        }
      }
      RestEarly(t.op, operands);
      assert Before(rest, 0);
      BeforeAddLast(rest, 0);
      BeforeSettles(AddLast(rest), [], 0);
      assert AddLast(rest) + [] == AddLast(rest);
    }
  }

  lemma LastBodied(ts: seq<string>)
    requires AllClean(ts)
    ensures ts[|ts| - 1] != []
  {
  }

  /** After every undercounted token the depth settles before the last token. */
  predicate SettlesAll(ts: seq<string>) {
    forall k :: 0 <= k < |ts| && Heavy(ts[k]) ==> k < |ts| - 1 && Settles(ts[k + 1..|ts| - 1], 1)
  }

  lemma SettlesAllConcat(a: seq<string>, b: seq<string>)
    requires SettlesAll(a) && SettlesAll(b) && b != []
    ensures SettlesAll(a + b)
  {
    hide Settles, Heavy;
    var ts := a + b;
    forall k | 0 <= k < |ts| && Heavy(ts[k]) ensures k < |ts| - 1 && Settles(ts[k + 1..|ts| - 1], 1) {
      if k < |a| {
        assert Heavy(a[k]);
        var more := [a[|a| - 1]] + b[..|b| - 1];
        SliceAcross(a, b, k + 1);
        SettlesConcat(a[k + 1..|a| - 1], more, 1);
      } else {
        assert Heavy(b[k - |a|]);
        SliceBehind(a, b, k + 1);
      }
    }
  }

  lemma SliceAcross<T>(a: seq<T>, b: seq<T>, k: nat)
    requires k < |a| && b != []
    ensures (a + b)[k..|a + b| - 1] == a[k..|a| - 1] + ([a[|a| - 1]] + b[..|b| - 1])
  {
  }

  lemma SliceBehind<T>(a: seq<T>, b: seq<T>, k: nat)
    requires |a| <= k < |a + b|
    ensures (a + b)[k..|a + b| - 1] == b[k - |a|..|b| - 1]
  {
  }

  lemma NotHeavySettles(s: string)
    requires !Heavy(s)
    ensures SettlesAll([s])
  {
  }

  lemma {:induction false} RestSettlesAll(op: Op, operands: seq<Breakpoint>)
    requires forall o :: o in operands ==> Printable(o) && SettlesAll(Tokens(o))
    ensures SettlesAll(Rest(op, operands))
    decreases operands
  {
    hide SettlesAll, Tokens;
    if operands == [] {
      NothingSettles();
    } else {
      JoinerClean(op);
      NotHeavySettles(Joiner(op));
      SettlesAllConcat([Joiner(op)], Tokens(operands[0]));
      RestSettlesAll(op, operands[1..]);
      var rest := Rest(op, operands[1..]);
      if rest == [] {
        assert [Joiner(op)] + Tokens(operands[0]) + [] == [Joiner(op)] + Tokens(operands[0]);
      } else {
        SettlesAllConcat([Joiner(op)] + Tokens(operands[0]), rest);
      }
    }
  }

  lemma NothingSettles()
    ensures SettlesAll([])
  {
  }

  lemma EncloseSettlesAll(ts: seq<string>)
    requires |ts| >= 2 && AllClean(ts) && SettlesAll(ts) && (Opens(ts[0]) ==> Settles(ts[1..|ts| - 1], 1))
    ensures SettlesAll(Enclose(ts))
  {
    hide Settles, Heavy, Opens, Closes, Clean, Enclose;
    var r, n := Enclose(ts), |ts| - 1;
    EncloseClean(ts);
    forall k | 0 <= k <= n && Heavy(r[k]) ensures k < n && Settles(r[k + 1..n], 1) {
      if k == n {
        NotOpensNotHeavy(r[n]);
      } else if k > 0 {
        assert r[1..n][k - 1] == ts[1..n][k - 1] && r[k] == ts[k];
      }
      if k < n {
        assert r[k + 1..n] == r[1..n][k..] == ts[1..n][k..] == ts[k + 1..n];
      }
    }
  }

  lemma NotOpensNotHeavy(s: string)
    requires !Opens(s)
    ensures !Heavy(s)
  {
  }

  lemma {:induction false} TokensSettle(t: Breakpoint)
    requires Printable(t)
    ensures SettlesAll(Tokens(t))
    decreases t
  {
    hide SettlesAll, Settles, AllClean, Emit, Rest, Enclose, Opens, Heavy;
    if t.Group? {
      forall o | o in t.operands ensures Printable(o) && SettlesAll(Tokens(o)) {
        TokensSettle(o);
      }
      var first, rest := t.operands[0], Rest(t.op, t.operands[1..]);
      var inner := Inner(t.op, t.operands);
      RestEnds(t);
      RestSettlesAll(t.op, t.operands[1..]);
      SettlesAllConcat(Tokens(first), rest);
      TokensClean(t);
      InnerLong(t);
      if first.Group? {
        FirstSettles(first);
        assert inner[1..|inner| - 1] == Tokens(first)[1..] + rest[..|rest| - 1];
        SettlesConcat(Tokens(first)[1..], rest[..|rest| - 1], 1);
      } else {
        LeafBack(first);
        LeafWeight(Emit(first));
        LeafTokens(first);
        assert inner[0] == Tokens(first)[0];
      }
      EncloseSettlesAll(inner);
    } else {
      LeafBack(t);
      LeafWeight(Emit(t));
      NotOpensNotHeavy(Emit(t));
      NotHeavySettles(Emit(t));
    }
  }

  lemma PrintedTracked(t: Breakpoint)
    requires Printable(t)
    ensures Tracked(Tokens(t))
  {
    hide Settles, NoJump, Heavy, Bodied, Closes, Tokens, Emit, Spaced;
    var ts := Tokens(t);
    EmitIsTokens(t);
    TokensClean(t);
    TokensSettle(t);
    forall k | 0 <= k < |ts| ensures Shape(ts[k]) && Bodied(ts[k]) && (Heavy(ts[k]) ==> NoJump(ts[k + 1..], 1)) {
      CleanShape(ts[k]);
      if Heavy(ts[k]) {
        assert ts[k + 1..] == ts[k + 1..|ts| - 1] + [ts[|ts| - 1]];
        SettlesConcat(ts[k + 1..|ts| - 1], [ts[|ts| - 1]], 1);
      }
    }
  }

  lemma CleanShape(s: string)
    requires Clean(s)
    ensures Shape(s) && Bodied(s)
  {
  }

  /** What reading a printed breakpoint yields: the breakpoint without its unknown registers
      when it is leaf-first, and an error otherwise. So it is the same breakpoint exactly when
      it is leaf-first and knows all its registers. */
  lemma RoundTripExactly(t: Breakpoint)
    requires Printable(t)
    ensures if LeafFirst(t) then Parse(Emit(t)) == ReadBack(t) else Parse(Emit(t)).Failed?
    ensures Parse(Emit(t)) == Parsed(t) <==> LeafFirst(t) && KnownRegisters(t)
  {
    hide ParseFrom, Emit, LeafFirst, Tracked, Before, Split, Spaced, AreTokens, Tokens, Kept;
    if LeafFirst(t) {
      RoundTrip(t);
      KeptWhole(t);
    } else {
      var ts := Tokens(t);
      EmitIsTokens(t);
      SplitSpaced(ts);
      PrintedTracked(t);
      TokensEarly(t);
      assert ts[0..] == ts && Before(ts, 0);
      ParseFails(ts, 0, [], NotSet);
    }
  }

  /** Breakpoints that are not leaf-first do exist: the parser itself builds one from every
      text that joins a group with further operands, and then cannot read back what is
      printed for it. */
  lemma TypedButNotReadBack(op: Op, operands: seq<Breakpoint>)
    requires |operands| >= 2 && forall o :: o in operands ==> Printable(o) && LeafFirst(o) && KnownRegisters(o)
    requires operands[0].Group?
    ensures var t := Group(op, operands);
            && Parse(EmitAll(op, operands)) == Parsed(t)
            && Printable(t) && !LeafFirst(t)
            && Parse(Emit(t)).Failed?
  {
    hide Parse, Emit;
    TypedOperands(op, operands);
    KeptAllWhole(operands);
    RoundTripExactly(Group(op, operands));
  }

  /** Unknown registers exist, too: the parser takes any character after `MMR`. The breakpoint
      it builds from `R0=.. and MMR5=..` is read back without the second operand. */
  lemma TypedButLost(v: set<Word>, w: set<Word>)
    requires v != {} && w != {}
    ensures var t := Group(And, [Register(0, v), Register(MMR + 5, w)]);
            && Parse(EmitValues("R0", Sorted(v)) + " and " + EmitValues("MMR5", Sorted(w))) == Parsed(t)
            && Printable(t) && LeafFirst(t)
            && Parse(Emit(t)) == Parsed(Group(And, [Register(0, v)]))
  {
    hide Parse, Emit, EmitValues, Sorted;
    var first, second := Register(0, v), Register(MMR + 5, w);
    OddTyped(v, w);
    LeafPair(first, second);
    RoundTrip(Group(And, [first, second]));
    TwoKept(first, second);
    assert Kept(first) + Kept(second) == [first];
  }

  lemma LeafPair(first: Breakpoint, second: Breakpoint)
    requires Printable(first) && Printable(second) && !first.Group? && !second.Group?
    ensures Printable(Group(And, [first, second])) && LeafFirst(Group(And, [first, second]))
  {
  }

  lemma OddTyped(v: set<Word>, w: set<Word>)
    requires v != {} && w != {}
    ensures Parse(EmitValues("R0", Sorted(v)) + " and " + EmitValues("MMR5", Sorted(w))) ==
            Parsed(Group(And, [Register(0, v), Register(MMR + 5, w)]))
  {
    hide Parse, ParseFrom, Emit, EmitValues, ParseLeaf, Spaced, Sorted, AreTokens, LeafToken, Kept;
    var first, second := Register(0, v), Register(MMR + 5, w);
    var parts := [EmitValues("R0", Sorted(v)), "and", EmitValues("MMR5", Sorted(w))];
    OddRegister(w);
    FirstName(v);
    LeafBack(first);
    ThreeTokens(parts[0], parts[2]);
    ParseTokens(parts);
    LeafStep(parts, 0, first, [], NotSet);
    KeptWhole(first);
    assert [] + Kept(first) == [first];
    JoinerStep(parts, 1, And, [first], Single);
    OddStep(parts, w, [first]);
    assert [first] + [second] == [first, second];
    GroupAtEnd(parts, And, [first, second]);
  }

  lemma FirstName(v: set<Word>)
    ensures Emit(Register(0, v)) == EmitValues("R0", Sorted(v))
  {
    assert Name(0) == "R0";
  }

  lemma OddRegister(w: set<Word>)
    requires w != {}
    ensures var token := EmitValues("MMR5", Sorted(w));
            LeafToken(token) && ParseLeaf(token) == Leaves([Register(MMR + 5, w)])
  {
    hide EmitValues, Sorted, LeafToken, ParseRegister, ParseMemory, ParseInstruction;
    assert "MMR5"[..3] == "MMR";
    KeyAndValues("MMR5", w);
    assert RegisterFor("MMR5", w) == Found(Register(MMR + 5, w));
  }

  lemma ThreeTokens(a: string, b: string)
    requires LeafToken(a) && LeafToken(b)
    ensures AreTokens([a, "and", b], ' ') && Spaced([a, "and", b]) == a + " and " + b
  {
    hide Join;
    assert IsToken(a, ' ') && IsToken(b, ' ') && IsToken("and", ' ');
    JoinConcat([a], ["and"], ' ');
    JoinConcat([a, "and"], [b], ' ');
    assert [a] + ["and"] == [a, "and"] && [a, "and"] + [b] == [a, "and", b];
    JoinOne(a);
    JoinOne("and");
    JoinOne(b);
    assert a + [' '] + "and" + [' '] + b == a + ([' '] + "and" + [' ']) + b;
    assert [' '] + "and" + [' '] == " and ";
  }

  lemma OddStep(parts: seq<string>, w: set<Word>, parsed: seq<Breakpoint>)
    requires AreTokens(parts, ' ') && |parts| == 3 && parts[2] == EmitValues("MMR5", Sorted(w)) && LeafToken(parts[2])
    requires ParseLeaf(parts[2]) == Leaves([Register(MMR + 5, w)])
    ensures ParseFrom(parts, 2, parsed, All) == ParseFrom(parts, 3, parsed + [Register(MMR + 5, w)], All)
  {
    hide EmitValues, ParseLeaf, Spaced;
    LeafWeight(parts[2]);
  }

  lemma TwoKept(first: Breakpoint, second: Breakpoint)
    ensures KeptAll([first, second]) == Kept(first) + Kept(second)
  {
    assert [first, second][1..] == [second] && [second][1..] == [];
    assert Kept(second) + [] == Kept(second);
  }
}
