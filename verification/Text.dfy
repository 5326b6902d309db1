/** The parts of Go's `strings` and `unicode` packages that the models use, on text seen as a
    sequence of Unicode characters. */
module Text {

  // ---- white space ----

  /** unicode.IsSpace. */
  predicate IsSpace(c: char) {
    || '\t' <= c <= '\r'
    || c == ' ' || c == '\U{85}' || c == '\U{A0}' || c == '\U{1680}'
    || '\U{2000}' <= c <= '\U{200A}'
    || c == '\U{2028}' || c == '\U{2029}' || c == '\U{202F}' || c == '\U{205F}' || c == '\U{3000}'
  }

  predicate AllSpace(s: string) {
    forall i :: 0 <= i < |s| ==> IsSpace(s[i])
  }

  predicate NoSpace(s: string) {
    forall i :: 0 <= i < |s| ==> !IsSpace(s[i])
  }

  /** A non-empty text without white space: what strings.Fields yields. */
  predicate IsToken(s: string) {
    s != "" && NoSpace(s)
  }

  /** `s` ends the text or starts with white space, so no token runs into it. */
  predicate AtBoundary(s: string) {
    s == "" || IsSpace(s[0])
  }

  function TrimLeft(s: string): string {
    if s != "" && IsSpace(s[0]) then TrimLeft(s[1..]) else s
  }

  function TrimRight(s: string): string {
    if s != "" && IsSpace(s[|s| - 1]) then TrimRight(s[..|s| - 1]) else s
  }

  /** strings.TrimSpace. */
  function TrimSpace(s: string): string {
    TrimRight(TrimLeft(s))
  }

  /** How many characters `s` has before its first white space. */
  function TokenLength(s: string): (n: nat)
    ensures n <= |s| && NoSpace(s[..n]) && AtBoundary(s[n..])
  {
    if s == "" || IsSpace(s[0]) then 0 else 1 + TokenLength(s[1..])
  }

  lemma {:induction false} TrimLeftShape(s: string)
    ensures |TrimLeft(s)| <= |s|
    ensures var n := |s| - |TrimLeft(s)|; AllSpace(s[..n]) && s[n..] == TrimLeft(s)
    ensures TrimLeft(s) != "" ==> !IsSpace(TrimLeft(s)[0])
  {
    if s != "" && IsSpace(s[0]) {
      TrimLeftShape(s[1..]);
      var n := |s| - |TrimLeft(s)|;
      assert s[..n] == [s[0]] + s[1..][..n - 1];
    } else {
      assert s[0..] == s;
    }
  }

  lemma {:induction false} TrimRightShape(s: string)
    ensures |TrimRight(s)| <= |s|
    ensures var n := |TrimRight(s)|; AllSpace(s[n..]) && s[..n] == TrimRight(s)
    ensures TrimRight(s) != "" ==> !IsSpace(TrimRight(s)[|TrimRight(s)| - 1])
  {
    if s != "" && IsSpace(s[|s| - 1]) {
      var short := s[..|s| - 1];
      TrimRightShape(short);
      var n := |TrimRight(s)|;
      assert s[n..] == short[n..] + [s[|s| - 1]];
      assert s[..n] == short[..n];
    } else {
      assert s[..|s|] == s;
    }
  }

  /** TrimSpace removes white space at both ends and nothing else. */
  lemma TrimSpaceShape(s: string) returns (left: string, right: string)
    ensures s == left + TrimSpace(s) + right && AllSpace(left) && AllSpace(right)
  {
    TrimLeftShape(s);
    var inner := TrimLeft(s);
    TrimRightShape(inner);
    left := s[..|s| - |inner|];
    right := inner[|TrimRight(inner)|..];
    assert s == left + inner && inner == TrimSpace(s) + right;
  }

  lemma {:induction false} TrimLeftSkips(space: string, s: string)
    requires AllSpace(space)
    requires s == "" || !IsSpace(s[0])
    ensures TrimLeft(space + s) == s
  {
    if space == "" {
      assert space + s == s;
    } else {
      TrimLeftSkips(space[1..], s);
      assert (space + s)[1..] == space[1..] + s;
    }
  }

  lemma {:induction false} TrimRightKeeps(s: string, tail: string)
    requires s != "" && !IsSpace(s[|s| - 1])
    ensures TrimRight(s + tail) == s + TrimRight(tail)
  {
    if tail == "" {
      assert s + tail == s;
    } else if IsSpace(tail[|tail| - 1]) {
      var short := tail[..|tail| - 1];
      TrimRightKeeps(s, short);
      assert (s + tail)[..|s + tail| - 1] == s + short;
    }
  }

  /** Text that neither starts nor ends with white space survives any white padding. */
  lemma TrimSpaceOfPadded(left: string, s: string, right: string)
    requires AllSpace(left) && AllSpace(right)
    requires s != "" && !IsSpace(s[0]) && !IsSpace(s[|s| - 1])
    ensures TrimSpace(left + s + right) == s
  {
    assert left + s + right == left + (s + right);
    TrimLeftSkips(left, s + right);
    TrimRightKeeps(s, right);
    TrimRightOfSpace(right);
  }

  lemma {:induction false} TrimRightOfSpace(s: string)
    requires AllSpace(s)
    ensures TrimRight(s) == ""
  {
    if s != "" {
      TrimRightOfSpace(s[..|s| - 1]);
    }
  }

  // ---- fields ----

  /** strings.Fields: the maximal runs of characters that are not white space. */
  function Fields(s: string): seq<string>
    decreases |s|
  {
    TrimLeftShape(s);
    var rest := TrimLeft(s);
    if rest == "" then []
    else
      var n := TokenLength(rest);
      [rest[..n]] + Fields(rest[n..])
  }

  lemma {:induction false} TokenLengthOf(token: string, rest: string)
    requires NoSpace(token) && AtBoundary(rest)
    ensures TokenLength(token + rest) == |token|
  {
    if token == "" {
      assert token + rest == rest;
    } else {
      TokenLengthOf(token[1..], rest);
      assert (token + rest)[1..] == token[1..] + rest;
    }
  }

  lemma FieldsOfSpace(s: string)
    requires AllSpace(s)
    ensures Fields(s) == []
  {
    TrimLeftSkips(s, "");
    assert s + "" == s;
  }

  /** The first field is the first token after leading white space. */
  lemma FieldsFirst(space: string, token: string, rest: string)
    requires AllSpace(space) && IsToken(token) && AtBoundary(rest)
    ensures Fields(space + token + rest) == [token] + Fields(rest)
  {
    var s := space + token + rest;
    assert s == space + (token + rest);
    TrimLeftSkips(space, token + rest);
    TokenLengthOf(token, rest);
    assert (token + rest)[..|token|] == token && (token + rest)[|token|..] == rest;
  }

  lemma FieldsShape(s: string) returns (space: string, rest: string)
    requires Fields(s) != []
    ensures var token := Fields(s)[0];
            && s == space + token + rest && AllSpace(space) && IsToken(token) && AtBoundary(rest)
            && Fields(s) == [token] + Fields(rest)
  {
    TrimLeftShape(s);
    var inner := TrimLeft(s);
    var n := TokenLength(inner);
    space, rest := s[..|s| - |inner|], inner[n..];
    assert inner == inner[..n] + rest;
  }

  // ---- searching ----

  predicate OccursAt(s: string, sub: string, i: nat) {
    i + |sub| <= |s| && s[i..i + |sub|] == sub
  }

  /** strings.Index: the first position at which `sub` occurs, or -1. */
  function IndexOf(s: string, sub: string): (i: int)
    ensures i == -1 || (0 <= i && OccursAt(s, sub, i))
    ensures forall j: nat :: OccursAt(s, sub, j) ==> 0 <= i <= j
  {
    IndexFrom(s, sub, 0)
  }

  function IndexFrom(s: string, sub: string, from: nat): (i: int)
    requires forall j: nat :: j < from ==> !OccursAt(s, sub, j)
    ensures i == -1 || (0 <= i && OccursAt(s, sub, i))
    ensures forall j: nat :: OccursAt(s, sub, j) ==> 0 <= i <= j
    decreases |s| - from
  {
    if from + |sub| > |s| then -1
    else if s[from..from + |sub|] == sub then from
    else IndexFrom(s, sub, from + 1)
  }

  lemma IndexOfFirst(s: string, sub: string, i: nat)
    requires OccursAt(s, sub, i)
    requires forall j: nat :: j < i ==> !OccursAt(s, sub, j)
    ensures IndexOf(s, sub) == i
  {
  }

  // ---- lists of texts ----

  function Concat(parts: seq<string>): string {
    if parts == [] then "" else parts[0] + Concat(parts[1..])
  }

  lemma EmptyConcat()
    ensures Concat([]) == ""
  {
  }

  lemma ConcatCons(parts: seq<string>)
    requires parts != []
    ensures Concat(parts) == parts[0] + Concat(parts[1..])
  {
  }

  lemma {:induction false} ConcatAppend(a: seq<string>, b: seq<string>)
    ensures Concat(a + b) == Concat(a) + Concat(b)
  {
    hide Concat;
    if a == [] {
      assert a + b == b;
      EmptyConcat();
    } else {
      ConcatAppend(a[1..], b);
      assert (a + b)[1..] == a[1..] + b;
      ConcatCons(a);
      ConcatCons(a + b);
    }
  }

  lemma ConcatAround(parts: seq<string>, k: nat)
    requires k < |parts|
    ensures Concat(parts) == Concat(parts[..k]) + parts[k] + Concat(parts[k + 1..])
  {
    var tail := parts[k..];
    assert parts == parts[..k] + tail && tail[1..] == parts[k + 1..];
    ConcatAppend(parts[..k], tail);
  }

  // ---- splitting ----

  predicate Free(s: string, c: char) {
    forall i :: 0 <= i < |s| ==> s[i] != c
  }

  /** How many characters `s` has before its first `c`; |s| when there is none. */
  function Until(s: string, c: char): (n: nat)
    ensures n <= |s| && Free(s[..n], c)
    ensures n < |s| ==> s[n] == c
  {
    if s == "" || s[0] == c then 0 else 1 + Until(s[1..], c)
  }

  lemma {:induction false} UntilOf(part: string, c: char, rest: string)
    requires Free(part, c) && (rest == "" || rest[0] == c)
    ensures Until(part + rest, c) == |part|
  {
    if part == "" {
      assert part + rest == rest;
    } else {
      UntilOf(part[1..], c, rest);
      assert (part + rest)[1..] == part[1..] + rest;
    }
  }

  /** strings.Split with a one-character separator. */
  function Split(s: string, sep: char): (parts: seq<string>)
    ensures |parts| >= 1
    decreases |s|
  {
    var n := Until(s, sep);
    if n == |s| then [s] else [s[..n]] + Split(s[n + 1..], sep)
  }

  /** strings.Join with a one-character separator. */
  function Join(parts: seq<string>, sep: char): string
    requires |parts| >= 1
  {
    if |parts| == 1 then parts[0] else parts[0] + [sep] + Join(parts[1..], sep)
  }

  ghost predicate AllFree(parts: seq<string>, c: char) {
    forall i :: 0 <= i < |parts| ==> Free(parts[i], c)
  }

  lemma {:induction false} SplitIsFree(s: string, sep: char)
    ensures AllFree(Split(s, sep), sep)
    decreases |s|
  {
    var n := Until(s, sep);
    if n == |s| {
      assert s[..n] == s;
    } else {
      SplitIsFree(s[n + 1..], sep);
    }
  }

  lemma JoinCons(head: string, rest: seq<string>, sep: char)
    requires |rest| >= 1
    ensures Join([head] + rest, sep) == head + [sep] + Join(rest, sep)
    ensures Join([head], sep) == head
  {
    assert ([head] + rest)[1..] == rest;
  }

  lemma SplitStep(s: string, sep: char)
    ensures var n := Until(s, sep);
            if n == |s| then Split(s, sep) == [s]
            else Split(s, sep) == [s[..n]] + Split(s[n + 1..], sep)
  {
    hide Until, Free;
  }

  lemma {:induction false} SplitThenJoin(s: string, sep: char)
    ensures Join(Split(s, sep), sep) == s
    decreases |s|
  {
    hide Split, Join;
    SplitStep(s, sep);
    var n := Until(s, sep);
    if n < |s| {
      SplitThenJoin(s[n + 1..], sep);
      JoinCons(s[..n], Split(s[n + 1..], sep), sep);
      assert s == s[..n] + [sep] + s[n + 1..];
    } else {
      JoinCons(s, [s], sep);
    }
  }

  lemma {:induction false} JoinThenSplit(parts: seq<string>, sep: char)
    requires |parts| >= 1 && AllFree(parts, sep)
    ensures Split(Join(parts, sep), sep) == parts
  {
    var head := parts[0];
    if |parts| == 1 {
      UntilOf(head, sep, "");
      assert head + "" == head;
    } else {
      var tail := Join(parts[1..], sep);
      var s := head + [sep] + tail;
      UntilOf(head, sep, [sep] + tail);
      assert s == head + ([sep] + tail);
      JoinThenSplit(parts[1..], sep);
      assert s[..|head|] == head && s[|head| + 1..] == tail;
      assert parts == [head] + parts[1..];
    }
  }

  /** strings.SplitAfter with "\n": lines that keep their line feed. */
  function SplitAfter(s: string): (lines: seq<string>)
    ensures |lines| >= 1
    decreases |s|
  {
    var n := Until(s, '\n');
    if n == |s| then [s] else [s[..n + 1]] + SplitAfter(s[n + 1..])
  }

  /** `line` is text without line feeds followed by one line feed. */
  predicate IsLine(line: string) {
    line != "" && line[|line| - 1] == '\n' && Free(line[..|line| - 1], '\n')
  }

  /** What SplitAfter yields: complete lines, then a remainder without a line feed. */
  ghost predicate AreLines(lines: seq<string>) {
    && |lines| >= 1
    && (forall i :: 0 <= i < |lines| - 1 ==> IsLine(lines[i]))
    && Free(lines[|lines| - 1], '\n')
  }

  lemma {:induction false} SplitAfterShape(s: string)
    ensures AreLines(SplitAfter(s)) && Concat(SplitAfter(s)) == s
    decreases |s|
  {
    var n := Until(s, '\n');
    if n == |s| {
      assert s[..n] == s;
      assert Concat([s]) == s;
    } else {
      var rest := SplitAfter(s[n + 1..]);
      SplitAfterShape(s[n + 1..]);
      assert s[..n + 1][..n] == s[..n];
      assert SplitAfter(s) == [s[..n + 1]] + rest;
      assert ([s[..n + 1]] + rest)[1..] == rest;
      assert s == s[..n + 1] + s[n + 1..];
    }
  }

  lemma SplitAfterStep(head: string, tail: string)
    requires IsLine(head)
    ensures SplitAfter(head + tail) == [head] + SplitAfter(tail)
  {
    hide Free;
    var n, s := |head| - 1, head + tail;
    UntilOf(head[..n], '\n', ['\n'] + tail);
    assert s == head[..n] + (['\n'] + tail);
    assert s[..n + 1] == head && s[n + 1..] == tail;
  }

  lemma SplitAfterLast(line: string)
    requires Free(line, '\n')
    ensures SplitAfter(line) == [line]
  {
    UntilOf(line, '\n', "");
    assert line + "" == line;
  }

  lemma {:induction false} SplitAfterOf(lines: seq<string>)
    requires AreLines(lines)
    ensures SplitAfter(Concat(lines)) == lines
  {
    hide SplitAfter, Concat, IsLine, Free;
    var head, rest := lines[0], lines[1..];
    ConcatCons(lines);
    if rest == [] {
      EmptyConcat();
      assert head + "" == head;
      SplitAfterLast(head);
      assert lines == [head];
    } else {
      SplitAfterStep(head, Concat(rest));
      SplitAfterOf(rest);
      assert lines == [head] + rest;
    }
  }
}
