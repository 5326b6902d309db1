/** `replaceFrameworkRequirement` (internal/scaffold/scaffold.go): the line-oriented reader and
    editor of the framework requirement in a go.mod text. */
module GoMod {
  import opened Text

  const WAHOO: string := "github.com/bjarneo/wahoo"

  const REQUIRE: string := "require "

  const OPEN: string := "require ("

  datatype Error = Duplicate | Missing | NotLocated

  datatype Result = Ok(current: string, text: string) | Err(error: Error)

  // ---- one line ----

  datatype Line = OpenBlock | CloseBlock | Requires(version: string) | Other

  /** The part of a trimmed line that may name a requirement. */
  function Candidate(trimmed: string, inBlock: bool): string {
    if inBlock then trimmed
    else if REQUIRE <= trimmed then TrimSpace(trimmed[|REQUIRE|..])
    else ""
  }

  function Classify(line: string, inBlock: bool): Line {
    var trimmed := TrimSpace(line);
    if OPEN <= trimmed then OpenBlock
    else if inBlock && trimmed == ")" then CloseBlock
    else
      var fields := Fields(Candidate(trimmed, inBlock));
      if |fields| < 2 || fields[0] != WAHOO then Other else Requires(fields[1])
  }

  function BlockAfter(line: Line, inBlock: bool): bool {
    match line
    case OpenBlock => true
    case CloseBlock => false
    case _ => inBlock
  }

  /** The module path, white space and a version. */
  function Core(path: string, gap: string, version: string): string {
    path + gap + version
  }

  ghost predicate IsCore(path: string, gap: string, version: string) {
    IsToken(path) && AllSpace(gap) && gap != "" && IsToken(version)
  }

  /** What a line that requires the framework looks like: the module path, white space and the
      version, with nothing but white space and, outside a block, the keyword before them. */
  ghost predicate Shaped(line: string, inBlock: bool, lead: string, gap: string, version: string, rest: string) {
    && line == lead + Core(WAHOO, gap, version) + rest
    && IsCore(WAHOO, gap, version)
    && AtBoundary(rest)
    && LeadShaped(lead, inBlock)
  }

  ghost predicate LeadShaped(lead: string, inBlock: bool) {
    if inBlock then AllSpace(lead) else KeywordLead(lead)
  }

  ghost predicate KeywordLead(lead: string) {
    exists a, b :: AllSpace(a) && AllSpace(b) && lead == a + (REQUIRE + b)
  }

  /** Two leading fields give the text its shape. */
  lemma PairShape(s: string) returns (space: string, gap: string, rest: string)
    requires |Fields(s)| >= 2
    ensures IsCore(Fields(s)[0], gap, Fields(s)[1])
    ensures s == space + Core(Fields(s)[0], gap, Fields(s)[1]) + rest
    ensures AllSpace(space) && AtBoundary(rest)
  {
    hide Fields, IsSpace;
    var tail;
    space, tail := FieldsShape(s);
    gap, rest := FieldsShape(tail);
    assert IsSpace(tail[0]) && tail[0] == (gap + Fields(s)[1])[0];
  }

  /** Text of that shape has those two leading fields. */
  lemma PairFields(path: string, gap: string, version: string, rest: string)
    requires IsCore(path, gap, version) && AtBoundary(rest)
    ensures Fields(Core(path, gap, version) + rest) == [path, version] + Fields(rest)
  {
    hide Fields, NoSpace;
    var tail := gap + version + rest;
    assert Core(path, gap, version) + rest == "" + path + tail;
    FieldsFirst("", path, tail);
    FieldsFirst(gap, version, rest);
  }

  lemma Widen(left: string, space: string, core: string, tail: string, right: string)
    ensures left + (space + core + tail) + right == (left + space) + core + (tail + right)
  {
  }

  lemma BlockShape(line: string) returns (lead: string, gap: string, rest: string)
    requires Classify(line, true).Requires?
    ensures Shaped(line, true, lead, gap, Classify(line, true).version, rest)
  {
    var version := Classify(line, true).version;
    var left, right := TrimSpaceShape(line);
    var space, tail;
    space, gap, tail := PairShape(TrimSpace(line));
    lead, rest := left + space, tail + right;
    Widen(left, space, Core(WAHOO, gap, version), tail, right);
  }

  lemma KeywordShape(line: string) returns (lead: string, gap: string, rest: string)
    requires Classify(line, false).Requires?
    ensures Shaped(line, false, lead, gap, Classify(line, false).version, rest)
  {
    var trimmed, version := TrimSpace(line), Classify(line, false).version;
    FieldsOfSpace("");
    var left, right := TrimSpaceShape(line);
    var after := trimmed[|REQUIRE|..];
    var inLeft, inRight := TrimSpaceShape(after);
    var space, tail;
    space, gap, tail := PairShape(TrimSpace(after));
    var core := Core(WAHOO, gap, version);
    Widen(inLeft, space, core, tail, inRight);
    lead, rest := KeywordLine(line, left, trimmed, inLeft + space, core, tail + inRight, right);
  }

  lemma KeywordLine(line: string, left: string, trimmed: string, b: string, core: string, t: string, right: string)
    returns (lead: string, rest: string)
    requires line == left + trimmed + right && REQUIRE <= trimmed
    requires trimmed[|REQUIRE|..] == b + core + t
    requires AllSpace(left) && AllSpace(b) && AllSpace(right) && AtBoundary(t)
    ensures line == lead + core + rest && KeywordLead(lead) && AtBoundary(rest)
  {
    var keyword := REQUIRE;
    assert trimmed == keyword + (b + core + t);
    Widen(keyword, b, core, t, right);
    lead, rest := left + (keyword + b), t + right;
    assert line == left + (keyword + b + core + (t + right));
  }

  lemma RequirementShape(line: string, inBlock: bool) returns (lead: string, gap: string, rest: string)
    requires Classify(line, inBlock).Requires?
    ensures Shaped(line, inBlock, lead, gap, Classify(line, inBlock).version, rest)
  {
    if inBlock {
      lead, gap, rest := BlockShape(line);
    } else {
      lead, gap, rest := KeywordShape(line);
    }
  }

  /** White space at the end of a text goes; what is left still ends at a boundary. */
  lemma TrimmedTail(core: string, rest: string) returns (kept: string, right: string)
    requires core != "" && !IsSpace(core[|core| - 1]) && AtBoundary(rest)
    ensures rest == kept + right && AllSpace(right) && AtBoundary(kept)
    ensures !IsSpace((core + kept)[|core + kept| - 1])
  {
    TrimRightShape(rest);
    kept := TrimRight(rest);
    right := rest[|kept|..];
  }

  lemma CoreEnds(path: string, gap: string, version: string)
    requires IsCore(path, gap, version)
    ensures var core := Core(path, gap, version);
            core != "" && !IsSpace(core[|core| - 1]) && path <= core && core[0] == path[0]
  {
    hide IsSpace;
    var core := Core(path, gap, version);
    assert core[|core| - 1] == version[|version| - 1];
  }

  /** A trimmed text that starts with a path, white space and a version. */
  lemma TrimmedPair(path: string, gap: string, version: string, rest: string)
    returns (pair: string, right: string)
    requires IsCore(path, gap, version) && AtBoundary(rest)
    ensures Core(path, gap, version) + rest == pair + right && AllSpace(right)
    ensures path <= pair && !IsSpace(pair[|pair| - 1])
    ensures |Fields(pair)| >= 2 && Fields(pair)[0] == path && Fields(pair)[1] == version
  {
    hide Fields, Core, IsCore, IsSpace;
    var core := Core(path, gap, version);
    CoreEnds(path, gap, version);
    var kept;
    kept, right := TrimmedTail(core, rest);
    pair := core + kept;
    PairFields(path, gap, version, kept);
  }

  lemma ShapedInBlock(line: string, lead: string, gap: string, version: string, rest: string)
    requires Shaped(line, true, lead, gap, version, rest)
    ensures Classify(line, true) == Requires(version)
  {
    hide Fields, TrimSpace, Core;
    var pair, right := TrimmedPair(WAHOO, gap, version, rest);
    assert line == lead + (Core(WAHOO, gap, version) + rest);
    assert line == lead + pair + right;
    assert pair[0] == WAHOO[0];
    TrimSpaceOfPadded(lead, pair, right);
  }

  lemma TrimKeyword(line: string, lead: string, pair: string, right: string) returns (b: string)
    requires line == lead + (pair + right) && KeywordLead(lead) && AllSpace(right)
    requires pair != "" && !IsSpace(pair[0]) && !IsSpace(pair[|pair| - 1])
    ensures AllSpace(b) && TrimSpace(line) == REQUIRE + (b + pair)
    ensures TrimSpace(b + pair) == pair
  {
    var a;
    a, b :| AllSpace(a) && AllSpace(b) && lead == a + (REQUIRE + b);
    var trimmed := REQUIRE + (b + pair);
    assert line == a + trimmed + right;
    TrimSpaceOfPadded(a, trimmed, right);
    assert b + pair + "" == b + pair;
    TrimSpaceOfPadded(b, pair, "");
  }

  lemma ShapedKeyword(line: string, lead: string, gap: string, version: string, rest: string)
    requires Shaped(line, false, lead, gap, version, rest)
    ensures Classify(line, false) == Requires(version)
  {
    hide Fields, TrimSpace, Core, KeywordLead;
    var pair, right := TrimmedPair(WAHOO, gap, version, rest);
    assert line == lead + (Core(WAHOO, gap, version) + rest);
    assert line == lead + (pair + right);
    assert pair[0] == WAHOO[0];
    var b := TrimKeyword(line, lead, pair, right);
    assert TrimSpace(line)[|REQUIRE|..] == b + pair;
    assert TrimSpace(line)[|REQUIRE|] == (b + pair)[0];
  }

  lemma ShapedClassifies(line: string, inBlock: bool, lead: string, gap: string, version: string, rest: string)
    requires Shaped(line, inBlock, lead, gap, version, rest)
    ensures Classify(line, inBlock) == Requires(version)
  {
    if inBlock {
      ShapedInBlock(line, lead, gap, version, rest);
    } else {
      ShapedKeyword(line, lead, gap, version, rest);
    }
  }

  // ---- editing one line ----

  /** Where the edit lands: the version's first occurrence after the module path's first one. */
  function VersionOffset(line: string, version: string): (i: int)
    ensures i == -1 || (0 <= i && OccursAt(line, version, i))
  {
    var path := IndexOf(line, WAHOO);
    if path < 0 then -1
    else
      var tail := line[path + |WAHOO|..];
      var offset := IndexOf(tail, version);
      if offset < 0 then -1
      else
        assert tail[offset..offset + |version|] == line[path + |WAHOO| + offset..][..|version|];
        path + |WAHOO| + offset
  }

  lemma LeadHasNoPath(lead: string, inBlock: bool)
    requires LeadShaped(lead, inBlock)
    ensures forall i :: 0 <= i < |lead| ==> lead[i] != WAHOO[0]
  {
  }

  lemma FirstOccurrence(lead: string, sub: string, rest: string)
    requires sub != "" && forall i :: 0 <= i < |lead| ==> lead[i] != sub[0]
    ensures IndexOf(lead + (sub + rest), sub) == |lead|
  {
    var s := lead + (sub + rest);
    assert OccursAt(s, sub, |lead|);
    forall j: nat | j < |lead|
      ensures !OccursAt(s, sub, j)
    {
      assert s[j] == lead[j];
    }
    IndexOfFirst(s, sub, |lead|);
  }

  lemma OffsetOf(line: string, path: string, lead: string, gap: string, version: string, rest: string)
    requires IsCore(path, gap, version) && line == lead + Core(path, gap, version) + rest
    requires forall i :: 0 <= i < |lead| ==> lead[i] != path[0]
    ensures IndexOf(line, path) == |lead|
    ensures line[|lead| + |path|..] == gap + (version + rest)
    ensures IndexOf(gap + (version + rest), version) == |gap|
    ensures line == (lead + path + gap) + version + rest
  {
    var tail := gap + (version + rest);
    assert line == lead + (path + tail);
    FirstOccurrence(lead, path, tail);
    FirstOccurrence(gap, version, rest);
  }

  /** On a line of the requirement shape the edit lands on the version and nowhere else, so the
      "locate Wahoo version" failure cannot happen. */
  lemma VersionLocated(line: string, inBlock: bool, lead: string, gap: string, version: string, rest: string)
    requires Shaped(line, inBlock, lead, gap, version, rest)
    ensures IndexOf(line, WAHOO) == |lead| && IndexOf(line[|lead + WAHOO|..], version) == |gap|
    ensures VersionOffset(line, version) == |lead + WAHOO + gap|
    ensures line == (lead + WAHOO + gap) + version + rest
  {
    LeadHasNoPath(lead, inBlock);
    OffsetOf(line, WAHOO, lead, gap, version, rest);
  }

  /** The line with the text at `at` of the old version's length replaced. */
  function Spliced(line: string, at: nat, version: string, replacement: string): string
    requires at + |version| <= |line|
  {
    line[..at] + replacement + line[at + |version|..]
  }

  lemma SplicedIs(line: string, prefix: string, version: string, rest: string, replacement: string)
    requires line == prefix + version + rest
    ensures Spliced(line, |prefix|, version, replacement) == prefix + replacement + rest
  {
    assert line[..|prefix|] == prefix && line[|prefix| + |version|..] == rest;
  }

  /** The edited line still has the requirement shape, now with the new version. */
  lemma EditKeepsShape(line: string, inBlock: bool, lead: string, gap: string, version: string, rest: string,
                       replacement: string)
    requires Shaped(line, inBlock, lead, gap, version, rest) && IsToken(replacement)
    ensures IsToken(version)
    ensures VersionOffset(line, version) == |lead + WAHOO + gap|
    ensures line == (lead + WAHOO + gap) + version + rest
    ensures var edited := Spliced(line, |lead + WAHOO + gap|, version, replacement);
            && edited == (lead + WAHOO + gap) + replacement + rest
            && Shaped(edited, inBlock, lead, gap, replacement, rest)
            && Classify(edited, inBlock) == Requires(replacement)
  {
    hide Classify;
    VersionLocated(line, inBlock, lead, gap, version, rest);
    SplicedIs(line, lead + WAHOO + gap, version, rest, replacement);
    ReCore(lead, WAHOO, gap, replacement, rest);
    var edited := Spliced(line, |lead + WAHOO + gap|, version, replacement);
    ShapedClassifies(edited, inBlock, lead, gap, replacement, rest);
  }

  lemma ReCore(lead: string, path: string, gap: string, version: string, rest: string)
    ensures (lead + path + gap) + version + rest == lead + Core(path, gap, version) + rest
  {
  }

  // ---- the whole text ----

  datatype Requirement = Requirement(line: nat, version: string)

  /** The block state before line `index`. */
  function BlockAt(lines: seq<string>, index: nat): bool
    requires index <= |lines|
  {
    if index == 0 then false
    else BlockAfter(Classify(lines[index - 1], BlockAt(lines, index - 1)), BlockAt(lines, index - 1))
  }

  /** The framework requirements on the first `index` lines, in order. */
  function Requirements(lines: seq<string>, index: nat): (rs: seq<Requirement>)
    requires index <= |lines|
    ensures forall i :: 0 <= i < |rs| ==> rs[i].line < index
  {
    if index == 0 then []
    else
      var earlier := Requirements(lines, index - 1);
      var line := Classify(lines[index - 1], BlockAt(lines, index - 1));
      if line.Requires? then earlier + [Requirement(index - 1, line.version)] else earlier
  }

  /** What the function computes, said with the list of all requirements: exactly one must exist,
      and the text changes at its version. */
  function Replaced(data: string, replacement: string): Result {
    var lines := SplitAfter(data);
    var found := Requirements(lines, |lines|);
    if found == [] then Err(Missing)
    else if |found| > 1 then Err(Duplicate)
    else if replacement == "" || replacement == found[0].version then Ok(found[0].version, data)
    else
      var line := lines[found[0].line];
      var at := VersionOffset(line, found[0].version);
      if at < 0 then Err(NotLocated)
      else
        Ok(found[0].version,
           Concat(lines[found[0].line := Spliced(line, at, found[0].version, replacement)]))
  }

  lemma {:induction false} RequirementsGrow(lines: seq<string>, index: nat, later: nat)
    requires index <= later <= |lines|
    ensures Requirements(lines, index) <= Requirements(lines, later)
    decreases later
  {
    hide Classify;
    if index < later {
      RequirementsGrow(lines, index, later - 1);
    }
  }

  lemma {:induction false} RequirementIs(lines: seq<string>, index: nat, i: nat)
    requires index <= |lines| && i < |Requirements(lines, index)|
    ensures var r := Requirements(lines, index)[i];
            Classify(lines[r.line], BlockAt(lines, r.line)) == Requires(r.version)
  {
    hide Classify;
    if i < |Requirements(lines, index - 1)| {
      RequirementIs(lines, index - 1, i);
    }
  }

  /** scaffold.go's loop: it edits the line list while it scans and stops at a second requirement. */
  method ReplaceFrameworkRequirement(data: string, replacement: string) returns (r: Result)
    ensures r == Replaced(data, replacement)
  {
    hide Classify, Fields, TrimSpace, SplitAfter, Concat, IndexOf, IsToken, Requirements, BlockAt,
         Shaped, Spliced, VersionOffset, AreLines, AllSpace;
    var lines := SplitAfter(data);
    ghost var original := lines;
    SplitAfterShape(data);
    ScanStart(original);
    var inRequireBlock, found, current := false, 0, "";
    for index := 0 to |lines|
      invariant |lines| == |original| && forall i :: index <= i < |lines| ==> lines[i] == original[i]
      invariant inRequireBlock == BlockAt(original, index)
      invariant found == |Requirements(original, index)| <= 1
      invariant found == 0 ==> lines == original
      invariant found == 1 ==> Edited(original, Requirements(original, index)[0], replacement, lines)
      invariant found == 1 ==> current == Requirements(original, index)[0].version
    {
      var line := lines[index];
      var trimmed := TrimSpace(line);
      ClassifyBranches(line, inRequireBlock);
      ScanStep(original, index);
      if OPEN <= trimmed {
        inRequireBlock := true;
        continue;
      }
      if inRequireBlock && trimmed == ")" {
        inRequireBlock := false;
        continue;
      }
      var candidate := "";
      if inRequireBlock {
        candidate := trimmed;
      } else if REQUIRE <= trimmed {
        candidate := TrimSpace(trimmed[|REQUIRE|..]);
      }
      var fields := Fields(candidate);
      if |fields| < 2 || fields[0] != WAHOO {
        continue;
      }
      found := found + 1;
      assert Requirements(original, index + 1)[found - 1] == Requirement(index, fields[1]);
      RequirementsGrow(original, index + 1, |original|);
      if found > 1 {
        return Err(Duplicate);
      }
      current := fields[1];
      if replacement == "" || replacement == current {
        continue;
      }
      ghost var lead, gap, rest := RequirementShape(line, inRequireBlock);
      VersionLocated(line, inRequireBlock, lead, gap, current, rest);
      var moduleOffset := IndexOf(line, WAHOO) + |WAHOO|;
      var versionOffset := IndexOf(line[moduleOffset..], current);
      if versionOffset < 0 {
        return Err(NotLocated);
      }
      versionOffset := versionOffset + moduleOffset;
      lines := lines[index := Spliced(line, versionOffset, current, replacement)];
    }
    if found == 0 {
      return Err(Missing);
    }
    return Ok(current, Concat(lines));
  }

  lemma ScanStart(lines: seq<string>)
    ensures BlockAt(lines, 0) == false && Requirements(lines, 0) == []
  {
  }

  lemma ScanStep(lines: seq<string>, index: nat)
    requires index < |lines|
    ensures var line := Classify(lines[index], BlockAt(lines, index));
            && BlockAt(lines, index + 1) == BlockAfter(line, BlockAt(lines, index))
            && Requirements(lines, index + 1)
               == Requirements(lines, index) + if line.Requires? then [Requirement(index, line.version)] else []
  {
    hide Classify;
  }

  lemma ClassifyBranches(line: string, inBlock: bool)
    ensures var trimmed := TrimSpace(line);
            var fields := Fields(Candidate(trimmed, inBlock));
            Classify(line, inBlock)
            == if OPEN <= trimmed then OpenBlock
               else if inBlock && trimmed == ")" then CloseBlock
               else if |fields| < 2 || fields[0] != WAHOO then Other
               else Requires(fields[1])
  {
  }

  /** The line list after the one edit that `r` asks for. */
  ghost predicate Edited(original: seq<string>, r: Requirement, replacement: string, lines: seq<string>) {
    && r.line < |original|
    && if replacement == "" || replacement == r.version then lines == original
       else
         var at := VersionOffset(original[r.line], r.version);
         0 <= at && lines == original[r.line := Spliced(original[r.line], at, r.version, replacement)]
  }

  // ---- the theorem about one edit ----

  lemma {:induction false} ScanOfEdited(lines: seq<string>, k: nat, version: string, edited: string,
                                        replacement: string, index: nat)
    requires index <= |lines| && k < |lines|
    requires Requirements(lines, |lines|) == [Requirement(k, version)]
    requires Classify(edited, BlockAt(lines, k)) == Requires(replacement)
    ensures BlockAt(lines[k := edited], index) == BlockAt(lines, index)
    ensures Requirements(lines[k := edited], index) == if index <= k then [] else [Requirement(k, replacement)]
    ensures Requirements(lines, index) == if index <= k then [] else [Requirement(k, version)]
    decreases index
  {
    hide Classify;
    RequirementIs(lines, |lines|, 0);
    RequirementsGrow(lines, index, |lines|);
    if index > 0 {
      ScanOfEdited(lines, k, version, edited, replacement, index - 1);
    }
  }

  lemma EditedLinesAreLines(lines: seq<string>, k: nat, prefix: string, version: string, rest: string,
                            replacement: string)
    requires AreLines(lines) && k < |lines|
    requires lines[k] == prefix + version + rest && IsToken(version) && IsToken(replacement)
    ensures AreLines(lines[k := prefix + replacement + rest])
  {
    var edited := prefix + replacement + rest;
    if k < |lines| - 1 {
      LineKeepsFeed(prefix, version, rest, replacement);
    } else {
      assert forall i :: 0 <= i < |prefix| ==> prefix[i] == lines[k][i];
      assert forall i :: 0 <= i < |rest| ==> rest[i] == lines[k][|prefix| + |version| + i];
    }
  }

  lemma RestKeepsFeed(prefix: string, version: string, rest: string)
    requires IsLine(prefix + version + rest) && IsToken(version)
    ensures rest != "" && rest[|rest| - 1] == '\n'
  {
    var line, tail := prefix + version + rest, version + rest;
    assert line == prefix + tail;
    assert IsSpace(tail[|tail| - 1]);
    assert rest == "" ==> tail == version;
  }

  lemma LineKeepsFeed(prefix: string, version: string, rest: string, replacement: string)
    requires IsLine(prefix + version + rest) && IsToken(version) && IsToken(replacement)
    ensures IsLine(prefix + replacement + rest)
  {
    var line, edited := prefix + version + rest, prefix + replacement + rest;
    RestKeepsFeed(prefix, version, rest);
    assert line[|line| - 1] == rest[|rest| - 1];
    assert forall i :: 0 <= i < |prefix| ==> prefix[i] == line[..|line| - 1][i];
    assert forall i :: 0 <= i < |rest| - 1 ==> rest[i] == line[..|line| - 1][|prefix| + |version| + i];
  }

  /** The text p + v + s with the token v left open: whatever token stands there, it is the one
      requirement that is read, and a replacement changes it and nothing else. */
  ghost predicate Hole(p: string, s: string) {
    forall v, w :: IsToken(v) && (w == "" || IsToken(w)) ==> Fills(p, s, v, w)
  }

  ghost predicate Fills(p: string, s: string, v: string, w: string) {
    Replaced(p + v + s, w) == Ok(v, p + (if w == "" then v else w) + s)
  }

  /** The lines around line k, with a requirement of the given shape on it. */
  ghost predicate Frame(lines: seq<string>, k: nat, version: string, lead: string, gap: string, rest: string) {
    && AreLines(lines) && k < |lines|
    && Requirements(lines, |lines|) == [Requirement(k, version)]
    && Shaped(lines[k], BlockAt(lines, k), lead, gap, version, rest)
    && lines[k] == (lead + WAHOO + gap) + version + rest
  }

  lemma FindFrame(data: string) returns (k: nat, lead: string, gap: string, rest: string)
    requires Replaced(data, "").Ok?
    ensures Frame(SplitAfter(data), k, Replaced(data, "").current, lead, gap, rest)
  {
    hide Classify, Shaped, Requirements, BlockAt, AreLines, Concat;
    var lines := SplitAfter(data);
    SplitAfterShape(data);
    RequirementIs(lines, |lines|, 0);
    k := Requirements(lines, |lines|)[0].line;
    lead, gap, rest := RequirementShape(lines[k], BlockAt(lines, k));
    VersionLocated(lines[k], BlockAt(lines, k), lead, gap, Requirements(lines, |lines|)[0].version, rest);
  }

  /** Another token in the frame gives another frame. */
  lemma Reframe(lines: seq<string>, k: nat, version: string, lead: string, gap: string, rest: string, v: string)
    requires Frame(lines, k, version, lead, gap, rest) && IsToken(v)
    ensures Frame(lines[k := (lead + WAHOO + gap) + v + rest], k, v, lead, gap, rest)
  {
    hide Classify, Shaped, VersionOffset, Spliced, Requirements, BlockAt, AreLines, IsToken;
    var line := (lead + WAHOO + gap) + v + rest;
    EditKeepsShape(lines[k], BlockAt(lines, k), lead, gap, version, rest, v);
    ScanOfEdited(lines, k, version, line, v, |lines|);
    ScanOfEdited(lines, k, version, line, v, k);
    EditedLinesAreLines(lines, k, lead + WAHOO + gap, version, rest, v);
  }

  /** What the editor computes on the text of a frame. */
  lemma ReplacedInFrame(lines: seq<string>, k: nat, version: string, lead: string, gap: string, rest: string, w: string)
    requires Frame(lines, k, version, lead, gap, rest) && (w == "" || IsToken(w))
    ensures var line := (lead + WAHOO + gap) + (if w == "" then version else w) + rest;
            Replaced(Concat(lines), w) == Ok(version, Concat(lines[k := line]))
  {
    hide Classify, Requirements, BlockAt, Shaped;
    SplitAfterOf(lines);
    VersionLocated(lines[k], BlockAt(lines, k), lead, gap, version, rest);
    SplicedIs(lines[k], lead + WAHOO + gap, version, rest, w);
    assert lines[k := lines[k]] == lines;
  }

  lemma ConcatUpdated(lines: seq<string>, k: nat, prefix: string, v: string, rest: string)
    requires k < |lines|
    ensures Concat(lines[k := prefix + v + rest])
            == (Concat(lines[..k]) + prefix) + v + (rest + Concat(lines[k + 1..]))
  {
    var updated := lines[k := prefix + v + rest];
    ConcatAround(updated, k);
    assert updated[..k] == lines[..k] && updated[k + 1..] == lines[k + 1..];
  }

  lemma FrameFills(lines: seq<string>, k: nat, version: string, lead: string, gap: string, rest: string,
                   v: string, w: string)
    requires Frame(lines, k, version, lead, gap, rest) && IsToken(v) && (w == "" || IsToken(w))
    ensures Fills(Concat(lines[..k]) + (lead + WAHOO + gap), rest + Concat(lines[k + 1..]), v, w)
  {
    hide Frame, Replaced;
    FrameIndex(lines, k, version, lead, gap, rest);
    var prefix := lead + WAHOO + gap;
    var withV := lines[k := prefix + v + rest];
    Reframe(lines, k, version, lead, gap, rest, v);
    ReplacedInFrame(withV, k, v, lead, gap, rest, w);
    var u := if w == "" then v else w;
    ConcatUpdated(lines, k, prefix, v, rest);
    ConcatUpdated(lines, k, prefix, u, rest);
    assert withV[k := prefix + u + rest] == lines[k := prefix + u + rest];
  }

  lemma FrameIndex(lines: seq<string>, k: nat, version: string, lead: string, gap: string, rest: string)
    requires Frame(lines, k, version, lead, gap, rest)
    ensures k < |lines|
  {
  }

  lemma FrameBoundary(lines: seq<string>, k: nat, version: string, lead: string, gap: string, rest: string)
    requires Frame(lines, k, version, lead, gap, rest)
    ensures AtBoundary(rest + Concat(lines[k + 1..]))
  {
    hide Classify, Requirements, BlockAt;
    if k < |lines| - 1 {
      RestKeepsFeed(lead + WAHOO + gap, version, rest);
    } else {
      assert rest + Concat(lines[k + 1..]) == rest;
    }
  }

  lemma FrameText(lines: seq<string>, k: nat, version: string, lead: string, gap: string, rest: string)
    requires Frame(lines, k, version, lead, gap, rest)
    ensures k < |lines|
    ensures Concat(lines) == (Concat(lines[..k]) + (lead + WAHOO + gap)) + version + (rest + Concat(lines[k + 1..]))
  {
    hide Classify, Requirements, BlockAt, Shaped;
    ConcatUpdated(lines, k, lead + WAHOO + gap, version, rest);
    assert lines[k := (lead + WAHOO + gap) + version + rest] == lines;
  }

  lemma FrameIsHole(lines: seq<string>, k: nat, version: string, lead: string, gap: string, rest: string)
    requires Frame(lines, k, version, lead, gap, rest)
    ensures k < |lines|
    ensures Hole(Concat(lines[..k]) + (lead + WAHOO + gap), rest + Concat(lines[k + 1..]))
  {
    FrameIndex(lines, k, version, lead, gap, rest);
    forall v, w | IsToken(v) && (w == "" || IsToken(w))
      ensures Fills(Concat(lines[..k]) + (lead + WAHOO + gap), rest + Concat(lines[k + 1..]), v, w)
    {
      FrameFills(lines, k, version, lead, gap, rest, v, w);
    }
  }

  lemma FrameTokens(lines: seq<string>, k: nat, version: string, lead: string, gap: string, rest: string)
    requires Frame(lines, k, version, lead, gap, rest)
    ensures IsToken(version) && AllSpace(gap) && gap != ""
  {
    hide Classify, Requirements, BlockAt;
  }

  /** A text that reads at all is a hole filled with the version that is read, and the hole stands
      right after the module path and white space. */
  lemma HoleOf(data: string) returns (head: string, gap: string, s: string)
    requires Replaced(data, "").Ok?
    ensures data == (head + WAHOO + gap) + Replaced(data, "").current + s
    ensures IsToken(Replaced(data, "").current) && AllSpace(gap) && gap != "" && AtBoundary(s)
    ensures Hole(head + WAHOO + gap, s)
  {
    hide Replaced, Frame, Hole;
    var lines, version := SplitAfter(data), Replaced(data, "").current;
    SplitAfterShape(data);
    var k, lead, rest;
    k, lead, gap, rest := FindFrame(data);
    FrameText(lines, k, version, lead, gap, rest);
    FrameIsHole(lines, k, version, lead, gap, rest);
    FrameBoundary(lines, k, version, lead, gap, rest);
    FrameTokens(lines, k, version, lead, gap, rest);
    head, s := Concat(lines[..k]) + lead, rest + Concat(lines[k + 1..]);
    assert head + WAHOO + gap == Concat(lines[..k]) + (lead + WAHOO + gap);
  }

  /** Whether a text reads depends on its requirements alone, never on the replacement, and the
      "locate Wahoo version" failure is unreachable for every text and every replacement. */
  lemma ReadsAlike(data: string, replacement: string)
    ensures Replaced(data, replacement).Ok? <==> Replaced(data, "").Ok?
    ensures Replaced(data, "").Err? ==> Replaced(data, replacement) == Replaced(data, "")
    ensures Replaced(data, replacement).Ok? ==> Replaced(data, replacement).current == Replaced(data, "").current
    ensures Replaced(data, replacement) != Err(NotLocated)
  {
    hide Classify, Requirements, BlockAt, Shaped;
    if Replaced(data, "").Ok? {
      var k, lead, gap, rest := FindFrame(data);
      var lines := SplitAfter(data);
      VersionLocated(lines[k], BlockAt(lines, k), lead, gap, Replaced(data, "").current, rest);
    }
  }

  /** A successful edit with a token changes the one version token, right after the module path,
      and no other byte; reading the new text gives the new version and leaves it alone; and
      putting the old version back restores the original text. */
  lemma OneTokenEdit(data: string, replacement: string) returns (head: string, gap: string, s: string)
    requires IsToken(replacement) && Replaced(data, replacement).Ok?
    ensures var Ok(was, edited) := Replaced(data, replacement);
            && AllSpace(gap) && gap != "" && AtBoundary(s) && IsToken(was)
            && data == (head + WAHOO + gap) + was + s
            && edited == (head + WAHOO + gap) + replacement + s
            && Replaced(edited, "") == Ok(replacement, edited)
            && Replaced(edited, replacement) == Ok(replacement, edited)
            && Replaced(edited, was) == Ok(replacement, data)
  {
    hide Replaced;
    ReadsAlike(data, replacement);
    head, gap, s := HoleOf(data);
    var p, was := head + WAHOO + gap, Replaced(data, "").current;
    assert Fills(p, s, was, replacement);
    assert Fills(p, s, replacement, "");
    assert Fills(p, s, replacement, replacement);
    assert Fills(p, s, replacement, was);
  }

  // ---- which texts read ----

  /** Line i is inside a require block: an earlier line opens one, and no line in between closes it. */
  ghost predicate InBlock(lines: seq<string>, i: nat)
    requires i <= |lines|
  {
    exists j :: 0 <= j < i && OPEN <= TrimSpace(lines[j]) && Unclosed(lines, j, i)
  }

  ghost predicate Unclosed(lines: seq<string>, j: nat, i: nat)
    requires i <= |lines|
  {
    forall k :: j < k < i ==> TrimSpace(lines[k]) != ")"
  }

  /** Line k requires the framework in version v. */
  ghost predicate Named(lines: seq<string>, k: nat, v: string) {
    k < |lines| && exists lead, gap, rest :: Shaped(lines[k], InBlock(lines, k), lead, gap, v, rest)
  }

  lemma InBlockNext(lines: seq<string>, i: nat)
    requires i < |lines|
    ensures var trimmed := TrimSpace(lines[i]);
            InBlock(lines, i + 1) <==> OPEN <= trimmed || (trimmed != ")" && InBlock(lines, i))
  {
    hide TrimSpace;
    var trimmed := TrimSpace(lines[i]);
    if OPEN <= trimmed {
      assert Unclosed(lines, i, i + 1);
    } else {
      forall j | 0 <= j < i
        ensures Unclosed(lines, j, i + 1) <==> Unclosed(lines, j, i) && trimmed != ")"
      {
      }
    }
  }

  /** The scanner's flag is that. */
  lemma {:induction false} BlockIsBetween(lines: seq<string>, i: nat)
    requires i <= |lines|
    ensures BlockAt(lines, i) <==> InBlock(lines, i)
  {
    hide Classify, InBlock, BlockAt;
    if i == 0 {
      NoBlockAtStart(lines);
    } else {
      BlockIsBetween(lines, i - 1);
      InBlockNext(lines, i - 1);
      ScanStep(lines, i - 1);
      ClassifyBranches(lines[i - 1], BlockAt(lines, i - 1));
    }
  }

  lemma NoBlockAtStart(lines: seq<string>)
    ensures !BlockAt(lines, 0) && !InBlock(lines, 0)
  {
  }

  lemma NamedIs(lines: seq<string>, k: nat, v: string)
    ensures Named(lines, k, v) <==> k < |lines| && Classify(lines[k], BlockAt(lines, k)) == Requires(v)
  {
    hide Classify, Shaped, InBlock, BlockAt;
    if k < |lines| {
      BlockIsBetween(lines, k);
      var inBlock := InBlock(lines, k);
      if Named(lines, k, v) {
        var lead, gap, rest :| Shaped(lines[k], inBlock, lead, gap, v, rest);
        ShapedClassifies(lines[k], inBlock, lead, gap, v, rest);
      } else if Classify(lines[k], inBlock) == Requires(v) {
        var lead, gap, rest := RequirementShape(lines[k], inBlock);
      }
    }
  }

  lemma {:induction false} RequirementsAre(lines: seq<string>, index: nat)
    requires index <= |lines|
    ensures forall r :: r in Requirements(lines, index) <==>
                        r.line < index && Classify(lines[r.line], BlockAt(lines, r.line)) == Requires(r.version)
  {
    hide Classify, BlockAt;
    if index > 0 {
      RequirementsAre(lines, index - 1);
    }
  }

  lemma {:induction false} RequirementsSorted(lines: seq<string>, index: nat, i: nat, j: nat)
    requires index <= |lines| && i < j < |Requirements(lines, index)|
    ensures Requirements(lines, index)[i].line < Requirements(lines, index)[j].line
  {
    hide Classify, BlockAt;
    if j < |Requirements(lines, index - 1)| {
      RequirementsSorted(lines, index - 1, i, j);
    } else {
      RequirementsGrow(lines, index - 1, index);
      assert Requirements(lines, index)[i] == Requirements(lines, index - 1)[i];
    }
  }

  /** One line, and no other, requires the framework, and does so in version v. */
  ghost predicate NamedOnce(lines: seq<string>, v: string) {
    exists k :: Named(lines, k, v) && forall j, w :: Named(lines, j, w) ==> j == k
  }

  ghost predicate NamedNowhere(lines: seq<string>) {
    forall k, w :: !Named(lines, k, w)
  }

  ghost predicate NamedTwice(lines: seq<string>) {
    exists j, k, w, x :: j != k && Named(lines, j, w) && Named(lines, k, x)
  }

  lemma NamedAreRequirements(lines: seq<string>, k: nat, v: string)
    ensures Named(lines, k, v) <==> Requirement(k, v) in Requirements(lines, |lines|)
  {
    hide Classify, Requirements, BlockAt, Named;
    RequirementsAre(lines, |lines|);
    NamedIs(lines, k, v);
    var r := Requirement(k, v);
    assert r.line == k && r.version == v;
  }

  lemma ReadsItself(data: string)
    requires Replaced(data, "").Ok?
    ensures Replaced(data, "") == Ok(Replaced(data, "").current, data)
  {
  }

  /** A text reads as version v exactly when one line of it, and no other, requires the framework, in
      that version; it lacks a requirement when no line does, and has too many when two do. */
  lemma ReadExactly(data: string, v: string)
    ensures Replaced(data, "") == Ok(v, data) <==> NamedOnce(SplitAfter(data), v)
    ensures Replaced(data, "") == Err(Missing) <==> NamedNowhere(SplitAfter(data))
    ensures Replaced(data, "") == Err(Duplicate) <==> NamedTwice(SplitAfter(data))
  {
    hide Classify, Requirements, BlockAt, Named;
    var lines := SplitAfter(data);
    var rs := Requirements(lines, |lines|);
    forall k: nat, w
      ensures Named(lines, k, w) <==> Requirement(k, w) in rs
    {
      NamedAreRequirements(lines, k, w);
    }
    if rs != [] {
      var r := rs[0];
      assert r == Requirement(r.line, r.version);
      assert Named(lines, r.line, r.version);
      if |rs| > 1 {
        var q := rs[1];
        RequirementsSorted(lines, |lines|, 0, 1);
        assert q == Requirement(q.line, q.version);
        assert Named(lines, q.line, q.version);
      } else {
        assert forall j: nat, w :: Named(lines, j, w) ==> Requirement(j, w) == r;
      }
    }
  }
}
