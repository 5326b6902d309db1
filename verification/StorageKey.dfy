/** Storage keys of storage/storage.go: the one-pass check, and what it guarantees. */
module StorageKey {
  import opened Text
  import opened Utf8

  const MAX_KEY_BYTES := 1024

  predicate IsKeyChar(c: char) {
    'a' <= c <= 'z' || 'A' <= c <= 'Z' || '0' <= c <= '9' || c == '.' || c == '_' || c == '-' || c == '/'
  }

  predicate IsDots(segment: string) {
    segment == "." || segment == ".."
  }

  predicate IsSegment(segment: string) {
    segment != "" && !IsDots(segment)
  }

  predicate IsNotDots(segment: string) {
    !IsDots(segment)
  }

  /** Every slash-separated segment passes. */
  predicate EverySegment(passes: string -> bool, path: string) {
    forall segment | segment in Split(path, '/') :: passes(segment)
  }

  predicate AllKeyChars(s: string) {
    forall i :: 0 <= i < |s| ==> IsKeyChar(s[i])
  }

  /** The contract in the comment on Validate: allowed ASCII, and no empty, "." or ".." segment. */
  predicate Portable(value: string) {
    && 1 <= |value| <= MAX_KEY_BYTES
    && AllKeyChars(value)
    && EverySegment(IsSegment, value)
  }

  /** Segments pass one by one. */
  lemma SegmentStep(passes: string -> bool, path: string)
    ensures var n := Until(path, '/');
            EverySegment(passes, path) <==> passes(path[..n]) && (n < |path| ==> EverySegment(passes, path[n + 1..]))
  {
    hide Split, Until, Free;
    SplitStep(path, '/');
    var n := Until(path, '/');
    if n == |path| {
      assert path[..n] == path;
      assert path in Split(path, '/');
    } else {
      var rest := Split(path[n + 1..], '/');
      assert path[..n] in Split(path, '/');
      assert forall segment | segment in rest :: segment in Split(path, '/');
    }
  }

  lemma SegmentAt(value: string, start: nat, end: nat)
    requires start <= end <= |value| && Free(value[start..end], '/') && (end < |value| ==> value[end] == '/')
    ensures EverySegment(IsSegment, value[start..]) <==>
            IsSegment(value[start..end]) && (end < |value| ==> EverySegment(IsSegment, value[end + 1..]))
  {
    hide EverySegment, IsSegment, Until;
    var path := value[start..];
    UntilOf(value[start..end], '/', value[end..]);
    assert path == value[start..end] + value[end..];
    SegmentStep(IsSegment, path);
    assert path[..end - start] == value[start..end];
    if end < |value| {
      assert path[end - start + 1..] == value[end + 1..];
    }
  }

  lemma {:induction false} TrailingSlash(value: string)
    requires value == "" || value[|value| - 1] == '/'
    ensures !EverySegment(IsSegment, value)
    decreases |value|
  {
    hide EverySegment;
    var n := Until(value, '/');
    SegmentStep(IsSegment, value);
    if value != "" {
      TrailingSlash(value[n + 1..]);
    }
  }

  lemma LeadingSlash(value: string)
    requires value != "" && value[0] == '/'
    ensures !EverySegment(IsSegment, value)
  {
    SegmentStep(IsSegment, value);
  }

  method Validate(value: ByteString) returns (valid: bool)
    ensures valid <==> Portable(value)
  {
    hide EverySegment, Width;
    if |value| == 0 || |value| > MAX_KEY_BYTES {
      return false;
    }
    if value[0] == '/' {
      LeadingSlash(value);
      return false;
    }
    if value[|value| - 1] == '/' {
      TrailingSlash(value);
      return false;
    }
    var segmentStart, i := 0, 0;
    assert value[0..] == value;
    while i < |value|
      invariant segmentStart <= i <= |value|
      invariant AllKeyChars(value[..i])
      invariant Free(value[segmentStart..i], '/')
      invariant segmentStart == i > 0 ==> value[i - 1] == '/'
      invariant EverySegment(IsSegment, value) <==> EverySegment(IsSegment, value[segmentStart..])
    {
      var c := value[i];
      if (c < 'a' || c > 'z') && (c < 'A' || c > 'Z') && (c < '0' || c > '9')
         && c != '.' && c != '_' && c != '-' && c != '/'
      {
        return false;
      }
      if c == '/' {
        SegmentAt(value, segmentStart, i);
        if i == segmentStart || value[segmentStart..i] == "." || value[segmentStart..i] == ".." {
          return false;
        }
        segmentStart := i + 1;
      } else {
        assert value[segmentStart..i + 1] == value[segmentStart..i] + [c];
      }
      assert value[..i + 1] == value[..i] + [c];
      assert Width(value, i) == 1;
      i := i + Width(value, i);
    }
    assert value[segmentStart..i] == value[segmentStart..] && value[..i] == value;
    SegmentAt(value, segmentStart, |value|);
    return value[segmentStart..] != "." && value[segmentStart..] != "..";
  }

  datatype Parsed = Key(value: ByteString) | InvalidKey

  /** A key is the very value that was checked. */
  method ParseKey(value: ByteString) returns (r: Parsed)
    ensures r == if Portable(value) then Key(value) else InvalidKey
  {
    var valid := Validate(value);
    return if valid then Key(value) else InvalidKey;
  }

  // ---- remove_dot_segments, section 5.2.4 of RFC 3986 ----

  predicate StartsWith(s: string, prefix: string) {
    |prefix| <= |s| && s[..|prefix|] == prefix
  }

  /** Without the last segment and the slash before it, if any. */
  function WithoutLast(output: string): (r: string)
    ensures |r| <= |output|
  {
    if output == "" then ""
    else if output[|output| - 1] == '/' then output[..|output| - 1]
    else WithoutLast(output[..|output| - 1])
  }

  /** How long the first segment is, counting a slash in front of it. */
  function FirstSegment(input: string): (n: nat)
    requires input != ""
    ensures 1 <= n <= |input|
  {
    if input[0] == '/' then 1 + Until(input[1..], '/') else Until(input, '/')
  }

  /** One turn of the loop: the new input and output buffers. */
  function Turn(input: string, output: string): (r: (string, string))
    requires input != ""
    ensures |r.0| < |input|
    ensures DotsInFront(input) ==> |r.1| <= |output|
  {
    if StartsWith(input, "../") then (input[3..], output)
    else if StartsWith(input, "./") then (input[2..], output)
    else if StartsWith(input, "/./") then ("/" + input[3..], output)
    else if input == "/." then ("/", output)
    else if StartsWith(input, "/../") then ("/" + input[4..], WithoutLast(output))
    else if input == "/.." then ("/", WithoutLast(output))
    else if IsDots(input) then ("", output)
    else
      var n := FirstSegment(input);
      (input[n..], output + input[..n])
  }

  function Remove(input: string, output: string): string
    decreases |input|
  {
    if input == "" then output
    else
      var (rest, moved) := Turn(input, output);
      Remove(rest, moved)
  }

  function RemoveDotSegments(path: string): string {
    Remove(path, "")
  }

  predicate DotFree(path: string) {
    EverySegment(IsNotDots, path)
  }

  function Name(input: string): string
    requires input != ""
  {
    input[if input[0] == '/' then 1 else 0..FirstSegment(input)]
  }

  lemma FirstSegmentDecides(input: string)
    requires input != ""
    ensures DotFree(input) <==> !IsDots(Name(input)) && DotFree(input[FirstSegment(input)..])
  {
    hide EverySegment, IsDots;
    var n := FirstSegment(input);
    SegmentStep(IsNotDots, input);
    SegmentStep(IsNotDots, input[1..]);
    SegmentStep(IsNotDots, input[n..]);
    SegmentStep(IsNotDots, "");
    assert input[0..] == input && !IsDots("") by {
      EmptyIsNotDots();
    }
    if input[0] == '/' {
      assert input[1..][..n - 1] == Name(input);
      assert n < |input| ==> input[1..][n - 1 + 1..] == input[n..][1..];
    } else {
      assert n < |input| ==> input[n + 1..] == input[n..][1..];
    }
  }

  lemma EmptyIsNotDots()
    ensures !IsDots("")
  {
  }

  /** The prefixes that the algorithm looks for. */
  predicate DotsInFront(input: string) {
    || StartsWith(input, "../") || StartsWith(input, "./")
    || StartsWith(input, "/./") || input == "/."
    || StartsWith(input, "/../") || input == "/.."
    || IsDots(input)
  }

  lemma NameOf(slash: string, name: string, rest: string)
    requires slash == "" || slash == "/"
    requires name != "" && Free(name, '/') && (rest == "" || rest[0] == '/')
    ensures Name(slash + name + rest) == name
  {
    var input := slash + name + rest;
    UntilOf(name, '/', rest);
    assert name + rest == input[|slash|..];
    assert (name + rest)[..|name|] == name;
  }

  predicate InFront(input: string, slash: string, name: string) {
    input == slash + name || StartsWith(input, slash + name + "/")
  }

  lemma InFrontIsName(input: string, slash: string, name: string)
    requires slash == "" || slash == "/"
    requires name != "" && Free(name, '/') && InFront(input, slash, name)
    ensures Name(input) == name
  {
    hide Name, Free;
    var k := |slash + name|;
    assert input[..k] == slash + name by {
      if k < |input| {
        assert input[..k] == input[..k + 1][..k];
      }
    }
    assert input == slash + name + input[k..];
    if k < |input| {
      assert input[k] == input[..k + 1][k];
    }
    NameOf(slash, name, input[k..]);
  }

  lemma NameIsInFront(input: string)
    requires input != ""
    ensures InFront(input, if input[0] == '/' then "/" else "", Name(input))
  {
    hide Until, Free;
    var slash, n := if input[0] == '/' then "/" else "", FirstSegment(input);
    assert input[..n] == slash + Name(input);
    if n < |input| {
      assert input[..n + 1] == slash + Name(input) + "/";
    }
  }

  lemma DotsByName(input: string)
    ensures DotsInFront(input) <==>
            InFront(input, "", ".") || InFront(input, "", "..") || InFront(input, "/", ".") || InFront(input, "/", "..")
  {
    hide StartsWith;
    assert "" + "." == "." && "" + ".." == ".." && "/" + "." == "/." && "/" + ".." == "/..";
    assert "." + "/" == "./" && ".." + "/" == "../" && "/." + "/" == "/./" && "/.." + "/" == "/../";
  }

  /** The prefixes find exactly a first segment "." or "..". */
  lemma DotsAreFirstName(input: string)
    requires input != ""
    ensures DotsInFront(input) <==> IsDots(Name(input))
  {
    hide DotsInFront, InFront, Name;
    DotsByName(input);
    NameIsInFront(input);
    forall slash, name | slash in {"", "/"} && name in {".", ".."} && InFront(input, slash, name)
      ensures Name(input) == name
    {
      InFrontIsName(input, slash, name);
    }
  }

  lemma EmptyIsDotFree()
    ensures DotFree("")
  {
    SegmentStep(IsNotDots, "");
  }

  lemma TurnMoves(input: string, output: string)
    requires input != "" && !DotsInFront(input)
    ensures var n := FirstSegment(input); Turn(input, output) == (input[n..], output + input[..n])
  {
    hide StartsWith, FirstSegment;
  }

  /** The algorithm cuts something out exactly when there is a "." or ".." segment. */
  lemma {:induction false} RemoveShortens(input: string, output: string)
    ensures DotFree(input) ==> Remove(input, output) == output + input
    ensures if DotFree(input) then |Remove(input, output)| == |output| + |input|
            else |Remove(input, output)| < |output| + |input|
    decreases |input|
  {
    hide Turn, DotsInFront, DotFree, FirstSegment, Name;
    if input == "" {
      EmptyIsDotFree();
      assert output + input == output;
    } else {
      DotsAreFirstName(input);
      FirstSegmentDecides(input);
      if DotsInFront(input) {
        var (rest, moved) := Turn(input, output);
        RemoveShortens(rest, moved);
      } else {
        TurnMoves(input, output);
        var n := FirstSegment(input);
        RemoveShortens(input[n..], output + input[..n]);
        assert output + input[..n] + input[n..] == output + input;
      }
    }
  }

  /** A path is a fixed point of remove_dot_segments exactly when no segment is "." or "..". */
  lemma FixedPoint(path: string)
    ensures RemoveDotSegments(path) == path <==> DotFree(path)
  {
    RemoveShortens(path, "");
    assert "" + path == path;
  }

  /** No accepted key changes under remove_dot_segments, alone or below a root. */
  lemma PortableIsNormal(value: string)
    requires Portable(value)
    ensures RemoveDotSegments(value) == value
    ensures RemoveDotSegments("/" + value) == "/" + value
  {
    FixedPoint(value);
    FixedPoint("/" + value);
    SegmentStep(IsNotDots, "/" + value);
    assert ("/" + value)[1..] == value;
  }
}
