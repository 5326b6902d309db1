/** Go strings as bytes, and the positions that ranging over one visits. */
module Utf8 {

  /** A string whose characters stand for bytes. */
  type ByteString = s: string | forall i :: 0 <= i < |s| ==> s[i] < '\U{100}'

  const RUNE_SELF := '\U{80}'

  predicate Between(s: ByteString, i: nat, low: char, high: char) {
    i < |s| && low <= s[i] <= high
  }

  predicate Continues(s: ByteString, i: nat) {
    Between(s, i, '\U{80}', '\U{BF}')
  }

  /** How many bytes the rune at `i` takes; bytes that are not UTF-8 count as runes of one byte. */
  function Width(s: ByteString, i: nat): (w: nat)
    requires i < |s|
    ensures 1 <= w <= 4 && i + w <= |s|
    ensures s[i] < RUNE_SELF ==> w == 1
  {
    var c := s[i];
    if '\U{C2}' <= c <= '\U{DF}' then
      if Continues(s, i + 1) then 2 else 1
    else if '\U{E0}' <= c <= '\U{EF}' then
      if Between(s, i + 1, if c == '\U{E0}' then '\U{A0}' else '\U{80}', if c == '\U{ED}' then '\U{9F}' else '\U{BF}')
         && Continues(s, i + 2)
      then 3 else 1
    else if '\U{F0}' <= c <= '\U{F4}' then
      if Between(s, i + 1, if c == '\U{F0}' then '\U{90}' else '\U{80}', if c == '\U{F4}' then '\U{8F}' else '\U{BF}')
         && Continues(s, i + 2) && Continues(s, i + 3)
      then 4 else 1
    else 1
  }

  /** The positions that `for i := range s` visits from a rune start on. */
  function RuneStarts(s: ByteString, from: nat): seq<nat>
    decreases |s| - from
  {
    if from >= |s| then [] else [from] + RuneStarts(s, from + Width(s, from))
  }

  predicate PassAt(s: ByteString, positions: seq<nat>, passes: char -> bool) {
    forall i | i in positions :: i < |s| && passes(s[i])
  }

  /** A test that only ASCII passes holds of the bytes at rune starts exactly when it holds of every
      byte. */
  lemma {:induction false} StartsAreEnough(s: ByteString, from: nat, passes: char -> bool)
    requires forall c :: passes(c) ==> c < RUNE_SELF
    ensures PassAt(s, RuneStarts(s, from), passes) <==> forall i :: from <= i < |s| ==> passes(s[i])
    decreases |s| - from
  {
    hide Width, PassAt;
    if from < |s| {
      var next := from + Width(s, from);
      StartsAreEnough(s, next, passes);
      PassCons(s, from, RuneStarts(s, next), passes);
    } else {
      PassNowhere(s, passes);
    }
  }

  lemma PassNowhere(s: ByteString, passes: char -> bool)
    ensures PassAt(s, [], passes)
  {
  }

  lemma PassCons(s: ByteString, first: nat, rest: seq<nat>, passes: char -> bool)
    requires first < |s|
    ensures PassAt(s, [first] + rest, passes) <==> passes(s[first]) && PassAt(s, rest, passes)
  {
    assert first in [first] + rest;
    assert forall i | i in rest :: i in [first] + rest;
  }
}
