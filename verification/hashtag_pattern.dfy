/** The valid-hashtag pattern of app/db/db.py, `^[a-z0-9]+$`, and what
    `findall` does with it on a whole text.

    The pattern carries no flags, so `^` matches only at the start of the
    text and `$` only at its end or just before a final newline. A search
    that starts anywhere but position 0 fails at `^`, hence `findall` yields
    at most one match, and that match is the whole text, less one trailing
    newline. */
module HashtagPattern {
  import opened Outcomes

  /** The character class `[a-z0-9]`: ASCII lower-case letters and digits. */
  predicate IsHashtagChar(c: char) {
    'a' <= c <= 'z' || '0' <= c <= '9'
  }

  /** A string the pattern matches in full: one or more class characters. */
  predicate IsValidHashtag(s: string) {
    |s| > 0 && forall i :: 0 <= i < |s| ==> IsHashtagChar(s[i])
  }

  /** `$` without the MULTILINE flag succeeds at `e`. */
  predicate AtEnd(text: string, e: nat) {
    e == |text| || (e + 1 == |text| && text[e] == '\n')
  }

  /** A match of the whole pattern spans `text[0..e]`. */
  predicate IsMatchEnd(text: string, e: nat) {
    0 < e <= |text|
    && (forall k :: 0 <= k < e ==> IsHashtagChar(text[k]))
    && AtEnd(text, e)
  }

  /** The end of the run of class characters starting at `i`: where the
      greedy `[a-z0-9]+` stops. */
  function RunEnd(text: string, i: nat): (e: nat)
    requires i <= |text|
    ensures i <= e <= |text|
    ensures forall k :: i <= k < e ==> IsHashtagChar(text[k])
    ensures e < |text| ==> !IsHashtagChar(text[e])
    decreases |text| - i
  {
    if i < |text| && IsHashtagChar(text[i]) then RunEnd(text, i + 1) else i
  }

  /** A greedy run reaches at least as far as any stretch of class
      characters from its start. */
  lemma {:induction false} RunEndCovers(text: string, i: nat, e: nat)
    requires i <= e <= |text|
    requires forall k :: i <= k < e ==> IsHashtagChar(text[k])
    ensures e <= RunEnd(text, i)
    decreases e - i
  {
    if i < e {
      RunEndCovers(text, i + 1, e);
    }
  }

  /** The regex engine's attempt at `pos`: `^` fails unless `pos` is 0; then
      the class run is taken greedily and `$` tested at its end. Giving back
      characters never helps, because `$` can only succeed at the end of the
      run (see the uniqueness clause). */
  function MatchAt(text: string, pos: nat): (m: Option<nat>)
    requires pos <= |text|
    ensures m.Some? <==> pos == 0 && exists e :: IsMatchEnd(text, e)
    ensures m.Some? ==>
      IsMatchEnd(text, m.value) && forall e :: IsMatchEnd(text, e) ==> e == m.value
  {
    if pos != 0 then
      None
    else
      var e := RunEnd(text, 0);
      assert forall e' :: IsMatchEnd(text, e') ==> e' == e by {
        forall e' | IsMatchEnd(text, e')
          ensures e' == e
        {
          RunEndCovers(text, 0, e');
        }
      }
      if 0 < e && AtEnd(text, e) then
        assert IsMatchEnd(text, e);
        Some(e)
      else
        None
  }

  /** `findall` with the pattern on `text`, stated without reference to the
      engine: the whole text when it is a valid hashtag, the text without
      its final newline when that is one, and nothing otherwise. */
  function Matches(text: string): (found: seq<string>)
    ensures |found| <= 1
    ensures forall k :: 0 <= k < |found| ==> IsValidHashtag(found[k])
  {
    if IsValidHashtag(text) then
      [text]
    else if 0 < |text| && text[|text| - 1] == '\n' && IsValidHashtag(text[..|text| - 1]) then
      [text[..|text| - 1]]
    else
      []
  }

  /** The engine's attempt at position 0 agrees with `Matches`. */
  lemma MatchAtStart(text: string)
    ensures MatchAt(text, 0).Some? ==> Matches(text) == [text[..MatchAt(text, 0).value]]
    ensures MatchAt(text, 0).None? ==> Matches(text) == []
  {
    var m := MatchAt(text, 0);
    if m.Some? {
      var e := m.value;
      assert IsValidHashtag(text[..e]);
      if e == |text| {
        assert text[..e] == text;
      } else {
        assert text[..|text| - 1] == text[..e];
        assert !IsHashtagChar(text[e]);
      }
    } else {
      assert !IsMatchEnd(text, |text|);
      if 0 < |text| && text[|text| - 1] == '\n' {
        assert !IsMatchEnd(text, |text| - 1);
        forall k | 0 <= k < |text| - 1
          ensures text[..|text| - 1][k] == text[k]
        {
        }
      }
    }
  }

  /** `re.compile(VALID_HASHTAG).findall(text)`: scans every start position
      from left to right, collecting each match and resuming after it. */
  method FindAll(text: string) returns (found: seq<string>)
    ensures found == Matches(text)
  {
    found := [];
    var pos := 0;
    MatchAtStart(text);
    while pos <= |text|
      invariant 0 <= pos <= |text| + 1
      invariant found == if pos == 0 then [] else Matches(text)
      decreases |text| + 1 - pos
    {
      var m := MatchAt(text, pos);
      if m.Some? {
        found := found + [text[pos..m.value]];
        pos := if m.value == pos then pos + 1 else m.value;
      } else {
        pos := pos + 1;
      }
    }
  }

  /** The pattern matches a whole candidate exactly when the candidate is
      non-empty and made only of ASCII lower-case letters and digits. */
  lemma MatchesWholeCandidate(s: string)
    ensures Matches(s) == [s] <==> IsValidHashtag(s)
  {
  }

  /** A character outside `[a-z0-9]` anywhere in the text (a `#`, a space,
      an upper-case letter, punctuation) rules out every match, except for a
      newline in last position, which `$` tolerates. */
  lemma {:induction false} ForeignCharRejects(s: string, i: nat)
    requires i < |s| && !IsHashtagChar(s[i])
    requires !(i == |s| - 1 && s[i] == '\n')
    ensures Matches(s) == []
  {
    if 0 < |s| && s[|s| - 1] == '\n' {
      assert s[..|s| - 1][i] == s[i];
    }
  }

  /** `$` also matches before a final newline, so a valid hashtag followed
      by one newline is still found. */
  lemma TrailingNewlineTolerated(w: string)
    requires IsValidHashtag(w)
    ensures Matches(w + "\n") == [w]
  {
    var s := w + "\n";
    assert s[..|s| - 1] == w;
    assert !IsHashtagChar(s[|s| - 1]);
  }

  /** Two hashtags separated by a space yield no match at all: the anchored
      pattern cannot pick tokens out of running text. */
  lemma RunningTextYieldsNothing()
    ensures Matches("brand today") == []
    ensures Matches("#brand") == []
    ensures Matches("brand") == ["brand"]
  {
    ForeignCharRejects("brand today", 5);
    ForeignCharRejects("#brand", 0);
  }

  /** The value bound to `VALID_HASHTAG`: the pattern's source as a plain
      string, as written, or the compiled pattern object. */
  datatype PatternValue = PlainString | Compiled

  /** The message Python gives for `.findall` on a `str`. */
  const NoFindallMessage: string := "'str' object has no attribute 'findall'"

  /** `VALID_HASHTAG.findall(text)`: a `str` has no `findall` attribute, so
      only a compiled pattern can be searched. */
  function FindAllOn(p: PatternValue, text: string): (r: Result<seq<string>, PyError>)
    ensures p.PlainString? ==> r == Failure(AttributeError(NoFindallMessage))
    ensures p.Compiled? ==>
      r.Success? && |r.value| <= 1 && forall k :: 0 <= k < |r.value| ==> IsValidHashtag(r.value[k])
  {
    match p
    case PlainString => Failure(AttributeError(NoFindallMessage))
    case Compiled => Success(Matches(text))
  }
}
