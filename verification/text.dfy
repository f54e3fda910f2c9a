/** The string operations the hashtag counter builds its working text with:
    `str.lower()` and `' '.join(...)`, together with `str.split(' ')`, the
    inverse that states what joining keeps. */
module Text {

  /** An ASCII upper-case letter. */
  predicate IsUpperAscii(c: char) {
    'A' <= c <= 'Z'
  }

  /** `str.lower()` on one character, for the ASCII range: an upper-case
      letter becomes its lower-case letter, every other character is kept. */
  function LowerChar(c: char): (d: char)
    ensures !IsUpperAscii(d)
    ensures !IsUpperAscii(c) ==> d == c
    ensures IsUpperAscii(c) ==> d as int - 'a' as int == c as int - 'A' as int
  {
    if IsUpperAscii(c) then (c as int - 'A' as int + 'a' as int) as char else c
  }

  /** `str.lower()`: the text, character by character, lower-cased. */
  function Lower(s: string): (r: string)
    ensures |r| == |s|
    ensures forall i :: 0 <= i < |s| ==> r[i] == LowerChar(s[i])
  {
    if |s| == 0 then [] else [LowerChar(s[0])] + Lower(s[1..])
  }

  /** Lower-casing is idempotent and leaves no ASCII upper-case letter. */
  lemma LowerIdempotent(s: string)
    ensures Lower(Lower(s)) == Lower(s)
    ensures forall i :: 0 <= i < |s| ==> !IsUpperAscii(Lower(s)[i])
  {
  }

  /** Lower-casing works character by character, so it distributes over
      concatenation. */
  lemma LowerAppend(a: string, b: string)
    ensures Lower(a + b) == Lower(a) + Lower(b)
  {
  }

  /** `' '.join(parts)`: the parts in order, one space between neighbours
      and none at either end. */
  function JoinSpaced(parts: seq<string>): string {
    if |parts| == 0 then ""
    else if |parts| == 1 then parts[0]
    else parts[0] + " " + JoinSpaced(parts[1..])
  }

  /** The number of characters in all parts together. */
  function TotalLength(parts: seq<string>): nat {
    if |parts| == 0 then 0 else |parts[0]| + TotalLength(parts[1..])
  }

  /** Joining adds exactly one character per gap between parts. */
  lemma {:induction false} JoinSpacedLength(parts: seq<string>)
    requires |parts| > 0
    ensures |JoinSpaced(parts)| == TotalLength(parts) + |parts| - 1
  {
    if |parts| > 1 {
      JoinSpacedLength(parts[1..]);
    }
  }

  /** The index of the first space of `s`. */
  function FirstSpace(s: string): (i: nat)
    requires ' ' in s
    ensures i < |s| && s[i] == ' '
    ensures forall j :: 0 <= j < i ==> s[j] != ' '
  {
    if s[0] == ' ' then 0 else 1 + FirstSpace(s[1..])
  }

  /** `s.split(' ')`: the pieces between single spaces, empty ones included;
      always at least one piece. */
  function SplitSpaces(s: string): (parts: seq<string>)
    ensures |parts| > 0
    decreases |s|
  {
    if ' ' in s then
      var i := FirstSpace(s);
      [s[..i]] + SplitSpaces(s[i + 1..])
    else
      [s]
  }

  /** Joining a part in front of at least one more part puts one space
      between them. */
  lemma JoinCons(x: string, parts: seq<string>)
    requires |parts| > 0
    ensures JoinSpaced([x] + parts) == x + " " + JoinSpaced(parts)
  {
    assert ([x] + parts)[1..] == parts;
  }

  /** A text is the piece before a space, the space, and the rest. */
  lemma SplitAround(s: string, i: nat)
    requires i < |s| && s[i] == ' '
    ensures s == s[..i] + " " + s[i + 1..]
  {
  }

  /** In `a + " " + rest`, with no space in `a`, the first space is the one
      after `a`, and the pieces around it are `a` and `rest`. */
  lemma FirstSpaceAfter(a: string, rest: string)
    requires ' ' !in a
    ensures ' ' in a + " " + rest
    ensures FirstSpace(a + " " + rest) == |a|
    ensures (a + " " + rest)[..|a|] == a && (a + " " + rest)[|a| + 1..] == rest
  {
    var s := a + " " + rest;
    assert s[|a|] == ' ';
    var i := FirstSpace(s);
    forall j | 0 <= j < |a|
      ensures s[j] != ' '
    {
      assert s[j] == a[j];
    }
  }

  /** Splitting a joined text gives back the parts, provided no part holds
      a space of its own: joining neither merges, reorders nor drops parts. */
  lemma {:induction false} SplitJoin(parts: seq<string>)
    requires |parts| > 0
    requires forall k :: 0 <= k < |parts| ==> ' ' !in parts[k]
    ensures SplitSpaces(JoinSpaced(parts)) == parts
  {
    if |parts| > 1 {
      var rest := JoinSpaced(parts[1..]);
      FirstSpaceAfter(parts[0], rest);
      assert SplitSpaces(JoinSpaced(parts)) == [parts[0]] + SplitSpaces(rest);
      SplitJoin(parts[1..]);
      assert parts == [parts[0]] + parts[1..];
    }
  }

  /** Joining the pieces of a split gives back the text: `split(' ')` and
      `' '.join` are inverse on every string. */
  lemma {:induction false} JoinSplit(s: string)
    ensures JoinSpaced(SplitSpaces(s)) == s
    decreases |s|
  {
    if ' ' in s {
      var i := FirstSpace(s);
      JoinSplit(s[i + 1..]);
      JoinCons(s[..i], SplitSpaces(s[i + 1..]));
      SplitAround(s, i);
    }
  }

  /** The lower-cased parts joined are the lower-cased join: the separator is
      not a letter. */
  lemma {:induction false} JoinLowerCommute(parts: seq<string>)
    ensures JoinSpaced(seq(|parts|, k requires 0 <= k < |parts| => Lower(parts[k])))
      == Lower(JoinSpaced(parts))
  {
    if |parts| > 1 {
      var tail := seq(|parts| - 1, k requires 0 <= k < |parts| - 1 => Lower(parts[1..][k]));
      JoinLowerCommute(parts[1..]);
      LowerEachCons(parts);
      JoinCons(Lower(parts[0]), tail);
      LowerSpaced(parts[0], JoinSpaced(parts[1..]));
    }
  }

  /** Lower-casing each part of a non-empty list: the first part lowered,
      then the rest lowered. */
  lemma LowerEachCons(parts: seq<string>)
    requires |parts| > 0
    ensures seq(|parts|, k requires 0 <= k < |parts| => Lower(parts[k]))
      == [Lower(parts[0])] + seq(|parts| - 1, k requires 0 <= k < |parts| - 1 => Lower(parts[1..][k]))
  {
  }

  /** Lower-casing two texts joined by a space lower-cases each. */
  lemma LowerSpaced(a: string, b: string)
    ensures Lower(a + " " + b) == Lower(a) + " " + Lower(b)
  {
    LowerAppend(a + " ", b);
    LowerAppend(a, " ");
  }
}
