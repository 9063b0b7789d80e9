/**
 The three string operations `allowed_file` is built from: finding the last
 occurrence of a character (what `rsplit(sep, 1)` searches for), splitting once
 at that occurrence, and lower-casing. Python's `str.lower()` is modelled on
 ASCII only: 'A'..'Z' become 'a'..'z' and every other character is unchanged.
 */
module Strings {
  import opened Wrappers

  /** Position of the last `c` in `s`, or None when `s` has no `c`. */
  function LastIndexOf(s: string, c: char): (r: Option<nat>)
    ensures r.None? <==> c !in s
    ensures r.Some? ==> r.value < |s| && s[r.value] == c
    ensures r.Some? ==> forall j :: r.value < j < |s| ==> s[j] != c
  {
    if |s| == 0 then None
    else if s[|s| - 1] == c then Some(|s| - 1)
    else
      var r := LastIndexOf(s[..|s| - 1], c);
      assert s == s[..|s| - 1] + [s[|s| - 1]];
      r
  }

  /**
   Python's `s.rsplit(sep, 1)`: the whole of `s` when it has no `sep`, and
   otherwise the text before and the text after the last `sep`.
   */
  function RSplitOnce(s: string, sep: char): (parts: seq<string>)
    ensures |parts| == 1 || |parts| == 2
    ensures |parts| == 1 <==> sep !in s
    ensures |parts| == 1 ==> parts[0] == s
    ensures |parts| == 2 ==> s == parts[0] + [sep] + parts[1] && sep !in parts[1]
  {
    match LastIndexOf(s, sep)
    case None => [s]
    case Some(i) =>
      assert s == s[..i] + [sep] + s[i + 1..];
      [s[..i], s[i + 1..]]
  }

  /** Joining the parts of a split with the separator gives back the input. */
  function JoinParts(parts: seq<string>, sep: char): (s: string)
    requires |parts| == 1 || |parts| == 2
  {
    if |parts| == 1 then parts[0] else parts[0] + [sep] + parts[1]
  }

  lemma RSplitOnceRoundTrip(s: string, sep: char)
    ensures JoinParts(RSplitOnce(s, sep), sep) == s
  {
  }

  /**
   The split is determined by the last separator: whenever `s` is written as
   `before + [sep] + after` with no `sep` in `after`, those are the two parts.
   */
  lemma {:induction false} RSplitOnceUnique(before: string, after: string, sep: char)
    requires sep !in after
    ensures RSplitOnce(before + [sep] + after, sep) == [before, after]
  {
    var s := before + [sep] + after;
    assert s[|before|] == sep;
    var parts := RSplitOnce(s, sep);
    assert |parts| == 2;
    var i := LastIndexOf(s, sep).value;
    // No separator follows the one at |before|, and the last one is not before it.
    assert forall j :: |before| < j < |s| ==> s[j] == after[j - |before| - 1];
    assert i == |before|;
    assert s[..i] == before;
    assert s[i + 1..] == after;
  }

  predicate IsUpper(c: char) {
    'A' <= c <= 'Z'
  }

  /** ASCII lower-casing of one character. */
  function LowerChar(c: char): (d: char)
    ensures !IsUpper(d)
    ensures !IsUpper(c) ==> d == c
    ensures IsUpper(c) ==> 'a' <= d <= 'z' && d as int - c as int == 'a' as int - 'A' as int
  {
    if IsUpper(c) then (c as int - 'A' as int + 'a' as int) as char else c
  }

  /** ASCII lower-casing of a string, character by character. */
  function Lower(s: string): (r: string)
    ensures |r| == |s|
    ensures forall i :: 0 <= i < |s| ==> r[i] == LowerChar(s[i])
  {
    if |s| == 0 then [] else [LowerChar(s[0])] + Lower(s[1..])
  }

  lemma LowerIdempotent(s: string)
    ensures Lower(Lower(s)) == Lower(s)
  {
  }

  lemma LowerConcat(a: string, b: string)
    ensures Lower(a + b) == Lower(a) + Lower(b)
  {
  }

  /** Lower-casing neither creates nor removes a `.`, so it keeps every dot position. */
  lemma LowerKeepsDots(s: string)
    ensures forall i :: 0 <= i < |s| ==> (Lower(s)[i] == '.' <==> s[i] == '.')
    ensures '.' in Lower(s) <==> '.' in s
  {
    if '.' in Lower(s) {
      var i :| 0 <= i < |s| && Lower(s)[i] == '.';
      assert s[i] == '.';
    }
    if '.' in s {
      var i :| 0 <= i < |s| && s[i] == '.';
      assert Lower(s)[i] == '.';
    }
  }
}
