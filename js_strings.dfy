/**
 The JavaScript string operations the handler relies on: `split` with a
 one-character separator, `toLowerCase` (restricted to ASCII letters) and
 `substring`. Strings are sequences of characters.
 */
module JsStrings {

  /** Position of the first `c` in `s`, or `|s|` when there is none. */
  function IndexOf(s: string, c: char): (i: nat)
    ensures i <= |s|
    ensures i < |s| ==> s[i] == c
    ensures forall k :: 0 <= k < i ==> s[k] != c
  {
    if s == [] then 0
    else if s[0] == c then 0
    else 1 + IndexOf(s[1..], c)
  }

  /**
   `s.split(sep)`: the maximal separator-free pieces of `s`, in order. There is
   always at least one piece: `"".split(",")` is `[""]`.
   */
  function Split(s: string, sep: char): (parts: seq<string>)
    ensures |parts| >= 1
    ensures forall k :: 0 <= k < |parts| ==> sep !in parts[k]
    decreases |s|
  {
    var i := IndexOf(s, sep);
    if i == |s| then [s] else [s[..i]] + Split(s[i + 1..], sep)
  }

  /** `parts.join(sep)`, the inverse of `Split`. */
  function Join(parts: seq<string>, sep: char): string
    requires |parts| >= 1
  {
    if |parts| == 1 then parts[0] else parts[0] + [sep] + Join(parts[1..], sep)
  }

  /** Joining the pieces of a split gives back the original string. */
  lemma {:induction false} JoinSplit(s: string, sep: char)
    ensures Join(Split(s, sep), sep) == s
    decreases |s|
  {
    var i := IndexOf(s, sep);
    if i < |s| {
      var rest := s[i + 1..];
      var parts := Split(s, sep);
      assert parts == [s[..i]] + Split(rest, sep);
      assert parts[0] == s[..i] && parts[1..] == Split(rest, sep);
      JoinSplit(rest, sep);
      assert s == s[..i] + [sep] + rest;
    }
  }

  /** Splitting a join of separator-free pieces gives back the pieces. */
  lemma {:induction false} SplitJoin(parts: seq<string>, sep: char)
    requires |parts| >= 1
    requires forall k :: 0 <= k < |parts| ==> sep !in parts[k]
    ensures Split(Join(parts, sep), sep) == parts
  {
    var s := Join(parts, sep);
    if |parts| == 1 {
      assert s == parts[0] && sep !in s;
    } else {
      var rest := Join(parts[1..], sep);
      assert s == parts[0] + [sep] + rest;
      var i := IndexOf(s, sep);
      assert i == |parts[0]| by {
        assert s[|parts[0]|] == sep;
        assert forall k :: 0 <= k < |parts[0]| ==> s[k] == parts[0][k];
      }
      assert s[..i] == parts[0];
      assert s[i + 1..] == rest;
      SplitJoin(parts[1..], sep);
    }
  }

  /**
   The pieces of a split read off by position: the first piece is the text
   before the first separator, there is a second piece exactly when there is a
   separator, and the pieces after the first are the split of the text after it.
   */
  lemma SplitHead(s: string, sep: char)
    ensures var i := IndexOf(s, sep);
      && Split(s, sep)[0] == s[..i]
      && (|Split(s, sep)| > 1 <==> i < |s|)
      && (i < |s| ==> Split(s, sep)[1..] == Split(s[i + 1..], sep))
  {
    var i := IndexOf(s, sep);
    if i == |s| {
      assert s[..i] == s;
      assert Split(s, sep) == [s];
    } else {
      var parts := Split(s, sep);
      assert parts == [s[..i]] + Split(s[i + 1..], sep);
      assert |parts| == 1 + |Split(s[i + 1..], sep)|;
    }
  }

  /** A string without the separator is a single piece. */
  lemma SplitWithoutSeparator(s: string, sep: char)
    requires sep !in s
    ensures Split(s, sep) == [s]
  {
    assert IndexOf(s, sep) == |s|;
  }

  /** The first piece of a split runs up to the first separator. */
  lemma SplitAtFirstSeparator(x: string, y: string, sep: char)
    requires sep !in x
    ensures Split(x + [sep] + y, sep) == [x] + Split(y, sep)
  {
    var s := x + [sep] + y;
    var i := IndexOf(s, sep);
    assert i == |x| by {
      assert s[|x|] == sep;
      assert forall k :: 0 <= k < |x| ==> s[k] == x[k];
    }
    assert s[..i] == x;
    assert s[i + 1..] == y;
  }

  /** The ASCII part of `toLowerCase`: `A`..`Z` map to `a`..`z`, all else is kept. */
  function LowerChar(c: char): char
  {
    if 'A' <= c <= 'Z' then (c as int + 32) as char else c
  }

  /** `s.toLowerCase()`, character by character (ASCII letters only). */
  function ToLowerCase(s: string): (r: string)
  {
    seq(|s|, i requires 0 <= i < |s| => LowerChar(s[i]))
  }

  /**
   `s.substring(start, end)`: both bounds are clamped to the string's length,
   and swapped when `start` exceeds `end`.
   */
  function Substring(s: string, start: nat, end: nat): (r: string)
  {
    var a := if start < |s| then start else |s|;
    var b := if end < |s| then end else |s|;
    if a <= b then s[a..b] else s[b..a]
  }

  /** `s.substring(start)`, which runs to the end of the string. */
  function SubstringFrom(s: string, start: nat): (r: string)
    ensures |s| <= start ==> r == []
    ensures start < |s| ==> r == s[start..]
  {
    Substring(s, start, |s|)
  }

  /** The lower-cased string has the same length, and only ASCII capitals change. */
  lemma ToLowerCaseAt(s: string, i: nat)
    requires i < |s|
    ensures |ToLowerCase(s)| == |s|
    ensures 'A' <= s[i] <= 'Z' ==> ToLowerCase(s)[i] as int == s[i] as int + 32
    ensures !('A' <= s[i] <= 'Z') ==> ToLowerCase(s)[i] == s[i]
  {
  }

}
