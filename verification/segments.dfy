/** Python's `str.split(sep)` with a one-character separator, and its
    inverse `sep.join(parts)`.

    `Split` always yields at least one segment, no segment contains the
    separator, and joining the segments gives the input back; conversely a
    list of separator-free segments is recovered by splitting its join.
 */
module Segments {

  /** `sep.join(parts)` */
  function Join(parts: seq<string>, sep: char): string
    requires |parts| >= 1
  {
    if |parts| == 1 then parts[0] else parts[0] + [sep] + Join(parts[1..], sep)
  }

  /** `s.split(sep)`: `"a-b".split('-') == ["a", "b"]`, `"-".split('-') == ["", ""]`,
      `"".split('-') == [""]`. */
  function Split(s: string, sep: char): (r: seq<string>)
    ensures |r| >= 1
    ensures forall k :: 0 <= k < |r| ==> sep !in r[k]
  {
    if s == [] then [[]]
    else
      var rest := Split(s[1..], sep);
      if s[0] == sep then [[]] + rest
      else ConsFirst(s[0], rest)
  }

  /** There is one more segment than there are separators. */
  lemma {:induction false} SplitCount(s: string, sep: char)
    ensures |Split(s, sep)| == multiset(s)[sep] + 1
  {
    if s != [] {
      SplitCount(s[1..], sep);
      assert multiset(s) == multiset{s[0]} + multiset(s[1..]) by {
        assert s == [s[0]] + s[1..];
      }
    }
  }

  /** `parts` with `c` put in front of its first segment. */
  function ConsFirst(c: char, parts: seq<string>): (r: seq<string>)
    requires |parts| >= 1
    ensures |r| == |parts| && r[0] == [c] + parts[0]
    ensures forall k :: 1 <= k < |r| ==> r[k] == parts[k]
  {
    [[c] + parts[0]] + parts[1..]
  }

  lemma JoinConsFirst(c: char, parts: seq<string>, sep: char)
    requires |parts| >= 1
    ensures Join(ConsFirst(c, parts), sep) == [c] + Join(parts, sep)
  {
    var r := ConsFirst(c, parts);
    if |parts| > 1 {
      assert r[1..] == parts[1..];
    }
  }

  /** Joining the segments gives the string back. */
  lemma {:induction false} JoinOfSplit(s: string, sep: char)
    ensures Join(Split(s, sep), sep) == s
  {
    if s != [] {
      JoinOfSplit(s[1..], sep);
      var rest := Split(s[1..], sep);
      if s[0] != sep {
        JoinConsFirst(s[0], rest, sep);
      }
      assert s == [s[0]] + s[1..];
    }
  }

  /** A string without the separator is a single segment. */
  lemma {:induction false} SplitSingle(s: string, sep: char)
    requires sep !in s
    ensures Split(s, sep) == [s]
  {
    var r := Split(s, sep);
    assert multiset(s)[sep] == 0;
    SplitCount(s, sep);
    JoinOfSplit(s, sep);
    assert r == [r[0]];
  }

  /** Splitting at a separator occurrence splits the two sides separately. */
  lemma {:induction false} SplitAppend(a: string, b: string, sep: char)
    ensures Split(a + [sep] + b, sep) == Split(a, sep) + Split(b, sep)
  {
    var s := a + [sep] + b;
    if a == [] {
      assert s[0] == sep && s[1..] == b;
    } else {
      assert s[0] == a[0];
      assert s[1..] == a[1..] + [sep] + b;
      SplitAppend(a[1..], b, sep);
      var left, right := Split(a[1..], sep), Split(b, sep);
      assert Split(s[1..], sep) == left + right;
      if a[0] != sep {
        assert Split(s, sep) == ConsFirst(a[0], left + right);
        assert Split(a, sep) == ConsFirst(a[0], left);
        ConsFirstAppend(a[0], left, right);
      } else {
        assert Split(s, sep) == [[]] + (left + right);
        assert Split(a, sep) == [[]] + left;
      }
    }
  }

  lemma ConsFirstAppend(c: char, left: seq<string>, right: seq<string>)
    requires |left| >= 1
    ensures ConsFirst(c, left + right) == ConsFirst(c, left) + right
  {
    assert (left + right)[1..] == left[1..] + right;
  }

  /** Splitting the join of separator-free segments gives the segments back. */
  lemma {:induction false} SplitOfJoin(parts: seq<string>, sep: char)
    requires |parts| >= 1
    requires forall k :: 0 <= k < |parts| ==> sep !in parts[k]
    ensures Split(Join(parts, sep), sep) == parts
  {
    if |parts| == 1 {
      SplitSingle(parts[0], sep);
    } else {
      var rest := Join(parts[1..], sep);
      assert Join(parts, sep) == parts[0] + [sep] + rest;
      SplitOfJoin(parts[1..], sep);
      SplitAppend(parts[0], rest, sep);
      SplitSingle(parts[0], sep);
      assert parts == [parts[0]] + parts[1..];
    }
  }

  /** Two separator-free strings around one separator split into exactly
      those two segments. */
  lemma SplitPair(x: string, y: string, sep: char)
    requires sep !in x && sep !in y
    ensures Split(x + [sep] + y, sep) == [x, y]
  {
    SplitAppend(x, y, sep);
    SplitSingle(x, sep);
    SplitSingle(y, sep);
  }

  /** Whatever precedes it, a string ending in `x`, a separator and `y`
      (both separator-free) has `x` and `y` as its last two segments,
      provided the text before `x` is empty or ends in a separator. */
  lemma {:induction false} SplitEndsWith(lead: string, x: string, y: string, sep: char)
    requires sep !in x && sep !in y
    requires lead == [] || lead[|lead| - 1] == sep
    ensures var r := Split(lead + x + [sep] + y, sep);
      |r| >= 2 && r[|r| - 2] == x && r[|r| - 1] == y
  {
    var tail := x + [sep] + y;
    SplitPair(x, y, sep);
    if lead != [] {
      var front := lead[..|lead| - 1];
      assert lead + x + [sep] + y == front + [sep] + tail by {
        assert lead == front + [sep];
      }
      SplitAppend(front, tail, sep);
    } else {
      assert lead + x + [sep] + y == tail;
    }
  }

  /** The text in front of the last two segments: empty when there are only
      two, otherwise the earlier segments joined and followed by a separator. */
  function LeadingText(parts: seq<string>, sep: char): (r: string)
    requires |parts| >= 2
    ensures r == [] || r[|r| - 1] == sep
  {
    if |parts| == 2 then [] else Join(parts[..|parts| - 2], sep) + [sep]
  }

  /** A join ends with the last two segments, preceded by the leading text. */
  lemma {:induction false} JoinLastTwo(parts: seq<string>, sep: char)
    requires |parts| >= 2
    ensures Join(parts, sep)
         == LeadingText(parts, sep) + parts[|parts| - 2] + [sep] + parts[|parts| - 1]
  {
    if |parts| > 2 {
      var tail := parts[1..];
      JoinLastTwo(tail, sep);
      assert tail[|tail| - 2] == parts[|parts| - 2];
      assert tail[|tail| - 1] == parts[|parts| - 1];
      if |tail| > 2 {
        assert tail[..|tail| - 2] == parts[1..|parts| - 2];
        assert parts[..|parts| - 2] == [parts[0]] + parts[1..|parts| - 2];
        assert parts[..|parts| - 2][1..] == parts[1..|parts| - 2];
      } else {
        assert parts[..|parts| - 2] == [parts[0]];
      }
    }
  }

  /** Every string containing the separator is its leading text, then the
      second-to-last segment, a separator, and the last segment. */
  lemma LastTwoSegments(s: string, sep: char)
    requires sep in s
    ensures var r := Split(s, sep);
      |r| >= 2 &&
      s == LeadingText(r, sep) + r[|r| - 2] + [sep] + r[|r| - 1]
  {
    var r := Split(s, sep);
    assert multiset(s)[sep] > 0;
    SplitCount(s, sep);
    JoinOfSplit(s, sep);
    JoinLastTwo(r, sep);
  }
}
