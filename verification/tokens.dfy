/**
 The string assembly the converters use: Python's `sep.join(parts)`, the
 splitting that undoes it, and `s.replace(ch, "")` for a single character.
 */
module Tokens {

  /** `sep.join(parts)`: the parts in order with one separator between neighbours. */
  function Join(parts: seq<string>, sep: char): (s: string)
    ensures |parts| == 1 ==> s == parts[0]
    ensures |parts| >= 1 && |parts[0]| > 0 ==> |s| > 0 && s[0] == parts[0][0]
    ensures |parts| >= 1 && |parts[|parts| - 1]| > 0 ==>
      |s| > 0 && s[|s| - 1] == parts[|parts| - 1][|parts[|parts| - 1]| - 1]
    ensures forall ch :: ch in s ==> ch == sep || exists k :: 0 <= k < |parts| && ch in parts[k]
  {
    if |parts| == 0 then ""
    else if |parts| == 1 then parts[0]
    else parts[0] + [sep] + Join(parts[1..], sep)
  }

  /** `"".join(parts)`. */
  function Concat(parts: seq<string>): (s: string)
    ensures forall ch :: ch in s ==> exists k :: 0 <= k < |parts| && ch in parts[k]
  {
    if |parts| == 0 then "" else parts[0] + Concat(parts[1..])
  }

  /** `s.split(sep)`: the maximal runs between separators, always at least one. */
  function Split(s: string, sep: char): (parts: seq<string>)
    ensures |parts| >= 1
    ensures forall k :: 0 <= k < |parts| ==> sep !in parts[k]
    ensures sep !in s ==> parts == [s]
  {
    if |s| == 0 then [""]
    else
      var rest := Split(s[1..], sep);
      assert [s[0]] + s[1..] == s;
      if s[0] == sep then [""] + rest else [[s[0]] + rest[0]] + rest[1..]
  }

  /** `s.replace(ch, "")` for a one-character `ch`. */
  function Remove(s: string, ch: char): (r: string)
    ensures |r| <= |s|
    ensures forall c :: c in r <==> c in s && c != ch
  {
    if |s| == 0 then ""
    else if s[0] == ch then Remove(s[1..], ch)
    else [s[0]] + Remove(s[1..], ch)
  }

  predicate NoneContains(parts: seq<string>, sep: char) {
    forall k :: 0 <= k < |parts| ==> sep !in parts[k]
  }

  /** Splitting at the first separator peels off the text before it. */
  lemma {:induction false} SplitAtSeparator(a: string, b: string, sep: char)
    requires sep !in a
    ensures Split(a + [sep] + b, sep) == [a] + Split(b, sep)
  {
    if |a| == 0 {
      assert a + [sep] + b == [sep] + b;
      assert ([sep] + b)[1..] == b;
    } else {
      var s := a + [sep] + b;
      assert s[0] == a[0];
      assert s[1..] == a[1..] + [sep] + b;
      SplitAtSeparator(a[1..], b, sep);
      assert [a[0]] + a[1..] == a;
    }
  }

  /** Joining with a separator no part contains can be undone by splitting. */
  lemma {:induction false} SplitJoin(parts: seq<string>, sep: char)
    requires |parts| >= 1
    requires NoneContains(parts, sep)
    ensures Split(Join(parts, sep), sep) == parts
  {
    if |parts| > 1 {
      SplitAtSeparator(parts[0], Join(parts[1..], sep), sep);
      SplitJoin(parts[1..], sep);
      assert [parts[0]] + parts[1..] == parts;
    }
  }

  /** Splitting loses nothing: joining the pieces restores the text. */
  lemma {:induction false} JoinSplit(s: string, sep: char)
    ensures Join(Split(s, sep), sep) == s
  {
    if |s| > 0 {
      var rest := Split(s[1..], sep);
      JoinSplit(s[1..], sep);
      assert s == [s[0]] + s[1..];
      if s[0] == sep {
        var parts := [""] + rest;
        assert parts[1..] == rest;
        assert Join(parts, sep) == "" + [sep] + Join(rest, sep);
      } else {
        JoinPrependChar(s[0], rest, sep);
      }
    }
  }

  /** A character glued to the front of the first part is glued to the front of the join. */
  lemma {:induction false} JoinPrependChar(ch: char, parts: seq<string>, sep: char)
    requires |parts| >= 1
    ensures Join([[ch] + parts[0]] + parts[1..], sep) == [ch] + Join(parts, sep)
  {
    var glued := [[ch] + parts[0]] + parts[1..];
    assert glued[1..] == parts[1..];
    if |parts| > 1 {
      assert Join(parts, sep) == parts[0] + [sep] + Join(parts[1..], sep);
    }
  }

  lemma {:induction false} RemoveAppend(a: string, b: string, ch: char)
    ensures Remove(a + b, ch) == Remove(a, ch) + Remove(b, ch)
  {
    if |a| > 0 {
      assert (a + b)[1..] == a[1..] + b;
      RemoveAppend(a[1..], b, ch);
    } else {
      assert a + b == b;
    }
  }

  lemma {:induction false} RemoveAbsent(s: string, ch: char)
    requires ch !in s
    ensures Remove(s, ch) == s
  {
    if |s| > 0 {
      RemoveAbsent(s[1..], ch);
      assert [s[0]] + s[1..] == s;
    }
  }

  /** Deleting the separator from a join leaves the plain concatenation. */
  lemma {:induction false} RemoveJoin(parts: seq<string>, sep: char)
    requires NoneContains(parts, sep)
    ensures Remove(Join(parts, sep), sep) == Concat(parts)
  {
    if |parts| == 1 {
      RemoveAbsent(parts[0], sep);
      assert Concat(parts) == parts[0] + Concat([]);
    } else if |parts| > 1 {
      var rest := Join(parts[1..], sep);
      RemoveAppend(parts[0] + [sep], rest, sep);
      RemoveAppend(parts[0], [sep], sep);
      RemoveAbsent(parts[0], sep);
      RemoveJoin(parts[1..], sep);
    }
  }
}
