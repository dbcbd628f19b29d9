/**
 * Character-level string operations the script relies on: counting one
 * character (Python's `str.count` with a one-character argument), joining
 * lines with a separator (`sep.join`) and splitting them again
 * (`str.split(sep)`), and splitting a line at the last occurrence of a
 * character. Strings are sequences of characters; no encoding is modelled.
 */
module Text {
  import opened Wrappers

  /** Number of occurrences of `c` in `s`. */
  function CountChar(s: string, c: char): (n: nat)
    ensures n <= |s|
    ensures n == 0 <==> c !in s
  {
    if s == [] then 0
    else (if s[0] == c then 1 else 0) + CountChar(s[1..], c)
  }

  /** `CountChar` is the number of times `c` occurs in `s`. */
  lemma {:induction false} CountCharIsMultiplicity(s: string, c: char)
    ensures CountChar(s, c) == multiset(s)[c]
  {
    if s != [] {
      CountCharIsMultiplicity(s[1..], c);
      assert s == [s[0]] + s[1..];
      assert multiset(s) == multiset([s[0]]) + multiset(s[1..]);
    }
  }

  /** `parts` joined with `sep` between consecutive parts; the empty list joins to "". */
  function Join(parts: seq<string>, sep: char): (s: string)
    ensures |parts| > 0 ==> parts[0] <= s
  {
    if |parts| == 0 then ""
    else if |parts| == 1 then parts[0]
    else parts[0] + [sep] + Join(parts[1..], sep)
  }

  /** The pieces of `s` between occurrences of `sep`, as Python's `s.split(sep)`: never empty. */
  function Split(s: string, sep: char): (parts: seq<string>)
    ensures |parts| == CountChar(s, sep) + 1
    ensures forall k :: 0 <= k < |parts| ==> sep !in parts[k]
  {
    if s == [] then [""]
    else
      var rest := Split(s[1..], sep);
      if s[0] == sep then [""] + rest
      else [[s[0]] + rest[0]] + rest[1..]
  }

  /** A string without `sep` is a single piece. */
  lemma {:induction false} SplitWithoutSeparator(a: string, sep: char)
    requires sep !in a
    ensures Split(a, sep) == [a]
  {
    if a != [] {
      SplitWithoutSeparator(a[1..], sep);
      assert [a[0]] + a[1..] == a;
    }
  }

  /** Splitting at the first separator peels off the piece before it. */
  lemma {:induction false} SplitAfterFirstPiece(a: string, sep: char, b: string)
    requires sep !in a
    ensures Split(a + [sep] + b, sep) == [a] + Split(b, sep)
  {
    var s := a + [sep] + b;
    if a == [] {
      assert s[0] == sep && s[1..] == b;
    } else {
      assert s[0] == a[0] && s[1..] == a[1..] + [sep] + b;
      SplitAfterFirstPiece(a[1..], sep, b);
      assert [a[0]] + a[1..] == a;
    }
  }

  /** Splitting a non-empty join of separator-free pieces gives the pieces back. */
  lemma {:induction false} SplitJoin(parts: seq<string>, sep: char)
    requires |parts| > 0
    requires forall k :: 0 <= k < |parts| ==> sep !in parts[k]
    ensures Split(Join(parts, sep), sep) == parts
  {
    if |parts| == 1 {
      SplitWithoutSeparator(parts[0], sep);
    } else {
      SplitJoin(parts[1..], sep);
      SplitAfterFirstPiece(parts[0], sep, Join(parts[1..], sep));
      assert [parts[0]] + parts[1..] == parts;
    }
  }

  /** Joining the pieces of any string gives the string back. */
  lemma {:induction false} JoinSplit(s: string, sep: char)
    ensures Join(Split(s, sep), sep) == s
  {
    if s != [] {
      JoinSplit(s[1..], sep);
      var rest := Split(s[1..], sep);
      if s[0] == sep {
        assert ([""] + rest)[1..] == rest;
        assert [s[0]] + s[1..] == s;
      } else if |rest| == 1 {
        assert [s[0]] + s[1..] == s;
      } else {
        assert ([[s[0]] + rest[0]] + rest[1..])[1..] == rest[1..];
        assert [s[0]] + s[1..] == s;
      }
    }
  }

  /** `s` cut at the last `c`: the text before it and the text after it; None when `c` does not occur. */
  function SplitAtLast(s: string, c: char): (r: Option<(string, string)>)
    ensures r.None? <==> c !in s
    ensures r.Some? ==> s == r.value.0 + [c] + r.value.1 && c !in r.value.1
  {
    if s == [] then None
    else if s[|s| - 1] == c then Some((s[..|s| - 1], ""))
    else
      match SplitAtLast(s[..|s| - 1], c)
      case None => None
      case Some((before, after)) => Some((before, after + [s[|s| - 1]]))
  }

  /** Cutting `a + [c] + b` at its last `c` gives back `a` and `b` when `b` has no `c`. */
  lemma {:induction false} SplitAtLastJoined(a: string, c: char, b: string)
    requires c !in b
    ensures SplitAtLast(a + [c] + b, c) == Some((a, b))
  {
    var s := a + [c] + b;
    if b == [] {
      assert s[..|s| - 1] == a;
    } else {
      var b' := b[..|b| - 1];
      assert s[..|s| - 1] == a + [c] + b';
      assert s[|s| - 1] == b[|b| - 1];
      SplitAtLastJoined(a, c, b');
      assert b' + [b[|b| - 1]] == b;
    }
  }
}
