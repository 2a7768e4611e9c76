/**
 * The .NET string operations the cron engine relies on: counting a character,
 * `String.Split(char)`, `String.Join(string, ...)` and `String.Trim()`.
 */
module Text {

  /** How many times `c` occurs in `s`. */
  function Occurrences(s: string, c: char): nat
  {
    if |s| == 0 then 0 else (if s[0] == c then 1 else 0) + Occurrences(s[1..], c)
  }

  /** Counting over a string extended by one character. */
  lemma {:induction false} OccurrencesSnoc(s: string, x: char, c: char)
    ensures Occurrences(s + [x], c) == Occurrences(s, c) + (if x == c then 1 else 0)
    decreases |s|
  {
    if |s| > 0 {
      assert (s + [x])[1..] == s[1..] + [x];
      OccurrencesSnoc(s[1..], x, c);
    }
  }

  /**
   * `String.Join(sep, parts)`: the parts with `sep` between neighbours;
   * the empty string when there are no parts.
   */
  function Join(parts: seq<string>, sep: string): string
  {
    if |parts| == 0 then ""
    else if |parts| == 1 then parts[0]
    else parts[0] + sep + Join(parts[1..], sep)
  }

  /**
   * `String.Split(sep)` with default options: every occurrence of `sep`
   * ends a piece, empty pieces are kept, so there is always one piece more
   * than there are separators and no piece contains the separator.
   */
  function Split(s: string, sep: char): (r: seq<string>)
    ensures |r| == Occurrences(s, sep) + 1
    ensures forall i :: 0 <= i < |r| ==> sep !in r[i]
  {
    if |s| == 0 then [""]
    else
      var rest := Split(s[1..], sep);
      if s[0] == sep then [""] + rest
      else
        var r := [[s[0]] + rest[0]] + rest[1..];
        assert forall i :: 1 <= i < |r| ==> r[i] == rest[i];
        r
  }

  /**
   * `Char.IsWhiteSpace`: the Unicode space separators (category Zs), the
   * line and paragraph separators, U+0009..U+000D and U+0085.
   */
  predicate IsWhiteSpace(c: char)
  {
    || c == ' ' || ('\t' <= c <= '\r') || c == '\U{85}' || c == '\U{A0}' || c == '\U{1680}'
    || ('\U{2000}' <= c <= '\U{200A}') || c == '\U{2028}' || c == '\U{2029}'
    || c == '\U{202F}' || c == '\U{205F}' || c == '\U{3000}'
  }

  /**
   * The two notions of white space the engine meets: `Char.IsWhiteSpace`,
   * which `String.Trim()` removes, and the narrower set `int.Parse` skips
   * around a number (U+0009..U+000D and the space).
   */
  datatype Blank = AnyWhiteSpace | NumberWhiteSpace

  predicate IsBlank(c: char, b: Blank)
  {
    match b
    case AnyWhiteSpace => IsWhiteSpace(c)
    case NumberWhiteSpace => c == ' ' || ('\t' <= c <= '\r')
  }

  /** How many `b` blanks `s` starts with. */
  function LeadingBlanks(s: string, b: Blank): (n: nat)
    ensures n <= |s|
    ensures forall k :: 0 <= k < n ==> IsBlank(s[k], b)
    ensures n == |s| || !IsBlank(s[n], b)
  {
    if |s| == 0 || !IsBlank(s[0], b) then 0
    else
      var n := LeadingBlanks(s[1..], b);
      assert forall k :: 1 <= k <= n ==> s[k] == s[1..][k - 1];
      n + 1
  }

  /** How many `b` blanks `s` ends with. */
  function TrailingBlanks(s: string, b: Blank): (n: nat)
    ensures n <= |s|
    ensures forall k :: |s| - n <= k < |s| ==> IsBlank(s[k], b)
    ensures n == |s| || !IsBlank(s[|s| - n - 1], b)
  {
    if |s| == 0 || !IsBlank(s[|s| - 1], b) then 0
    else
      var n := TrailingBlanks(s[..|s| - 1], b);
      assert forall k :: 0 <= k < |s| - 1 ==> s[k] == s[..|s| - 1][k];
      n + 1
  }

  /**
   * `s` without its leading and trailing `b` blanks: a contiguous piece of
   * `s` that neither starts nor ends with a blank, everything cut away
   * being blank.
   */
  function TrimBy(s: string, b: Blank): (r: string)
    ensures |r| == 0 || (!IsBlank(r[0], b) && !IsBlank(r[|r| - 1], b))
    ensures var i := LeadingBlanks(s, b);
            i + |r| <= |s| && r == s[i..i + |r|] && Cut(s, i, i + |r|, b)
  {
    var i := LeadingBlanks(s, b);
    var n := TrailingBlanks(s[i..], b);
    TrimShape(s, b, i, n);
    s[i..|s| - n]
  }

  /** The piece between the leading and the trailing blanks has blank-free ends and is all that is kept. */
  lemma TrimShape(s: string, b: Blank, i: nat, n: nat)
    requires i == LeadingBlanks(s, b) && n == TrailingBlanks(s[i..], b)
    ensures i <= |s| - n
    ensures var r := s[i..|s| - n];
            && (|r| == 0 || (!IsBlank(r[0], b) && !IsBlank(r[|r| - 1], b)))
            && Cut(s, i, |s| - n, b)
  {
    var t := s[i..];
    var r := s[i..|s| - n];
    forall k | |s| - n <= k < |s| ensures IsBlank(s[k], b) {
      assert s[k] == t[k - i];
    }
    if |r| > 0 {
      assert r[0] == s[i] && !IsBlank(s[i], b);
      assert r[|r| - 1] == t[|t| - n - 1] && !IsBlank(t[|t| - n - 1], b);
    }
  }

  /** `String.Trim()`: `s` without its leading and trailing white space. */
  function Trim(s: string): (r: string)
    ensures |r| == 0 || (!IsBlank(r[0], AnyWhiteSpace) && !IsBlank(r[|r| - 1], AnyWhiteSpace))
    ensures var i := LeadingBlanks(s, AnyWhiteSpace);
            i + |r| <= |s| && r == s[i..i + |r|] && Cut(s, i, i + |r|, AnyWhiteSpace)
  {
    TrimBy(s, AnyWhiteSpace)
  }

  /** Everything of `s` outside `s[i..j]` is a `b` blank. */
  predicate Cut(s: string, i: nat, j: nat, b: Blank)
    requires i <= j <= |s|
  {
    (forall k :: 0 <= k < i ==> IsBlank(s[k], b)) && (forall k :: j <= k < |s| ==> IsBlank(s[k], b))
  }

  /** A string that neither starts nor ends with white space is its own trim. */
  lemma TrimOfTrimmed(s: string)
    requires |s| == 0 || (!IsWhiteSpace(s[0]) && !IsWhiteSpace(s[|s| - 1]))
    ensures Trim(s) == s
  {
  }

  /** Joining after appending one more part adds the separator and that part. */
  lemma {:induction false} JoinSnoc(parts: seq<string>, x: string, sep: string)
    requires |parts| >= 1
    ensures Join(parts + [x], sep) == Join(parts, sep) + sep + x
    decreases |parts|
  {
    if |parts| == 1 {
      assert (parts + [x])[1..] == [x];
    } else {
      assert (parts + [x])[1..] == parts[1..] + [x];
      JoinSnoc(parts[1..], x, sep);
    }
  }

  /** Joining a concatenation joins the two halves with one more separator. */
  lemma {:induction false} JoinAppend(a: seq<string>, b: seq<string>, sep: string)
    requires |a| >= 1 && |b| >= 1
    ensures Join(a + b, sep) == Join(a, sep) + sep + Join(b, sep)
    decreases |a|
  {
    if |a| == 1 {
      assert (a + b)[1..] == b;
    } else {
      assert (a + b)[1..] == a[1..] + b;
      JoinAppend(a[1..], b, sep);
    }
  }

  /** Round trip: joining the pieces of a split with the separator restores the string. */
  lemma {:induction false} JoinSplit(s: string, sep: char)
    ensures Join(Split(s, sep), [sep]) == s
    decreases |s|
  {
    if |s| > 0 {
      var rest := Split(s[1..], sep);
      JoinSplit(s[1..], sep);
      if s[0] == sep {
        assert ([""] + rest)[1..] == rest;
      } else {
        var r := [[s[0]] + rest[0]] + rest[1..];
        assert r[1..] == rest[1..];
        if |rest| > 1 {
          assert Join(rest, [sep]) == rest[0] + [sep] + Join(rest[1..], [sep]);
        }
      }
    }
  }

  /** Splitting a string with no separator in it gives that string alone. */
  lemma {:induction false} SplitNoSeparator(a: string, sep: char)
    requires sep !in a
    ensures Split(a, sep) == [a]
    decreases |a|
  {
    if |a| > 0 {
      assert a == [a[0]] + a[1..];
      SplitNoSeparator(a[1..], sep);
    }
  }

  /** A separator-free head followed by the separator splits off as the first piece. */
  lemma {:induction false} SplitHead(a: string, sep: char, tail: string)
    requires sep !in a
    ensures Split(a + [sep] + tail, sep) == [a] + Split(tail, sep)
    decreases |a|
  {
    var s := a + [sep] + tail;
    if |a| == 0 {
      assert s[1..] == tail;
    } else {
      assert s[1..] == a[1..] + [sep] + tail;
      assert a == [a[0]] + a[1..];
      SplitHead(a[1..], sep, tail);
    }
  }

  /** Round trip: splitting a join of separator-free parts gives the parts back. */
  lemma {:induction false} SplitJoin(parts: seq<string>, sep: char)
    requires |parts| >= 1
    requires forall i :: 0 <= i < |parts| ==> sep !in parts[i]
    ensures Split(Join(parts, [sep]), sep) == parts
    decreases |parts|
  {
    if |parts| == 1 {
      SplitNoSeparator(parts[0], sep);
    } else {
      SplitJoin(parts[1..], sep);
      SplitHead(parts[0], sep, Join(parts[1..], [sep]));
      assert parts[0] + [sep] + Join(parts[1..], [sep]) == Join(parts, [sep]);
    }
  }

  /**
   * Splitting separator-free parts joined and followed by a separator and any
   * tail gives those parts followed by the pieces of the tail.
   */
  lemma {:induction false} SplitJoinThen(parts: seq<string>, sep: char, tail: string)
    requires |parts| >= 1
    requires forall i :: 0 <= i < |parts| ==> sep !in parts[i]
    ensures Split(Join(parts, [sep]) + [sep] + tail, sep) == parts + Split(tail, sep)
    decreases |parts|
  {
    if |parts| == 1 {
      SplitHead(parts[0], sep, tail);
    } else {
      var rest := Join(parts[1..], [sep]) + [sep] + tail;
      assert Join(parts, [sep]) + [sep] + tail == parts[0] + [sep] + rest by {
        assert Join(parts, [sep]) == parts[0] + [sep] + Join(parts[1..], [sep]);
      }
      assert [parts[0]] + (parts[1..] + Split(tail, sep)) == parts + Split(tail, sep) by {
        assert parts == [parts[0]] + parts[1..];
      }
      SplitJoinThen(parts[1..], sep, tail);
      SplitHead(parts[0], sep, rest);
    }
  }
}
