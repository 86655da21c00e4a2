/**
 * String operations the path classifiers and the commit fold rely on:
 * `str::split` with a char pattern, `str::contains` with a string pattern,
 * and the character classes of the regular expressions.
 */
module Text {

  /** `p` occurs in `s` starting at index `i`. */
  predicate OccursAt(s: string, p: string, i: int) {
    0 <= i && i + |p| <= |s| && s[i..i + |p|] == p
  }

  /** `str::contains` with a string pattern. */
  predicate Contains(s: string, p: string) {
    exists i | 0 <= i <= |s| - |p| :: OccursAt(s, p, i)
  }

  /** `x` is a suffix of `s` (the counterpart of the built-in prefix test `x <= s`). */
  predicate IsSuffix(x: string, s: string) {
    |x| <= |s| && s[|s| - |x|..] == x
  }

  /** `str::split` with a char pattern: the pieces of `s` between occurrences of `sep`. */
  function Split(s: string, sep: char): (parts: seq<string>)
    ensures |parts| >= 1
  {
    if s == [] then [[]]
    else
      var rest := Split(s[1..], sep);
      if s[0] == sep then [[]] + rest
      else [[s[0]] + rest[0]] + rest[1..]
  }

  /** No piece holds the separator. */
  lemma {:induction false} SplitPiecesFree(s: string, sep: char)
    ensures forall k | 0 <= k < |Split(s, sep)| :: sep !in Split(s, sep)[k]
  {
    if s != [] {
      SplitPiecesFree(s[1..], sep);
      var rest := Split(s[1..], sep);
      if s[0] != sep {
        assert sep !in [s[0]] + rest[0];
      }
    }
  }

  /** The first piece is the text before the first `sep` (all of `s` when there is none). */
  lemma {:induction false} SplitFirst(s: string, sep: char)
    ensures var first := Split(s, sep)[0];
            first <= s && sep !in first && (|first| < |s| ==> s[|first|] == sep)
  {
    if s != [] && s[0] != sep {
      SplitFirst(s[1..], sep);
      var rest := Split(s[1..], sep);
      assert Split(s, sep)[0] == [s[0]] + rest[0];
      assert s == [s[0]] + s[1..];
    }
  }

  /** `last` is the text after the last `sep` of `s` (all of `s` when there is none). */
  predicate IsLastPiece(last: string, s: string, sep: char) {
    IsSuffix(last, s) && sep !in last && (|last| < |s| ==> s[|s| - |last| - 1] == sep)
  }

  /** The last piece is the text after the last `sep` (all of `s` when there is none). */
  lemma {:induction false} SplitLast(s: string, sep: char)
    ensures var parts := Split(s, sep);
            IsLastPiece(parts[|parts| - 1], s, sep)
  {
    if s != [] {
      var rest := Split(s[1..], sep);
      SplitLast(s[1..], sep);
      if s[0] != sep && |rest| == 1 {
        SplitLastSingle(s, sep);
      } else {
        SplitLastMany(s, sep);
      }
    }
  }

  /** The step of `SplitLast` when `s` is a single piece. */
  lemma SplitLastSingle(s: string, sep: char)
    requires s != [] && s[0] != sep && |Split(s[1..], sep)| == 1
    requires IsLastPiece(Split(s[1..], sep)[0], s[1..], sep)
    ensures var parts := Split(s, sep);
            IsLastPiece(parts[|parts| - 1], s, sep)
  {
    SplitSingle(s, sep);
    assert s[0..] == s;
  }

  /** The step of `SplitLast` when the last piece of `s` is the last piece of its tail. */
  lemma SplitLastMany(s: string, sep: char)
    requires s != [] && (s[0] == sep || |Split(s[1..], sep)| > 1)
    requires var rest := Split(s[1..], sep);
             IsLastPiece(rest[|rest| - 1], s[1..], sep)
    ensures var parts := Split(s, sep);
            IsLastPiece(parts[|parts| - 1], s, sep)
  {
    SplitLastOfTail(s, sep);
    var rest := Split(s[1..], sep);
    var last := rest[|rest| - 1];
    SuffixOfTail(last, s);
    if s[0] != sep {
      SplitManyHoldsSep(s[1..], sep);
    }
  }

  /** A string whose tail has no separator, and does not start with one, is a single piece. */
  lemma SplitSingle(s: string, sep: char)
    requires s != [] && s[0] != sep && |Split(s[1..], sep)| == 1
    requires sep !in Split(s[1..], sep)[0]
    ensures Split(s, sep) == [s] && sep !in s
  {
    SplitJoin(s[1..], sep);
    assert s == [s[0]] + s[1..];
  }

  /** When the head does not extend a lone tail piece, the last piece is the tail's last piece. */
  lemma SplitLastOfTail(s: string, sep: char)
    requires s != [] && (s[0] == sep || |Split(s[1..], sep)| > 1)
    ensures var parts := Split(s, sep);
            var rest := Split(s[1..], sep);
            parts[|parts| - 1] == rest[|rest| - 1]
  {
  }

  /** More than one piece means the separator occurs. */
  lemma {:induction false} SplitManyHoldsSep(s: string, sep: char)
    requires |Split(s, sep)| > 1
    ensures sep in s
  {
    if s[0] != sep {
      SplitManyHoldsSep(s[1..], sep);
      assert s == [s[0]] + s[1..];
    }
  }

  /** A suffix of the tail of `s` is a suffix of `s`, preceded in `s` by what preceded it in the tail. */
  lemma SuffixOfTail(x: string, s: string)
    requires s != [] && IsSuffix(x, s[1..])
    ensures IsSuffix(x, s)
    ensures |x| < |s| - 1 ==> s[|s| - |x| - 1] == s[1..][|s| - 1 - |x| - 1]
  {
    assert s[|s| - |x|..] == s[1..][|s| - 1 - |x|..];
  }

  /** The inverse of `Split`: the pieces glued back together with `sep`. */
  function Join(parts: seq<string>, sep: char): string
    requires |parts| >= 1
  {
    if |parts| == 1 then parts[0] else parts[0] + [sep] + Join(parts[1..], sep)
  }

  /** Splitting loses nothing: joining the pieces with the separator gives back the string. */
  lemma {:induction false} SplitJoin(s: string, sep: char)
    ensures Join(Split(s, sep), sep) == s
  {
    if s != [] {
      SplitJoin(s[1..], sep);
      if s[0] == sep {
        JoinAfterSep(s, sep);
      } else if |Split(s[1..], sep)| == 1 {
        JoinSinglePiece(s, sep);
      } else {
        JoinExtendedPiece(s, sep);
      }
    }
  }

  /** The step of `SplitJoin` when `s` starts with the separator. */
  lemma JoinAfterSep(s: string, sep: char)
    requires s != [] && s[0] == sep && Join(Split(s[1..], sep), sep) == s[1..]
    ensures Join(Split(s, sep), sep) == s
  {
    var parts := Split(s, sep);
    assert parts == [[]] + Split(s[1..], sep);
    assert parts[1..] == Split(s[1..], sep);
    assert s == [s[0]] + s[1..];
  }

  /** The step of `SplitJoin` when `s` is one piece. */
  lemma JoinSinglePiece(s: string, sep: char)
    requires s != [] && s[0] != sep && |Split(s[1..], sep)| == 1
    requires Join(Split(s[1..], sep), sep) == s[1..]
    ensures Join(Split(s, sep), sep) == s
  {
    var rest := Split(s[1..], sep);
    assert Split(s, sep) == [[s[0]] + rest[0]];
    assert s == [s[0]] + s[1..];
  }

  /** The step of `SplitJoin` when the head of `s` extends the first of several pieces. */
  lemma JoinExtendedPiece(s: string, sep: char)
    requires s != [] && s[0] != sep && |Split(s[1..], sep)| > 1
    requires Join(Split(s[1..], sep), sep) == s[1..]
    ensures Join(Split(s, sep), sep) == s
  {
    var rest := Split(s[1..], sep);
    var parts := Split(s, sep);
    assert parts == [[s[0]] + rest[0]] + rest[1..];
    assert |parts| == |rest| && parts[1..] == rest[1..];
    var tail := Join(rest[1..], sep);
    calc {
      Join(parts, sep);
      parts[0] + [sep] + Join(parts[1..], sep);
      ([s[0]] + rest[0]) + [sep] + tail;
      [s[0]] + (rest[0] + [sep] + tail);
      [s[0]] + Join(rest, sep);
      [s[0]] + s[1..];
      s;
    }
  }

  /** A (Unicode-approximating) ASCII `\d`. */
  predicate IsDigit(c: char) {
    '0' <= c <= '9'
  }

  /** A (Unicode-approximating) ASCII `\w`: letters, digits and underscore. */
  predicate IsWordChar(c: char) {
    ('a' <= c <= 'z') || ('A' <= c <= 'Z') || IsDigit(c) || c == '_'
  }
}
