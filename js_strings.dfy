/**
 * JavaScript's `String.prototype.split` and `Array.prototype.join` for a
 * separator of exactly one character, on strings as sequences of characters.
 */
module JsStrings {

  /** Number of occurrences of `c` in `s`. */
  function Occurrences(s: string, c: char): nat
  {
    if s == [] then 0 else (if s[0] == c then 1 else 0) + Occurrences(s[1..], c)
  }

  /**
   * `s.split(sep)`: the maximal runs of `s` between occurrences of `sep`.
   * There is always one more token than separators, so the empty string
   * splits into one empty token and adjacent separators give empty tokens.
   */
  function Split(s: string, sep: char): (r: seq<string>)
    ensures |r| == Occurrences(s, sep) + 1
    ensures forall k :: 0 <= k < |r| ==> sep !in r[k]
  {
    if s == [] then [[]]
    else if s[0] == sep then [[]] + Split(s[1..], sep)
    else
      var rest := Split(s[1..], sep);
      [[s[0]] + rest[0]] + rest[1..]
  }

  /** Occurrences of a concatenation add up. */
  lemma {:induction false} OccurrencesConcat(a: string, b: string, c: char)
    ensures Occurrences(a + b, c) == Occurrences(a, c) + Occurrences(b, c)
  {
    if a != [] {
      OccurrencesConcat(a[1..], b, c);
      assert (a + b)[1..] == a[1..] + b;
    } else {
      assert a + b == b;
    }
  }

  /** A string without `c` has no occurrence of it. */
  lemma {:induction false} OccurrencesAbsent(w: string, c: char)
    ensures c !in w ==> Occurrences(w, c) == 0
  {
    if w != [] {
      OccurrencesAbsent(w[1..], c);
    }
  }

  /**
   * `parts.join(sep)`: the parts with one `sep` between neighbours, so a
   * join of separator-free parts holds exactly one separator fewer than
   * there are parts, and the empty list joins to the empty string.
   */
  function Join(parts: seq<string>, sep: char): (r: string)
    ensures |parts| == 0 ==> r == []
    ensures (forall k :: 0 <= k < |parts| ==> sep !in parts[k]) && |parts| > 0 ==>
      Occurrences(r, sep) == |parts| - 1
  {
    if |parts| == 0 then []
    else if |parts| == 1 then
      OccurrencesAbsent(parts[0], sep);
      parts[0]
    else
      var rest := Join(parts[1..], sep);
      OccurrencesAbsent(parts[0], sep);
      OccurrencesConcat(parts[0], [sep], sep);
      OccurrencesConcat(parts[0] + [sep], rest, sep);
      parts[0] + [sep] + rest
  }

  /** Joining the tokens of a split gives back the original string. */
  lemma {:induction false} JoinSplit(s: string, sep: char)
    ensures Join(Split(s, sep), sep) == s
  {
    if s == [] {
    } else if s[0] == sep {
      JoinSplit(s[1..], sep);
      assert Split(s, sep)[1..] == Split(s[1..], sep);
      assert s == [sep] + s[1..];
    } else {
      var rest := Split(s[1..], sep);
      JoinSplit(s[1..], sep);
      var parts := [[s[0]] + rest[0]] + rest[1..];
      assert parts[1..] == rest[1..];
      if |rest| == 1 {
        assert s == [s[0]] + s[1..];
      } else {
        assert Join(rest, sep) == rest[0] + [sep] + Join(rest[1..], sep);
        assert s == [s[0]] + s[1..];
      }
    }
  }

  /** A string without the separator is a single token. */
  lemma {:induction false} SplitWithoutSeparator(w: string, sep: char)
    requires sep !in w
    ensures Split(w, sep) == [w]
  {
    if w != [] {
      SplitWithoutSeparator(w[1..], sep);
      assert [w[0]] + w[1..] == w;
    }
  }

  /** A separator-free prefix followed by the separator is split off as the first token. */
  lemma {:induction false} SplitAfterToken(w: string, t: string, sep: char)
    requires sep !in w
    ensures Split(w + [sep] + t, sep) == [w] + Split(t, sep)
  {
    var s := w + [sep] + t;
    if w == [] {
      assert s == [sep] + t;
      assert s[1..] == t;
    } else {
      assert s[0] == w[0];
      assert s[1..] == w[1..] + [sep] + t;
      SplitAfterToken(w[1..], t, sep);
      assert [w[0]] + w[1..] == w;
    }
  }

  /** Splitting a join of separator-free parts gives back exactly those parts. */
  lemma {:induction false} SplitJoin(parts: seq<string>, sep: char)
    requires |parts| > 0
    requires forall k :: 0 <= k < |parts| ==> sep !in parts[k]
    ensures Split(Join(parts, sep), sep) == parts
  {
    if |parts| == 1 {
      SplitWithoutSeparator(parts[0], sep);
    } else {
      SplitJoin(parts[1..], sep);
      SplitAfterToken(parts[0], Join(parts[1..], sep), sep);
      assert [parts[0]] + parts[1..] == parts;
    }
  }
}
