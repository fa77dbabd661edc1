/**
 * The eight field patterns of the line parser (SQL1.py:137-144), each written
 * as the search `re.search` performs: try every start position from the left
 * and return group 1 of the first position where the pattern matches.
 *
 *  - `Lazy(prefix, close)` is `prefix(.*?)close`: the text up to the first
 *    `close`, which `.` must reach without crossing a newline;
 *  - `Escaped(prefix)` is `prefix((?:[^"\\]|\\.)*)"`: characters other than a
 *    quote or backslash, or a backslash and any character but a newline, up
 *    to an unescaped quote;
 *  - `Digits(prefix)` is `prefix(\d+)`: the whole run of digits after it.
 */
module Scan {
  import opened Wrappers
  import opened Text

  datatype Pattern = Lazy(prefix: string, close: char) | Escaped(prefix: string) | Digits(prefix: string)

  /** Where a match starts and what its group 1 captured. */
  datatype Capture = Capture(at: nat, text: string)

  const TitlePattern := Lazy("\"title\":\"", '"')
  const TagsPattern := Lazy("\"tags\":[", ']')
  const DescriptionPattern := Escaped("\"description\":\"")
  const SystemTimePattern := Lazy("\"SystemTime\":\"", '"')
  const ComputerPattern := Lazy("\"Computer\":\"", '"')
  const UserIdPattern := Lazy("\"UserID\":\"", '"')
  const EventIdPattern := Digits("\"EventID\":")
  const ProviderPattern := Lazy("\"Provider_Name\":\"", '"')

  predicate StartsWithAt(s: string, i: nat, p: string) {
    i + |p| <= |s| && s[i..i + |p|] == p
  }

  /** The position of the first `close` in `s`, provided no newline comes before it. */
  function UpTo(s: string, close: char): (r: Option<nat>)
    requires close != '\n'
    ensures r.Some? ==> r.value < |s| && s[r.value] == close && close !in s[..r.value] && '\n' !in s[..r.value]
    ensures r.None? ==> forall k :: 0 <= k < |s| && s[k] == close ==> '\n' in s[..k]
  {
    if s == [] || s[0] == '\n' then None
    else if s[0] == close then Some(0)
    else
      match UpTo(s[1..], close)
      case None =>
        assert forall k :: 1 <= k < |s| ==> s[1..][..k - 1] == s[1..k];
        None
      case Some(k) =>
        assert s[..k + 1] == [s[0]] + s[1..][..k];
        Some(k + 1)
  }

  /** The first `close` after a run free of it and of newlines ends the lazy match. */
  lemma {:induction false} UpToFirst(p: string, close: char, tail: string)
    requires close != '\n' && close !in p && '\n' !in p
    ensures UpTo(p + [close] + tail, close) == Some(|p|)
  {
    if p != [] {
      assert (p + [close] + tail)[1..] == p[1..] + [close] + tail;
      UpToFirst(p[1..], close, tail);
    }
  }

  /** A lazy pattern whose key opens the line captures up to the first closing character. */
  lemma LazyAtStart(pat: Pattern, v: string, tail: string)
    requires pat.Lazy? && pat.close != '\n' && pat.close !in v && '\n' !in v
    ensures Find(pat.prefix + v + [pat.close] + tail, pat) == Some(v)
  {
    var line := pat.prefix + v + [pat.close] + tail;
    assert line[..|pat.prefix|] == pat.prefix;
    assert line[|pat.prefix|..] == v + [pat.close] + tail;
    UpToFirst(v, pat.close, tail);
    assert (v + [pat.close] + tail)[..|v|] == v;
  }

  /** `(?:[^"\\]|\\.)*`: the only way a body may be split into items. */
  predicate WellEscaped(b: string) {
    if b == [] then true
    else if b[0] == '\\' then |b| >= 2 && b[1] != '\n' && WellEscaped(b[2..])
    else b[0] != '"' && WellEscaped(b[1..])
  }

  /**
   * The length of the escaped body at the front of `s` when an unescaped
   * quote ends it. The items of the body can be read only one way, so the
   * greedy match, with or without backtracking, ends at that quote.
   */
  function EscapedBody(s: string): (r: Option<nat>)
    ensures r.Some? ==> r.value < |s| && s[r.value] == '"' && WellEscaped(s[..r.value])
  {
    if s == [] then None
    else if s[0] == '"' then Some(0)
    else if s[0] == '\\' then
      if |s| >= 2 && s[1] != '\n' then
        match EscapedBody(s[2..])
        case None => None
        case Some(k) =>
          assert s[..k + 2][2..] == s[2..][..k];
          Some(k + 2)
      else None
    else
      match EscapedBody(s[1..])
      case None => None
      case Some(k) =>
        assert s[..k + 1][1..] == s[1..][..k];
        Some(k + 1)
  }

  /**
   * A body is split into items in one way only, so a quote after a
   * well-escaped prefix is the quote that ends the body: whenever such a
   * quote exists, the body is found, and it ends there.
   */
  lemma {:induction false} EscapedBodyUnique(s: string, k: nat)
    requires k < |s| && s[k] == '"' && WellEscaped(s[..k])
    ensures EscapedBody(s) == Some(k)
  {
    if k > 0 {
      if s[0] == '\\' {
        assert s[..k][2..] == s[2..][..k - 2];
        EscapedBodyUnique(s[2..], k - 2);
      } else {
        assert s[..k][1..] == s[1..][..k - 1];
        EscapedBodyUnique(s[1..], k - 1);
      }
    }
  }

  /** Group 1 of the pattern when it matches at position `q` of the line. */
  function MatchAt(line: string, q: nat, pat: Pattern): (r: Option<string>)
    requires pat.Lazy? ==> pat.close != '\n'
    ensures r.Some? ==> StartsWithAt(line, q, pat.prefix)
    ensures r.Some? ==> var start := q + |pat.prefix|;
              start + |r.value| <= |line| && line[start..start + |r.value|] == r.value
    ensures r.Some? && pat.Lazy? ==> var end := q + |pat.prefix| + |r.value|;
              end < |line| && line[end] == pat.close && pat.close !in r.value && '\n' !in r.value
    ensures r.Some? && pat.Escaped? ==> var end := q + |pat.prefix| + |r.value|;
              end < |line| && line[end] == '"' && WellEscaped(r.value)
    ensures r.Some? && pat.Digits? ==> var end := q + |pat.prefix| + |r.value|;
              r.value != [] && AllDigits(r.value) && (end < |line| ==> !IsDigit(line[end]))
  {
    if !StartsWithAt(line, q, pat.prefix) then None
    else
      var rest := line[q + |pat.prefix|..];
      match pat
      case Lazy(_, close) =>
        (match UpTo(rest, close)
         case None => None
         case Some(k) => Some(rest[..k]))
      case Escaped(_) =>
        (match EscapedBody(rest)
         case None => None
         case Some(k) => Some(rest[..k]))
      case Digits(_) =>
        var n := DigitRun(rest);
        if n == 0 then None else Some(rest[..n])
  }

  /**
   * Where the key of a lazy field sits at `q`, the match fails only when
   * every closing character after it lies past a newline.
   */
  lemma LazyComplete(line: string, q: nat, pat: Pattern)
    requires pat.Lazy? && pat.close != '\n' && StartsWithAt(line, q, pat.prefix)
    requires MatchAt(line, q, pat).None?
    ensures forall k :: q + |pat.prefix| <= k < |line| && line[k] == pat.close ==> '\n' in line[q + |pat.prefix|..k]
  {
    var start := q + |pat.prefix|;
    var rest := line[start..];
    assert UpTo(rest, pat.close).None?;
    forall k | start <= k < |line| && line[k] == pat.close
      ensures '\n' in line[start..k]
    {
      assert rest[k - start] == pat.close && line[start..k] == rest[..k - start];
    }
  }

  /**
   * Where the key of the escaped field sits at `q`, a well-escaped body
   * that a quote ends is what the match captures.
   */
  lemma EscapedComplete(line: string, q: nat, pat: Pattern, k: nat)
    requires pat.Escaped? && StartsWithAt(line, q, pat.prefix)
    requires q + |pat.prefix| <= k < |line| && line[k] == '"' && WellEscaped(line[q + |pat.prefix|..k])
    ensures MatchAt(line, q, pat) == Some(line[q + |pat.prefix|..k])
  {
    var start := q + |pat.prefix|;
    var rest := line[start..];
    assert rest[k - start] == '"' && line[start..k] == rest[..k - start];
    EscapedBodyUnique(rest, k - start);
    assert pat == Escaped(pat.prefix);
  }

  /** A description whose key opens the line is captured whole, escaped quotes included. */
  lemma EscapedAtStart(v: string, tail: string)
    requires WellEscaped(v)
    ensures Find(DescriptionPattern.prefix + v + "\"" + tail, DescriptionPattern) == Some(v)
  {
    var prefix := DescriptionPattern.prefix;
    var line := prefix + v + "\"" + tail;
    assert line[..|prefix|] == prefix;
    assert line[|prefix|..|prefix| + |v|] == v && line[|prefix| + |v|] == '"';
    EscapedComplete(line, 0, DescriptionPattern, |prefix| + |v|);
  }

  /** Where the key of a digit field sits at `q`, the match succeeds exactly when a digit follows it. */
  lemma DigitsComplete(line: string, q: nat, pat: Pattern)
    requires pat.Digits? && StartsWithAt(line, q, pat.prefix)
    ensures MatchAt(line, q, pat).Some? <==> q + |pat.prefix| < |line| && IsDigit(line[q + |pat.prefix|])
  {
    var start := q + |pat.prefix|;
    assert start < |line| ==> line[start..][0] == line[start];
  }

  /** The leftmost match at or after position `from`. */
  function Search(line: string, pat: Pattern, from: nat): (r: Option<Capture>)
    requires pat.Lazy? ==> pat.close != '\n'
    requires from <= |line|
    ensures r.Some? ==> from <= r.value.at <= |line| && MatchAt(line, r.value.at, pat) == Some(r.value.text)
    ensures r.Some? ==> forall q :: from <= q < r.value.at ==> MatchAt(line, q, pat).None?
    ensures r.None? ==> forall q :: from <= q <= |line| ==> MatchAt(line, q, pat).None?
    decreases |line| - from
  {
    match MatchAt(line, from, pat)
    case Some(v) => Some(Capture(from, v))
    case None => if from == |line| then None else Search(line, pat, from + 1)
  }

  /** `re.search(pattern, line)` and its group 1, None when there is no match. */
  function Find(line: string, pat: Pattern): (r: Option<string>)
    requires pat.Lazy? ==> pat.close != '\n'
    ensures r.None? <==> forall q :: 0 <= q <= |line| ==> MatchAt(line, q, pat).None?
    ensures r.Some? ==> exists q :: 0 <= q <= |line| && MatchAt(line, q, pat) == r
                                    && forall p :: 0 <= p < q ==> MatchAt(line, p, pat).None?
  {
    match Search(line, pat, 0)
    case None => None
    case Some(c) => Some(c.text)
  }

  /** Every quote inside a well-escaped body is preceded by a backslash: the body does not end at `\"`. */
  lemma {:induction false} EscapedQuotesKept(b: string, k: nat)
    requires WellEscaped(b) && k < |b| && b[k] == '"'
    ensures k > 0 && b[k - 1] == '\\'
  {
    if b[0] == '\\' {
      if k >= 2 {
        EscapedQuotesKept(b[2..], k - 2);
      }
    } else {
      EscapedQuotesKept(b[1..], k - 1);
    }
  }
}
