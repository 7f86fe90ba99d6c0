/** `ExtractUrls`: the global match of `/https?:\/\/[^\s]+/g` over a post's
    content, as a left-to-right scanner over positions, together with a
    declarative description of the matches it must find. */
module Urls {
  import opened Text

  /** `s` has `p` at position `i`. */
  predicate HasAt(s: string, i: nat, p: string) {
    i + |p| <= |s| && s[i..i + |p|] == p
  }

  /** The pattern matches at `i`: `https://` or `http://` followed by at
      least one non-whitespace character. With `https://` the `s?` takes
      the `s`; backtracking to `http` cannot help, since `://` would then
      have to start at the `s`. */
  predicate UrlStartsAt(s: string, i: nat) {
    || (HasAt(s, i, "https://") && i + 8 < |s| && !IsWhitespace(s[i + 8]))
    || (HasAt(s, i, "http://") && i + 7 < |s| && !IsWhitespace(s[i + 7]))
  }

  /** The end of the run of non-whitespace characters starting at `i`:
      where the greedy `[^\s]+` stops. */
  function NextWhitespace(s: string, i: nat): (r: nat)
    requires i <= |s|
    ensures i <= r <= |s|
    ensures forall k :: i <= k < r ==> !IsWhitespace(s[k])
    ensures r == |s| || IsWhitespace(s[r])
    decreases |s| - i
  {
    if i == |s| || IsWhitespace(s[i]) then i else NextWhitespace(s, i + 1)
  }

  /** One match, as the half-open range of positions it covers. */
  datatype Span = Span(start: nat, end: nat)

  /** The match that starts at `i`: the whole non-whitespace run. */
  lemma UrlSpanNonEmpty(s: string, i: nat)
    requires i < |s| && UrlStartsAt(s, i)
    ensures NextWhitespace(s, i) > i + 7
  {
    var p := if HasAt(s, i, "https://") && i + 8 < |s| && !IsWhitespace(s[i + 8]) then "https://" else "http://";
    forall k | i <= k <= i + |p|
      ensures !IsWhitespace(s[k])
    {
      if k < i + |p| {
        assert s[k] == s[i..i + |p|][k - i] == p[k - i];
      }
    }
    NextWhitespacePast(s, i, i + |p|);
  }

  lemma NextWhitespacePast(s: string, i: nat, k: nat)
    requires i <= k < |s|
    requires forall j :: i <= j <= k ==> !IsWhitespace(s[j])
    ensures NextWhitespace(s, i) > k
  {
  }

  /** The global-match loop from position `i`: try the pattern at each
      position; after a match continue at its end, otherwise at the next
      position. */
  function Scan(s: string, i: nat): (ms: seq<Span>)
    requires i <= |s|
    decreases |s| - i
  {
    if i == |s| then []
    else if UrlStartsAt(s, i) then
      UrlSpanNonEmpty(s, i);
      var e := NextWhitespace(s, i);
      [Span(i, e)] + Scan(s, e)
    else Scan(s, i + 1)
  }

  /** No match can start in `[lo, hi)`. */
  predicate NoUrlIn(s: string, lo: nat, hi: nat) {
    forall k :: lo <= k < hi ==> !UrlStartsAt(s, k)
  }

  /** The matches of a global match from `i`, described by what they are
      rather than how they are found: the first starts at the first
      position where the pattern matches, spans the maximal
      non-whitespace run there, and the rest are the matches from its
      end. */
  predicate ValidScan(s: string, i: nat, ms: seq<Span>)
    requires i <= |s|
    decreases |ms|
  {
    if ms == [] then NoUrlIn(s, i, |s|)
    else
      && i <= ms[0].start < |s|
      && NoUrlIn(s, i, ms[0].start)
      && UrlStartsAt(s, ms[0].start)
      && ms[0].end == NextWhitespace(s, ms[0].start)
      && ValidScan(s, ms[0].end, ms[1..])
  }

  /** The scanner finds exactly the matches the description asks for. */
  lemma {:induction false} ScanIsValid(s: string, i: nat)
    requires i <= |s|
    ensures ValidScan(s, i, Scan(s, i))
    decreases |s| - i
  {
    if i < |s| {
      if UrlStartsAt(s, i) {
        UrlSpanNonEmpty(s, i);
        var e := NextWhitespace(s, i);
        ScanIsValid(s, e);
        ValidScanOfMatch(s, i, Scan(s, e));
      } else {
        ScanIsValid(s, i + 1);
        ValidScanSkip(s, i, Scan(s, i + 1));
      }
    }
  }

  lemma ValidScanOfMatch(s: string, i: nat, rest: seq<Span>)
    requires i < |s| && UrlStartsAt(s, i)
    requires ValidScan(s, NextWhitespace(s, i), rest)
    ensures ValidScan(s, i, [Span(i, NextWhitespace(s, i))] + rest)
  {
    assert ([Span(i, NextWhitespace(s, i))] + rest)[1..] == rest;
  }

  /** A position where the pattern does not match adds nothing. */
  lemma ValidScanSkip(s: string, i: nat, ms: seq<Span>)
    requires i < |s| && !UrlStartsAt(s, i)
    requires ValidScan(s, i + 1, ms)
    ensures ValidScan(s, i, ms)
  {
  }

  /** The description has only one solution, so it pins the scanner's
      result down. */
  lemma {:induction false} ValidScanUnique(s: string, i: nat, ms: seq<Span>)
    requires i <= |s|
    requires ValidScan(s, i, ms)
    ensures ms == Scan(s, i)
    decreases |s| - i
  {
    if ms == [] {
      if i < |s| {
        ValidScanUnique(s, i + 1, ms);
      }
    } else if ms[0].start == i {
      UrlSpanNonEmpty(s, i);
      ValidScanUnique(s, ms[0].end, ms[1..]);
    } else {
      ValidScanUnique(s, i + 1, ms);
    }
  }

  /** Facts about each match: it is a pattern match with the maximal
      run, the matches are in order and do not overlap. */
  lemma {:induction false} ValidScanSpans(s: string, i: nat, ms: seq<Span>)
    requires i <= |s|
    requires ValidScan(s, i, ms)
    ensures forall k :: 0 <= k < |ms| ==>
      && i <= ms[k].start < ms[k].end <= |s|
      && UrlStartsAt(s, ms[k].start)
      && ms[k].end == NextWhitespace(s, ms[k].start)
    ensures forall k :: 0 <= k < |ms| - 1 ==> ms[k].end <= ms[k + 1].start
    decreases |ms|
  {
    if ms != [] {
      UrlSpanNonEmpty(s, ms[0].start);
      ValidScanSpans(s, ms[0].end, ms[1..]);
      forall k | 0 <= k < |ms| - 1
        ensures ms[k].end <= ms[k + 1].start
      {
        if k > 0 {
          assert ms[k] == ms[1..][k - 1] && ms[k + 1] == ms[1..][k];
        }
      }
    }
  }

  /** Every position where the pattern matches lies inside one of the
      matches: nothing the pattern could match is missed. */
  lemma {:induction false} ValidScanCovers(s: string, i: nat, ms: seq<Span>, k: nat)
    requires i <= k < |s|
    requires ValidScan(s, i, ms)
    requires UrlStartsAt(s, k)
    ensures exists j :: 0 <= j < |ms| && ms[j].start <= k < ms[j].end
    decreases |ms|
  {
    if k >= ms[0].end {
      ValidScanCovers(s, ms[0].end, ms[1..], k);
      var j :| 0 <= j < |ms[1..]| && ms[1..][j].start <= k < ms[1..][j].end;
      assert ms[j + 1] == ms[1..][j];
    } else {
      assert ms[0].start <= k < ms[0].end;
    }
  }

  /** The text of each match. */
  function Texts(s: string, ms: seq<Span>): (r: seq<string>)
    requires forall k :: 0 <= k < |ms| ==> ms[k].start <= ms[k].end <= |s|
    ensures |r| == |ms|
    ensures forall k :: 0 <= k < |ms| ==> r[k] == s[ms[k].start..ms[k].end]
  {
    seq(|ms|, k requires 0 <= k < |ms| => s[ms[k].start..ms[k].end])
  }

  /** A string the pattern matches as a whole: `http://` or `https://`, at
      least one more character, and no whitespace. */
  predicate IsUrlText(u: string) {
    && ((|u| > 8 && u[..8] == "https://") || (|u| > 7 && u[..7] == "http://"))
    && forall k :: 0 <= k < |u| ==> !IsWhitespace(u[k])
  }

  /** `text.match(UrlRegex) || []`. */
  function ExtractUrls(s: string): (r: seq<string>)
    ensures forall k :: 0 <= k < |r| ==> IsUrlText(r[k])
    ensures r == [] <==> NoUrlIn(s, 0, |s|)
  {
    ScanIsValid(s, 0);
    var ms := Scan(s, 0);
    ValidScanSpans(s, 0, ms);
    forall k | 0 <= k < |ms|
      ensures IsUrlText(s[ms[k].start..ms[k].end])
    {
      MatchIsUrlText(s, ms[k].start);
    }
    Texts(s, ms)
  }

  lemma MatchIsUrlText(s: string, i: nat)
    requires i < |s| && UrlStartsAt(s, i)
    ensures IsUrlText(s[i..NextWhitespace(s, i)])
  {
    UrlSpanNonEmpty(s, i);
    var e := NextWhitespace(s, i);
    var u := s[i..e];
    if HasAt(s, i, "https://") && i + 8 < |s| && !IsWhitespace(s[i + 8]) {
      assert u[..8] == s[i..i + 8];
    } else {
      assert u[..7] == s[i..i + 7];
    }
    forall k | 0 <= k < |u|
      ensures !IsWhitespace(u[k])
    {
      assert u[k] == s[i + k];
    }
  }

  /** A copy of a match's text somewhere in the content is itself a place
      where the pattern matches. */
  lemma OccurrenceIsUrlStart(s: string, u: string, k: nat)
    requires IsUrlText(u)
    requires OccursAt(s, u, k)
    ensures UrlStartsAt(s, k)
  {
    assert s[k..k + |u|] == u;
    if |u| > 8 && u[..8] == "https://" {
      assert s[k..k + 8] == u[..8];
      assert s[k + 8] == u[8];
    } else {
      assert s[k..k + 7] == u[..7];
      assert s[k + 7] == u[7];
    }
  }
}
