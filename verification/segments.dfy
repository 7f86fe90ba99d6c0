/** `EmbedLinksWithImageCheck`: cutting a post's content into alternating
    text and URL parts with `indexOf`, and rendering each part as a link
    or as lines of text. */
module Segments {
  import opened Text
  import opened Urls

  /** One piece of the content, as the segmentation loop produces it. */
  datatype Part = TextPart(text: string) | UrlPart(url: string)

  function PartString(p: Part): string {
    match p
    case TextPart(t) => t
    case UrlPart(u) => u
  }

  /** The strings the loop pushes onto `Parts`. */
  function PartStrings(ps: seq<Part>): (r: seq<string>)
    ensures |r| == |ps|
    ensures forall k :: 0 <= k < |ps| ==> r[k] == PartString(ps[k])
  {
    seq(|ps|, k requires 0 <= k < |ps| => PartString(ps[k]))
  }

  /** The parts laid end to end. */
  function Concat(ss: seq<string>): string {
    if ss == [] then [] else ss[0] + Concat(ss[1..])
  }

  /** The URLs among the parts, in order. */
  function UrlsOf(ps: seq<Part>): seq<string> {
    if ps == [] then []
    else (if ps[0].UrlPart? then [ps[0].url] else []) + UrlsOf(ps[1..])
  }

  /** The matches from `last` on lie inside the content, each ending no
      later than the next begins. */
  predicate InOrder(s: string, last: nat, ms: seq<Span>)
    decreases |ms|
  {
    ms == [] || (last <= ms[0].start <= ms[0].end <= |s| && InOrder(s, ms[0].end, ms[1..]))
  }

  lemma {:induction false} ValidScanInOrder(s: string, last: nat, ms: seq<Span>)
    requires last <= |s|
    requires ValidScan(s, last, ms)
    ensures InOrder(s, last, ms)
    decreases |ms|
  {
    if ms != [] {
      UrlSpanNonEmpty(s, ms[0].start);
      ValidScanInOrder(s, ms[0].end, ms[1..]);
    }
  }

  /** The text before the next match, as a part, when there is any. */
  function Gap(s: string, last: nat, start: nat): seq<Part>
    requires last <= start <= |s|
  {
    if start > last then [TextPart(s[last..start])] else []
  }

  /** The parts the loop builds from position `last` on, given the matches
      still to place: the text before the next match (when there is
      any), the match, and the rest; after the last match, the remaining
      text (when there is any). */
  function PartsFrom(s: string, last: nat, ms: seq<Span>): seq<Part>
    requires last <= |s|
    requires InOrder(s, last, ms)
    decreases |ms|
  {
    if ms == [] then
      if last < |s| then [TextPart(s[last..])] else []
    else
      Gap(s, last, ms[0].start) + [UrlPart(s[ms[0].start..ms[0].end])] + PartsFrom(s, ms[0].end, ms[1..])
  }

  /** The parts of a whole post. */
  function Parts(s: string): seq<Part> {
    ScanIsValid(s, 0);
    ValidScanInOrder(s, 0, Scan(s, 0));
    PartsFrom(s, 0, Scan(s, 0))
  }

  lemma {:induction false} ConcatAppend(a: seq<string>, b: seq<string>)
    ensures Concat(a + b) == Concat(a) + Concat(b)
  {
    if a != [] {
      assert (a + b)[1..] == a[1..] + b;
      ConcatAppend(a[1..], b);
      assert Concat(a + b) == a[0] + Concat(a[1..] + b);
    } else {
      assert a + b == b;
    }
  }

  lemma PartStringsAppend(a: seq<Part>, b: seq<Part>)
    ensures PartStrings(a + b) == PartStrings(a) + PartStrings(b)
  {
  }

  /** The strings of one step of the loop: the gap (if any), the match,
      then the strings of the rest. */
  lemma PartStringsStep(s: string, last: nat, ms: seq<Span>)
    requires last <= |s|
    requires InOrder(s, last, ms) && ms != []
    ensures PartStrings(PartsFrom(s, last, ms))
      == PartStrings(Gap(s, last, ms[0].start)) + [s[ms[0].start..ms[0].end]]
         + PartStrings(PartsFrom(s, ms[0].end, ms[1..]))
  {
    var g, u := Gap(s, last, ms[0].start), [UrlPart(s[ms[0].start..ms[0].end])];
    PartStringsAppend(g + u, PartsFrom(s, ms[0].end, ms[1..]));
    PartStringsAppend(g, u);
  }

  lemma ConcatThree(g: seq<string>, u: string, r: seq<string>)
    ensures Concat(g + [u] + r) == Concat(g) + u + Concat(r)
  {
    ConcatAppend(g + [u], r);
    ConcatAppend(g, [u]);
    assert Concat([u]) == u + Concat([]);
  }

  lemma ConcatGap(s: string, last: nat, start: nat)
    requires last <= start <= |s|
    ensures Concat(PartStrings(Gap(s, last, start))) == s[last..start]
  {
    if start > last {
      assert PartStrings(Gap(s, last, start)) == [s[last..start]];
      assert Concat([s[last..start]]) == s[last..start] + Concat([]);
    }
  }

  /** Laying the parts end to end gives back the content from `last` on:
      the segmentation loses and repeats nothing. */
  lemma {:induction false} PartsFromConcat(s: string, last: nat, ms: seq<Span>)
    requires last <= |s|
    requires InOrder(s, last, ms)
    ensures Concat(PartStrings(PartsFrom(s, last, ms))) == s[last..]
    decreases |ms|
  {
    if ms == [] {
      ConcatOfRest(s, last);
    } else {
      var st, e := ms[0].start, ms[0].end;
      PartsFromConcat(s, e, ms[1..]);
      PartStringsStep(s, last, ms);
      ConcatGap(s, last, st);
      ConcatThree(PartStrings(Gap(s, last, st)), s[st..e], PartStrings(PartsFrom(s, e, ms[1..])));
      SliceInThree(s, last, st, e);
    }
  }

  /** After the last match, the remaining text is the one part left. */
  lemma ConcatOfRest(s: string, last: nat)
    requires last <= |s|
    ensures Concat(PartStrings(PartsFrom(s, last, []))) == s[last..]
  {
    if last == |s| {
      assert s[last..] == [];
    } else {
      assert Concat([s[last..]]) == s[last..] + Concat([]);
    }
  }

  lemma SliceInThree<T>(s: seq<T>, i: nat, j: nat, k: nat)
    requires i <= j <= k <= |s|
    ensures s[i..] == s[i..j] + s[j..k] + s[k..]
  {
  }

  /** The URL parts are exactly the matches, in order. */
  lemma {:induction false} PartsFromUrls(s: string, last: nat, ms: seq<Span>)
    requires last <= |s|
    requires InOrder(s, last, ms)
    ensures forall k :: 0 <= k < |ms| ==> ms[k].start <= ms[k].end <= |s|
    ensures UrlsOf(PartsFrom(s, last, ms)) == Texts(s, ms)
    decreases |ms|
  {
    if ms != [] {
      var st, e := ms[0].start, ms[0].end;
      var rest := PartsFrom(s, e, ms[1..]);
      PartsFromUrls(s, e, ms[1..]);
      TextsOfCons(s, ms);
      UrlsOfAppend(Gap(s, last, st) + [UrlPart(s[st..e])], rest);
      UrlsOfAppend(Gap(s, last, st), [UrlPart(s[st..e])]);
    }
  }

  /** The texts of the matches: the first one's, then the rest's. */
  lemma TextsOfCons(s: string, ms: seq<Span>)
    requires ms != [] && ms[0].start <= ms[0].end <= |s|
    requires forall k :: 0 <= k < |ms[1..]| ==> ms[1..][k].start <= ms[1..][k].end <= |s|
    ensures forall k :: 0 <= k < |ms| ==> ms[k].start <= ms[k].end <= |s|
    ensures Texts(s, ms) == [s[ms[0].start..ms[0].end]] + Texts(s, ms[1..])
  {
    forall k | 0 < k < |ms|
      ensures ms[k].start <= ms[k].end <= |s|
    {
      assert ms[k] == ms[1..][k - 1];
    }
  }

  lemma {:induction false} UrlsOfAppend(a: seq<Part>, b: seq<Part>)
    ensures UrlsOf(a + b) == UrlsOf(a) + UrlsOf(b)
  {
    if a != [] {
      assert (a + b)[1..] == a[1..] + b;
      UrlsOfAppend(a[1..], b);
      assert (a + b)[0] == a[0];
    } else {
      assert a + b == b;
    }
  }

  /** A piece of content in which the pattern matches nowhere is not a
      string the pattern matches as a whole. */
  lemma TextIsNotUrl(s: string, a: nat, b: nat)
    requires a < b <= |s|
    requires NoUrlIn(s, a, b)
    ensures !IsUrlText(s[a..b])
  {
    SliceUrlStart(s, a, b);
  }

  lemma SliceUrlStart(s: string, a: nat, b: nat)
    requires a <= b <= |s|
    ensures IsUrlText(s[a..b]) ==> UrlStartsAt(s, a)
  {
    if IsUrlText(s[a..b]) {
      OccurrenceIsUrlStart(s, s[a..b], a);
    }
  }

  /** Every text part is non-empty and not a URL; every URL part is one. */
  lemma {:induction false} PartsFromKinds(s: string, last: nat, ms: seq<Span>)
    requires last <= |s|
    requires ValidScan(s, last, ms)
    ensures InOrder(s, last, ms)
    ensures forall p :: p in PartsFrom(s, last, ms) && p.TextPart? ==> p.text != [] && !IsUrlText(p.text)
    ensures forall p :: p in PartsFrom(s, last, ms) && p.UrlPart? ==> IsUrlText(p.url)
    decreases |ms|
  {
    if ms == [] {
      if last < |s| {
        TextIsNotUrl(s, last, |s|);
        assert s[last..] == s[last..|s|];
        assert PartsFrom(s, last, ms) == [TextPart(s[last..])];
      }
    } else {
      var st, e := ms[0].start, ms[0].end;
      if st > last {
        TextIsNotUrl(s, last, st);
      }
      MatchIsUrlText(s, st);
      UrlSpanNonEmpty(s, st);
      PartsFromKinds(s, e, ms[1..]);
      assert PartsFrom(s, last, ms) == Gap(s, last, st) + [UrlPart(s[st..e])] + PartsFrom(s, e, ms[1..]);
    }
  }

  /** `Content.indexOf(Url, LastIndex)` finds the next match where the
      scanner put it: an earlier copy of the URL would be an earlier place
      where the pattern matches. */
  lemma IndexOfNextMatch(s: string, last: nat, ms: seq<Span>)
    requires last <= |s|
    requires ValidScan(s, last, ms) && ms != []
    ensures ms[0].start <= ms[0].end <= |s|
    ensures IndexOf(s, s[ms[0].start..ms[0].end], last) == ms[0].start
  {
    var st := ms[0].start;
    UrlSpanNonEmpty(s, st);
    var u := s[st..ms[0].end];
    MatchIsUrlText(s, st);
    UrlOccurrences(s, u);
    assert OccursAt(s, u, st);
  }

  lemma UrlOccurrences(s: string, u: string)
    requires IsUrlText(u)
    ensures forall k: nat :: OccursAt(s, u, k) ==> UrlStartsAt(s, k)
  {
    forall k: nat | OccursAt(s, u, k)
      ensures UrlStartsAt(s, k)
    {
      OccurrenceIsUrlStart(s, u, k);
    }
  }

  /** One turn of the segmentation loop, stated on the matches still to
      place: pushing the gap (if any) and the next match keeps the parts
      built so far plus the parts still to come equal to the whole. */
  lemma LoopStepParts(s: string, last: nat, ms: seq<Span>, parts: seq<string>, whole: seq<string>)
    requires last <= |s|
    requires InOrder(s, last, ms) && ms != []
    requires parts + PartStrings(PartsFrom(s, last, ms)) == whole
    ensures parts + (if ms[0].start > last then [s[last..ms[0].start]] else []) + [s[ms[0].start..ms[0].end]]
      + PartStrings(PartsFrom(s, ms[0].end, ms[1..])) == whole
  {
    var st, e := ms[0].start, ms[0].end;
    PartStringsStep(s, last, ms);
    var gap := if st > last then [s[last..st]] else [];
    var rest := PartStrings(PartsFrom(s, e, ms[1..]));
    assert PartStrings(Gap(s, last, st)) == gap;
    assert parts + (gap + [s[st..e]] + rest) == parts + gap + [s[st..e]] + rest;
  }

  /** The body of the `forEach` callback: find `url` from `last` on, push
      the text before it when there is any, then the URL, and move `last`
      past it. Placed on the next match, it pushes that match's parts. */
  method PlaceUrl(content: string, url: string, parts: seq<string>, last: nat, ghost todo: seq<Span>, ghost whole: seq<string>)
    returns (parts': seq<string>, last': nat)
    requires last <= |content|
    requires ValidScan(content, last, todo) && todo != [] && InOrder(content, last, todo)
    requires todo[0].start <= todo[0].end <= |content| && url == content[todo[0].start..todo[0].end]
    requires parts + PartStrings(PartsFrom(content, last, todo)) == whole
    ensures last' == todo[0].end <= |content|
    ensures ValidScan(content, last', todo[1..]) && InOrder(content, last', todo[1..])
    ensures parts' + PartStrings(PartsFrom(content, last', todo[1..])) == whole
  {
    IndexOfNextMatch(content, last, todo);
    ValidScanInOrder(content, todo[0].end, todo[1..]);
    LoopStepParts(content, last, todo, parts, whole);
    var idx := IndexOf(content, url, last);
    assert idx == todo[0].start;
    ghost var gap := if idx > last then [content[last..idx]] else [];
    parts' := parts;
    if idx > last {
      parts' := parts' + [content[last..idx]];
    }
    parts' := parts' + [url];
    assert parts' == parts + gap + [url];
    last' := idx + |url|;
  }

  /** The URLs are the texts of the scanner's matches, which satisfy the
      description of a global match and lie in order. */
  lemma ScanFacts(content: string)
    ensures ValidScan(content, 0, Scan(content, 0)) && InOrder(content, 0, Scan(content, 0))
    ensures forall k :: 0 <= k < |Scan(content, 0)| ==> Scan(content, 0)[k].start <= Scan(content, 0)[k].end <= |content|
    ensures ExtractUrls(content) == Texts(content, Scan(content, 0))
  {
    ScanIsValid(content, 0);
    ValidScanInOrder(content, 0, Scan(content, 0));
    ValidScanSpans(content, 0, Scan(content, 0));
  }

  /** The segmentation loop of `EmbedLinksWithImageCheck`: for each URL,
      find it with `indexOf` from the end of the previous one, push the
      text in between when there is any, then the URL; finally push the
      text after the last URL when there is any. */
  method SplitParts(content: string, urls: seq<string>) returns (parts: seq<string>)
    requires urls == ExtractUrls(content)
    ensures parts == PartStrings(Parts(content))
    ensures Concat(parts) == content
  {
    ghost var ms := Scan(content, 0);
    ScanFacts(content);
    ghost var whole := PartStrings(PartsFrom(content, 0, ms));
    parts := [];
    var last: nat := 0;
    ghost var todo := ms;
    for k := 0 to |urls|
      invariant last <= |content| && |ms| == |urls|
      invariant todo == ms[k..]
      invariant ValidScan(content, last, todo) && InOrder(content, last, todo)
      invariant parts + PartStrings(PartsFrom(content, last, todo)) == whole
    {
      DropOne(ms, k);
      parts, last := PlaceUrl(content, urls[k], parts, last, todo, whole);
      todo := todo[1..];
    }
    RestParts(content, last, parts, whole);
    if last < |content| {
      parts := parts + [content[last..]];
    }
    WholeParts(content);
  }

  /** The parts of the whole post are those built from position 0, and
      they concatenate back to the post. */
  lemma WholeParts(content: string)
    ensures InOrder(content, 0, Scan(content, 0))
    ensures PartStrings(Parts(content)) == PartStrings(PartsFrom(content, 0, Scan(content, 0)))
    ensures Concat(PartStrings(Parts(content))) == content
  {
    ScanFacts(content);
    PartsFromConcat(content, 0, Scan(content, 0));
    assert content[0..] == content;
  }

  lemma DropOne<T>(xs: seq<T>, k: nat)
    requires k < |xs|
    ensures xs[k..][0] == xs[k] && xs[k..][1..] == xs[k + 1..]
  {
  }

  /** After the last URL, the one part still to push is the remaining
      text, when there is any. */
  lemma RestParts(s: string, last: nat, parts: seq<string>, whole: seq<string>)
    requires last <= |s|
    requires parts + PartStrings(PartsFrom(s, last, [])) == whole
    ensures whole == if last < |s| then parts + [s[last..]] else parts
  {
    if last < |s| {
      assert PartStrings(PartsFrom(s, last, [])) == [s[last..]];
    } else {
      assert PartStrings(PartsFrom(s, last, [])) == [];
    }
  }

  /** How one part is shown: a URL as an image or a link (which of the two
      depends on loading it), any other text as its lines with a break
      after each. */
  datatype Rendered = Embed(url: string) | Lines(lines: seq<string>)

  function RenderPart(part: string, urls: seq<string>): Rendered {
    if part in urls then Embed(part) else Lines(Split(part, '\n'))
  }

  /** The text of a rendered part with the breaks between its lines as
      newlines, leaving out the `<br />` after its last line. */
  function InnerText(r: Rendered): string {
    match r
    case Embed(u) => u
    case Lines(ls) => if ls == [] then [] else Join(ls, '\n')
  }

  function InnerTexts(rs: seq<Rendered>): (r: seq<string>)
    ensures |r| == |rs|
    ensures forall k :: 0 <= k < |rs| ==> r[k] == InnerText(rs[k])
  {
    seq(|rs|, k requires 0 <= k < |rs| => InnerText(rs[k]))
  }

  /** Each line followed by its `<br />`, written as a newline. */
  function Broken(ls: seq<string>): string {
    if ls == [] then [] else ls[0] + "\n" + Broken(ls[1..])
  }

  /** What the page shows of a rendered part: an embed shows its URL, and
      every line of text, the last one included, ends in a break. */
  function Shown(r: Rendered): string {
    match r
    case Embed(u) => u
    case Lines(ls) => Broken(ls)
  }

  /** What the page shows of a part of the content: a text part gains one
      break at its end, a URL part is shown as it is. */
  function Displayed(p: Part): string {
    match p
    case TextPart(t) => t + "\n"
    case UrlPart(u) => u
  }

  /** The shown lines are the joined lines plus one trailing break. */
  lemma {:induction false} BrokenIsJoinPlusBreak(ls: seq<string>)
    requires |ls| >= 1
    ensures Broken(ls) == Join(ls, '\n') + "\n"
  {
    if |ls| > 1 {
      BrokenIsJoinPlusBreak(ls[1..]);
      assert Broken(ls) == ls[0] + "\n" + (Join(ls[1..], '\n') + "\n");
    } else {
      assert Broken(ls[1..]) == [];
    }
  }

  /** Rendering a text as lines shows the text with one break added at its
      end. */
  lemma ShownText(t: string)
    ensures InnerText(Lines(Split(t, '\n'))) == t
    ensures Shown(Lines(Split(t, '\n'))) == t + "\n"
  {
    JoinSplit(t, '\n');
    BrokenIsJoinPlusBreak(Split(t, '\n'));
  }

  /** The test `Urls.includes(Part)` picks out exactly the URL parts, and
      each part carries its own text. */
  lemma RenderedPart(content: string, k: nat)
    requires k < |Parts(content)|
    ensures var r := RenderPart(PartString(Parts(content)[k]), ExtractUrls(content));
      && (r.Embed? <==> Parts(content)[k].UrlPart?)
      && InnerText(r) == PartString(Parts(content)[k])
      && Shown(r) == Displayed(Parts(content)[k])
  {
    var ms := Scan(content, 0);
    var ps := Parts(content);
    ScanIsValid(content, 0);
    PartsFromKinds(content, 0, ms);
    PartsFromUrls(content, 0, ms);
    assert ps[k] in ps;
    if ps[k].UrlPart? {
      UrlOfParts(ps, k);
    } else {
      ShownText(ps[k].text);
    }
  }

  /** `EmbedLinksWithImageCheck({ Content })`: nothing for empty content,
      the content's lines when it has no URL, otherwise each part rendered
      by whether it is one of the URLs. */
  method EmbedLinks(content: string) returns (r: seq<Rendered>)
    ensures content == [] ==> r == []
    ensures content != [] && NoUrlIn(content, 0, |content|) ==>
      r == [Lines(Split(content, '\n'))] && Shown(r[0]) == content + "\n"
    ensures !NoUrlIn(content, 0, |content|) ==>
      && |r| == |Parts(content)|
      && forall k :: 0 <= k < |r| ==>
           && (r[k].Embed? <==> Parts(content)[k].UrlPart?)
           && InnerText(r[k]) == PartString(Parts(content)[k])
           && Shown(r[k]) == Displayed(Parts(content)[k])
    ensures Concat(InnerTexts(r)) == content
  {
    if content == [] {
      return [];
    }
    var urls := ExtractUrls(content);
    if |urls| == 0 {
      ShownText(content);
      r := [Lines(Split(content, '\n'))];
      assert InnerTexts(r) == [content];
      assert Concat([content]) == content + Concat([]);
      return;
    }
    var parts := SplitParts(content, urls);
    r := seq(|parts|, k requires 0 <= k < |parts| => RenderPart(parts[k], urls));
    forall k | 0 <= k < |r|
      ensures && (r[k].Embed? <==> Parts(content)[k].UrlPart?)
              && InnerText(r[k]) == PartString(Parts(content)[k])
              && Shown(r[k]) == Displayed(Parts(content)[k])
    {
      RenderedPart(content, k);
    }
    assert InnerTexts(r) == parts;
  }

  /** A URL part's text is among the URLs of the parts. */
  lemma {:induction false} UrlOfParts(ps: seq<Part>, k: nat)
    requires k < |ps| && ps[k].UrlPart?
    ensures ps[k].url in UrlsOf(ps)
  {
    if k > 0 {
      UrlOfParts(ps[1..], k - 1);
      assert UrlsOf(ps) == (if ps[0].UrlPart? then [ps[0].url] else []) + UrlsOf(ps[1..]);
    }
  }
}
