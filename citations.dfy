/**
 * `extract_citations`: walk every paragraph of the article body, keep a
 * running sentence buffer of the text seen so far, and at each reference
 * marker (`<sup class="reference">`) follow its link to the footnote entry
 * and from there to the first external link, pairing that link's target with
 * the buffered sentence.
 */
module Citations {
  import opened Wrappers
  import opened PyText
  import opened Document

  datatype Citation = Citation(sentence: string, url: string)

  /** A direct child that the script treats as a citation marker. */
  predicate IsReferenceMarker(n: Node)
  {
    n.Element? && n.name == "sup" && "reference" in n.classes
  }

  /** `child.find("a", href=True)`: the marker's link to its footnote. */
  const CiteLink: Query := Query(Some("a"), None, None, Some("href"))

  /** `content.find("li", id=cite_id[1:])`: the footnote entry a link points at. */
  function FootnoteItem(citeId: string): Query
  {
    Query(Some("li"), Some(DropFirst(citeId)), None, None)
  }

  /** `ref_item.find("a", class_="external", attrs={"href": True})`. */
  const ExternalLink: Query := Query(Some("a"), None, Some("external"), Some("href"))

  /** Python's `s[1:]`, which is empty for the empty string. */
  function DropFirst(s: string): (r: string)
    ensures s == [] ==> r == []
    ensures s != [] ==> [s[0]] + r == s
  {
    if s == [] then [] else s[1..]
  }

  /**
   * The URL a marker points at, if every step of the lookup succeeds: the
   * marker's first `a[href]`, the `li` whose id is that href without its
   * first character (`#cite_note-7` names `cite_note-7`), and that entry's
   * first `a.external[href]` with a non-empty href.
   */
  function ResolveMarker(content: Node, marker: Node): (r: Option<string>)
    ensures r.Some? ==> r.value != ""
  {
    match Find(marker, CiteLink)
    case None => None
    case Some(link) =>
      match Find(content, FootnoteItem(link.attrs["href"]))
      case None => None
      case Some(item) =>
        match Find(item, ExternalLink)
        case None => None
        case Some(ext) => if ext.attrs["href"] != "" then Some(ext.attrs["href"]) else None
  }

  /**
   * Lines 79-80: once the stripped buffer ends a sentence, its surrounding
   * whitespace becomes a single trailing space.
   */
  function EndOfSentenceSpace(b: string): string
  {
    if EndsSentence(Strip(b)) then Strip(b) + " " else b
  }

  /** The sentence buffer after the non-marker children `seg`, starting from "". */
  function Buffer(seg: seq<Node>): string
    decreases |seg|
  {
    if seg == [] then ""
    else EndOfSentenceSpace(Buffer(seg[..|seg| - 1]) + GetText(seg[|seg| - 1]))
  }

  /**
   * Where the sentence of the next marker starts: just after the last marker
   * among `cs`, or at the start of the paragraph when there is none.
   */
  function SegmentStart(cs: seq<Node>): (k: nat)
    ensures k <= |cs|
    ensures k == 0 || IsReferenceMarker(cs[k - 1])
    ensures forall i | k <= i < |cs| :: !IsReferenceMarker(cs[i])
    decreases |cs|
  {
    if cs == [] then 0
    else if IsReferenceMarker(cs[|cs| - 1]) then |cs|
    else SegmentStart(cs[..|cs| - 1])
  }

  /** How markers resolve to URLs; the script's own rule is `MarkerUrl(content)`. */
  type Resolver = Node -> Option<string>

  function MarkerUrl(content: Node): Resolver
  {
    m => ResolveMarker(content, m)
  }

  /** The citation a marker contributes with the given sentence: one, or none. */
  function Emit(resolve: Resolver, marker: Node, sentence: string): (r: seq<Citation>)
    ensures |r| <= 1
    ensures forall c | c in r :: c.sentence == sentence
  {
    match resolve(marker)
    case Some(url) => [Citation(sentence, url)]
    case None => []
  }

  /**
   * The citations of a paragraph with children `cs`: each marker in order,
   * paired with the stripped buffer of the children since the previous marker
   * (or since the paragraph began).
   */
  function ParagraphCitations(resolve: Resolver, cs: seq<Node>): (r: seq<Citation>)
    ensures forall c | c in r :: IsStripped(c.sentence)
    decreases |cs|
  {
    if cs == [] then []
    else
      var prefix := cs[..|cs| - 1];
      var last := cs[|cs| - 1];
      ParagraphCitations(resolve, prefix) +
      (if IsReferenceMarker(last) then Emit(resolve, last, Strip(Buffer(prefix[SegmentStart(prefix)..]))) else [])
  }

  function CitationsOfParagraphs(resolve: Resolver, ps: seq<Node>): (r: seq<Citation>)
    ensures forall c | c in r :: IsStripped(c.sentence)
    decreases |ps|
  {
    if ps == [] then []
    else CitationsOfParagraphs(resolve, ps[..|ps| - 1]) + ParagraphCitations(resolve, Children(ps[|ps| - 1]))
  }

  /** `content.find_all("p")`: every paragraph of the body, in document order. */
  function Paragraphs(content: Node): seq<Node>
  {
    FindAll(content, Query(Some("p"), None, None, None))
  }

  /** What `extract_citations(content)` returns. */
  function ArticleCitations(content: Node): seq<Citation>
  {
    CitationsOfParagraphs(MarkerUrl(content), Paragraphs(content))
  }

  /** `extract_citations` as the script runs it. */
  method ExtractCitations(content: Node) returns (citations: seq<Citation>)
    ensures citations == ArticleCitations(content)
  {
    citations := [];
    var paragraphs := FindAll(content, Query(Some("p"), None, None, None));
    for i := 0 to |paragraphs|
      invariant citations == CitationsOfParagraphs(MarkerUrl(content), paragraphs[..i])
    {
      var children := Children(paragraphs[i]);
      var sentence := "";
      ghost var done := citations;
      for j := 0 to |children|
        invariant citations == done + ParagraphCitations(MarkerUrl(content), children[..j])
        invariant sentence == Buffer(children[SegmentStart(children[..j])..j])
      {
        var child := children[j];
        if IsReferenceMarker(child) {
          MarkerStep(content, children, j, sentence, done);
          var url := ResolveMarker(content, child);
          if url.Some? {
            citations := citations + [Citation(Strip(sentence), url.value)];
          }
          sentence := "";
        } else {
          TextStep(MarkerUrl(content), children, j);
          match child
          case Element(_, _, _, _) => sentence := sentence + GetText(child);
          case Text(s) => sentence := sentence + s;
        }
        if EndsSentence(Strip(sentence)) {
          sentence := Strip(sentence) + " ";
        }
      }
      ParagraphDone(content, paragraphs, i, children, done);
    }
    assert paragraphs[..|paragraphs|] == paragraphs;
  }

  /** After the last child, the paragraph's citations follow those of the earlier paragraphs. */
  lemma ParagraphDone(content: Node, ps: seq<Node>, i: nat, children: seq<Node>, done: seq<Citation>)
    requires i < |ps| && children == Children(ps[i])
    requires done == CitationsOfParagraphs(MarkerUrl(content), ps[..i])
    ensures done + ParagraphCitations(MarkerUrl(content), children[..|children|]) ==
            CitationsOfParagraphs(MarkerUrl(content), ps[..i + 1])
  {
    assert children[..|children|] == children;
    assert ps[..i + 1][..i] == ps[..i];
  }

  /** One loop step at a marker: its citation is added and the buffer starts over. */
  lemma MarkerStep(content: Node, cs: seq<Node>, j: nat, sentence: string, done: seq<Citation>)
    requires j < |cs| && IsReferenceMarker(cs[j])
    requires sentence == Buffer(cs[SegmentStart(cs[..j])..j])
    ensures done + ParagraphCitations(MarkerUrl(content), cs[..j + 1]) ==
            done + ParagraphCitations(MarkerUrl(content), cs[..j]) +
            (match ResolveMarker(content, cs[j]) case Some(url) => [Citation(Strip(sentence), url)] case None => [])
    ensures Buffer(cs[SegmentStart(cs[..j + 1])..j + 1]) == ""
    ensures EndOfSentenceSpace("") == ""
  {
    MarkerAddsItsCitation(MarkerUrl(content), cs, j);
    assert MarkerUrl(content)(cs[j]) == ResolveMarker(content, cs[j]);
  }

  /** One loop step at any other child: no citation, and its text joins the buffer. */
  lemma TextStep(resolve: Resolver, cs: seq<Node>, j: nat)
    requires j < |cs| && !IsReferenceMarker(cs[j])
    ensures ParagraphCitations(resolve, cs[..j + 1]) == ParagraphCitations(resolve, cs[..j])
    ensures SegmentStart(cs[..j + 1]) == SegmentStart(cs[..j])
    ensures var k := SegmentStart(cs[..j]);
      Buffer(cs[k..j + 1]) == EndOfSentenceSpace(Buffer(cs[k..j]) + GetText(cs[j]))
  {
    assert cs[..j + 1][..j] == cs[..j];
    var k := SegmentStart(cs[..j]);
    assert cs[k..j + 1][..j - k] == cs[k..j];
  }

  // ---------------------------------------------------------------------------
  // The reference view: markers in document order and the URLs they resolve to.

  /** The direct children of a paragraph that are markers, in order. */
  function MarkersIn(cs: seq<Node>): (r: seq<Node>)
    ensures |r| <= |cs|
    decreases |cs|
  {
    if cs == [] then []
    else MarkersIn(cs[..|cs| - 1]) + (if IsReferenceMarker(cs[|cs| - 1]) then [cs[|cs| - 1]] else [])
  }

  function MarkersOfParagraphs(ps: seq<Node>): seq<Node>
    decreases |ps|
  {
    if ps == [] then []
    else MarkersOfParagraphs(ps[..|ps| - 1]) + MarkersIn(Children(ps[|ps| - 1]))
  }

  /** Every marker the script tests, in the order it meets them. */
  function ArticleMarkers(content: Node): seq<Node>
  {
    MarkersOfParagraphs(Paragraphs(content))
  }

  /** The URLs of the markers that resolve, in marker order. */
  function ResolvedUrls(resolve: Resolver, ms: seq<Node>): (r: seq<string>)
    ensures |r| <= |ms|
    decreases |ms|
  {
    if ms == [] then []
    else
      ResolvedUrls(resolve, ms[..|ms| - 1]) +
      (match resolve(ms[|ms| - 1]) case Some(u) => [u] case None => [])
  }

  /** The URLs of a list of citations, in order. */
  function Urls(cs: seq<Citation>): (r: seq<string>)
    ensures |r| == |cs|
    decreases |cs|
  {
    if cs == [] then [] else Urls(cs[..|cs| - 1]) + [cs[|cs| - 1].url]
  }

  lemma {:induction false} UrlsAt(cs: seq<Citation>, i: nat)
    requires i < |cs|
    ensures Urls(cs)[i] == cs[i].url
    decreases |cs|
  {
    if i < |cs| - 1 {
      UrlsAt(cs[..|cs| - 1], i);
    }
  }

  lemma {:induction false} UrlsConcat(a: seq<Citation>, b: seq<Citation>)
    ensures Urls(a + b) == Urls(a) + Urls(b)
    decreases |b|
  {
    if b == [] {
      assert a + b == a;
    } else {
      assert (a + b)[..|a + b| - 1] == a + b[..|b| - 1];
      assert (a + b)[|a + b| - 1] == b[|b| - 1];
      UrlsConcat(a, b[..|b| - 1]);
    }
  }

  lemma {:induction false} ResolvedUrlsConcat(resolve: Resolver, a: seq<Node>, b: seq<Node>)
    ensures ResolvedUrls(resolve, a + b) == ResolvedUrls(resolve, a) + ResolvedUrls(resolve, b)
    decreases |b|
  {
    if b == [] {
      assert a + b == a;
    } else {
      assert (a + b)[..|a + b| - 1] == a + b[..|b| - 1];
      assert (a + b)[|a + b| - 1] == b[|b| - 1];
      ResolvedUrlsConcat(resolve, a, b[..|b| - 1]);
    }
  }

  /**
   * In one paragraph, the URLs of the citations are exactly the URLs of the
   * direct-child markers that resolve, in the markers' order: each marker
   * gives at most one citation and an unresolved one is skipped.
   */
  lemma {:induction false} ParagraphUrlsFollowMarkers(resolve: Resolver, cs: seq<Node>)
    ensures Urls(ParagraphCitations(resolve, cs)) == ResolvedUrls(resolve, MarkersIn(cs))
    decreases |cs|
  {
    if cs != [] {
      var prefix, last := cs[..|cs| - 1], cs[|cs| - 1];
      ParagraphUrlsFollowMarkers(resolve, prefix);
      var emitted := if IsReferenceMarker(last) then Emit(resolve, last, Strip(Buffer(prefix[SegmentStart(prefix)..]))) else [];
      UrlsConcat(ParagraphCitations(resolve, prefix), emitted);
      var ms := if IsReferenceMarker(last) then [last] else [];
      ResolvedUrlsConcat(resolve, MarkersIn(prefix), ms);
      if IsReferenceMarker(last) {
        assert ms[..0] == [];
      } else {
        assert ResolvedUrls(resolve, []) == [];
      }
    }
  }

  lemma {:induction false} ParagraphsUrlsFollowMarkers(resolve: Resolver, ps: seq<Node>)
    ensures Urls(CitationsOfParagraphs(resolve, ps)) == ResolvedUrls(resolve, MarkersOfParagraphs(ps))
    decreases |ps|
  {
    if ps != [] {
      var prefix, last := ps[..|ps| - 1], ps[|ps| - 1];
      ParagraphsUrlsFollowMarkers(resolve, prefix);
      ParagraphUrlsFollowMarkers(resolve, Children(last));
      UrlsConcat(CitationsOfParagraphs(resolve, prefix), ParagraphCitations(resolve, Children(last)));
      ResolvedUrlsConcat(resolve, MarkersOfParagraphs(prefix), MarkersIn(Children(last)));
    }
  }

  /**
   * Over the whole body, the citations' URLs are the resolved URLs of all
   * markers in document order (paragraphs in document order, then each
   * paragraph's children in order). This gives the order of the output, that
   * each marker yields at most one citation, that unresolvable markers are
   * skipped, and that each URL is what its marker resolves to.
   */
  lemma ArticleUrlsFollowMarkers(content: Node)
    ensures Urls(ArticleCitations(content)) == ResolvedUrls(MarkerUrl(content), ArticleMarkers(content))
    ensures |ArticleCitations(content)| <= |ArticleMarkers(content)|
  {
    ParagraphsUrlsFollowMarkers(MarkerUrl(content), Paragraphs(content));
  }

  lemma {:induction false} ResolvedUrlsNonEmpty(content: Node, ms: seq<Node>)
    ensures forall u | u in ResolvedUrls(MarkerUrl(content), ms) :: u != ""
    decreases |ms|
  {
    if ms != [] {
      ResolvedUrlsNonEmpty(content, ms[..|ms| - 1]);
      var r := ResolveMarker(content, ms[|ms| - 1]);
      assert MarkerUrl(content)(ms[|ms| - 1]) == r;
    }
  }

  /** No citation has an empty URL. */
  lemma ArticleUrlsNonEmpty(content: Node)
    ensures forall c | c in ArticleCitations(content) :: c.url != ""
  {
    var cs := ArticleCitations(content);
    ArticleUrlsFollowMarkers(content);
    ResolvedUrlsNonEmpty(content, ArticleMarkers(content));
    forall c | c in cs ensures c.url != "" {
      var i :| 0 <= i < |cs| && cs[i] == c;
      UrlsAt(cs, i);
      assert Urls(cs)[i] in ResolvedUrls(MarkerUrl(content), ArticleMarkers(content));
    }
  }

  lemma {:induction false} ResolvedUrlsEmpty(resolve: Resolver, ms: seq<Node>)
    ensures ResolvedUrls(resolve, ms) == [] <==> forall m | m in ms :: resolve(m).None?
    decreases |ms|
  {
    if ms != [] {
      ResolvedUrlsEmpty(resolve, ms[..|ms| - 1]);
      assert forall m | m in ms :: m in ms[..|ms| - 1] || m == ms[|ms| - 1];
    }
  }

  /**
   * The script finds no citation exactly when no marker resolves; in
   * particular a body without a direct-child `sup.reference` in any
   * paragraph yields `[]`.
   */
  lemma NoCitationsIffNoMarkerResolves(content: Node)
    ensures ArticleCitations(content) == [] <==>
            forall m | m in ArticleMarkers(content) :: ResolveMarker(content, m).None?
    ensures ArticleMarkers(content) == [] ==> ArticleCitations(content) == []
  {
    ArticleUrlsFollowMarkers(content);
    ResolvedUrlsEmpty(MarkerUrl(content), ArticleMarkers(content));
  }

  /** A paragraph with no direct-child marker contributes no citation, whatever is nested deeper. */
  lemma ParagraphWithoutMarkers(resolve: Resolver, cs: seq<Node>)
    requires forall i | 0 <= i < |cs| :: !IsReferenceMarker(cs[i])
    ensures ParagraphCitations(resolve, cs) == []
  {
    MarkersInNone(cs);
    ParagraphUrlsFollowMarkers(resolve, cs);
  }

  lemma {:induction false} MarkersInNone(cs: seq<Node>)
    requires forall i | 0 <= i < |cs| :: !IsReferenceMarker(cs[i])
    ensures MarkersIn(cs) == []
    decreases |cs|
  {
    if cs != [] {
      MarkersInNone(cs[..|cs| - 1]);
    }
  }

  /** The `href` of an element that has one. */
  function Href(n: Node): string
  {
    if n.Element? && "href" in n.attrs then n.attrs["href"] else ""
  }

  /** What a marker resolves to is exactly the chain of first matches in document order. */
  lemma MarkerResolution(content: Node, marker: Node, url: string)
    ensures ResolveMarker(content, marker) == Some(url) <==>
      var links := FindAll(marker, CiteLink);
      && links != []
      && var items := FindAll(content, FootnoteItem(Href(links[0])));
      && items != []
      && var exts := FindAll(items[0], ExternalLink);
      && exts != []
      && Href(exts[0]) == url
      && url != ""
  {
    FindIsFirstOfFindAll(marker, CiteLink);
    var links := FindAll(marker, CiteLink);
    if links != [] {
      FindIsFirstOfFindAll(content, FootnoteItem(Href(links[0])));
      var items := FindAll(content, FootnoteItem(Href(links[0])));
      if items != [] {
        FindIsFirstOfFindAll(items[0], ExternalLink);
      }
    }
  }

  // ---------------------------------------------------------------------------
  // The sentence buffer.

  /** The end-of-sentence rewrite never changes the stripped text of the buffer. */
  lemma EndOfSentenceSpaceKeepsText(b: string)
    ensures Strip(EndOfSentenceSpace(b)) == Strip(b)
    ensures EndOfSentenceSpace(b) == b || EndOfSentenceSpace(b) == Strip(b) + " "
  {
    if EndsSentence(Strip(b)) {
      assert [] + Strip(b) + " " == Strip(b) + " ";
      StripUnique([], Strip(b), " ");
    }
  }

  lemma {:induction false} GetTextOfSnoc(a: seq<Node>, c: Node)
    ensures GetTextOf(a + [c]) == GetTextOf(a) + GetText(c)
    decreases |a|
  {
    if a == [] {
      assert a + [c] == [c];
    } else {
      assert (a + [c])[0] == a[0];
      assert (a + [c])[1..] == a[1..] + [c];
      GetTextOfSnoc(a[1..], c);
    }
  }

  /**
   * The buffer holds the text of the children it has seen, character for
   * character apart from whitespace: what the end-of-sentence rewrite drops
   * is whitespace only.
   */
  lemma {:induction false} BufferKeepsText(seg: seq<Node>)
    ensures NonSpace(Buffer(seg)) == NonSpace(GetTextOf(seg))
    decreases |seg|
  {
    if seg != [] {
      var prefix, last := seg[..|seg| - 1], seg[|seg| - 1];
      var b := Buffer(prefix) + GetText(last);
      calc {
        NonSpace(Buffer(seg));
        { EndOfSentenceSpaceKeepsNonSpace(b); }
        NonSpace(b);
        { NonSpaceConcat(Buffer(prefix), GetText(last)); }
        NonSpace(Buffer(prefix)) + NonSpace(GetText(last));
        { BufferKeepsText(prefix); }
        NonSpace(GetTextOf(prefix)) + NonSpace(GetText(last));
        { NonSpaceConcat(GetTextOf(prefix), GetText(last)); }
        NonSpace(GetTextOf(prefix) + GetText(last));
        { assert seg == prefix + [last]; GetTextOfSnoc(prefix, last); }
        NonSpace(GetTextOf(seg));
      }
    }
  }

  lemma EndOfSentenceSpaceKeepsNonSpace(b: string)
    ensures NonSpace(EndOfSentenceSpace(b)) == NonSpace(b)
  {
    if EndsSentence(Strip(b)) {
      NonSpaceConcat(Strip(b), " ");
      assert NonSpace(" ") == [];
    }
  }

  /**
   * When no child boundary ends a sentence, the buffer is exactly the text of
   * the children seen.
   */
  lemma {:induction false} BufferExact(seg: seq<Node>)
    requires forall k | 1 <= k <= |seg| :: !EndsSentence(Strip(GetTextOf(seg[..k])))
    ensures Buffer(seg) == GetTextOf(seg)
    decreases |seg|
  {
    if seg != [] {
      var prefix, last := seg[..|seg| - 1], seg[|seg| - 1];
      forall k | 1 <= k <= |prefix| ensures !EndsSentence(Strip(GetTextOf(prefix[..k]))) {
        assert prefix[..k] == seg[..k];
      }
      BufferExact(prefix);
      assert seg == prefix + [last];
      GetTextOfSnoc(prefix, last);
      assert seg[..|seg|] == seg;
      var b := Buffer(prefix) + GetText(last);
      assert b == GetTextOf(seg);
      assert !EndsSentence(Strip(b));
    }
  }

  /** Children without a marker add no citation, whatever came before them. */
  lemma {:induction false} NoMarkerNoCitation(resolve: Resolver, p: seq<Node>, seg: seq<Node>)
    requires forall j | 0 <= j < |seg| :: !IsReferenceMarker(seg[j])
    ensures ParagraphCitations(resolve, p + seg) == ParagraphCitations(resolve, p)
    decreases |seg|
  {
    if seg == [] {
      assert p + seg == p;
    } else {
      var q := seg[..|seg| - 1];
      assert (p + seg)[..|p + seg| - 1] == p + q;
      assert (p + seg)[|p + seg| - 1] == seg[|seg| - 1];
      NoMarkerNoCitation(resolve, p, q);
    }
  }

  /** After a marker (or at the start), the next sentence starts there until another marker. */
  lemma {:induction false} SegmentStartAfterMarker(p: seq<Node>, seg: seq<Node>)
    requires p == [] || IsReferenceMarker(p[|p| - 1])
    requires forall j | 0 <= j < |seg| :: !IsReferenceMarker(seg[j])
    ensures SegmentStart(p + seg) == |p|
    decreases |seg|
  {
    if seg == [] {
      assert p + seg == p;
    } else {
      var q := seg[..|seg| - 1];
      assert (p + seg)[..|p + seg| - 1] == p + q;
      assert (p + seg)[|p + seg| - 1] == seg[|seg| - 1];
      SegmentStartAfterMarker(p, q);
    }
  }

  /**
   * The citation of a marker depends only on the children since the
   * previous marker: after any run of children `p` that is empty or ends at a
   * marker, the segment `seg` and the marker `m` add the citation `m` makes
   * with the stripped buffer of `seg` alone, so nothing before the previous
   * marker reaches its sentence.
   */
  lemma MarkerSentenceIsLocal(resolve: Resolver, p: seq<Node>, seg: seq<Node>, m: Node)
    requires p == [] || IsReferenceMarker(p[|p| - 1])
    requires forall j | 0 <= j < |seg| :: !IsReferenceMarker(seg[j])
    requires IsReferenceMarker(m)
    ensures ParagraphCitations(resolve, p + seg + [m]) ==
            ParagraphCitations(resolve, p) + Emit(resolve, m, Strip(Buffer(seg)))
  {
    var q := p + seg;
    assert (q + [m])[..|q|] == q;
    NoMarkerNoCitation(resolve, p, seg);
    SegmentStartAfterMarker(p, seg);
    assert q[|p|..] == seg;
  }

  /**
   * The sentence of a segment of children is stripped and carries exactly
   * their non-whitespace text; neither earlier nor later text is in it.
   */
  lemma SentenceOfSegment(seg: seq<Node>)
    ensures IsStripped(Strip(Buffer(seg)))
    ensures NonSpace(Strip(Buffer(seg))) == NonSpace(GetTextOf(seg))
  {
    BufferKeepsText(seg);
  }

  /** A marker at position `i` adds its citation, built from the buffer before it. */
  lemma MarkerAddsItsCitation(resolve: Resolver, cs: seq<Node>, i: nat)
    requires i < |cs| && IsReferenceMarker(cs[i])
    ensures ParagraphCitations(resolve, cs[..i + 1]) ==
            ParagraphCitations(resolve, cs[..i]) + Emit(resolve, cs[i], Strip(Buffer(cs[SegmentStart(cs[..i])..i])))
  {
    assert cs[..i + 1][..i] == cs[..i];
    var k := SegmentStart(cs[..i]);
    assert cs[..i][k..] == cs[k..i];
  }

  /**
   * Citations already produced are never revised by later children: the
   * citations of a prefix of the children are a prefix of the paragraph's.
   */
  lemma {:induction false} ParagraphCitationsPrefix(resolve: Resolver, cs: seq<Node>, n: nat)
    requires n <= |cs|
    ensures ParagraphCitations(resolve, cs[..n]) <= ParagraphCitations(resolve, cs)
    decreases |cs| - n
  {
    if n < |cs| {
      ParagraphCitationsPrefix(resolve, cs, n + 1);
      assert cs[..n + 1][..n] == cs[..n];
    } else {
      assert cs[..n] == cs;
    }
  }
}
