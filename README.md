# ackshually: a verified model of the citation extractor and the verdict reader

`ackshually` picks a Wikipedia article, pulls every inline citation out of it
(the sentence before a `<sup class="reference">` marker, paired with the
external link of the footnote the marker points at), and asks a language
model whether the linked page supports that sentence. This project models
the parts of the script that have logic of their own, and proves what they
promise:

- `extract_citations` (`Citations`), over a model of the parsed page and of
  the BeautifulSoup searches it runs (`Document`) and of the Python string
  operations it uses (`PyText`);
- the page check of `scrape_wikipedia_article` (`Article`);
- the verdict read off the model's decoded JSON reply in
  `fact_check_citation` (`Verdict`);
- the prompt, `FACT_CHECK_TEMPLATE.format(citation=..., content=...)`
  (`Prompts`), with Python's `str.format` modelled on the template text.

The extractor is written as it runs. `Citations.ExtractCitations` has the
script's two nested loops, over the paragraphs and over each paragraph's
children. It keeps the same `sentence` buffer updates, branches and order,
and appends to the `citations` sequence. The three nested lookups of a marker
are the function `Citations.ResolveMarker`. The method is proved equal to a
specification function, `ArticleCitations`, and the properties of the
output are lemmas about that function.

The page is a tree of `Document.Node`s: text leaves, and elements with a
name, single-valued attributes, a class list and children. `find_all`
searches the descendants in document (pre-)order. `find` is a depth-first
search that stops at its first match, and it is proved to return the first
element that `find_all` would list. `get_text` joins the text leaves below a
node, in order.

The code has no second, fallback extraction stage for the cited page, no
minimum length for its text, and no matching of textual `[n]` markers. It
does not check the types of the verdict fields either: `Verdict.FactCheckResult`
holds whatever JSON values the reply had under the two keys.

## Model

| member | source | states |
|---|---|---|
| Citations.ArticleCitations | ackshually.py:55-81 | what `extract_citations` returns, paragraph by paragraph; `ExtractCitations` is proved equal to it, and its order, count, URL and sentence properties are `ArticleUrlsFollowMarkers`, `ArticleUrlsNonEmpty`, `NoCitationsIffNoMarkerResolves` and `CitationsOfParagraphs` |
| Citations.IsReferenceMarker | ackshually.py:60 | a child is a marker when it is a `sup` element whose class list holds `reference`; only direct children are tested (`ParagraphWithoutMarkers`) and all of them are listed in document order (`ArticleUrlsFollowMarkers`) |
| Citations.MarkerSentenceIsLocal | ackshually.py:58-73 | the citation of a marker depends only on the children since the previous marker: whatever came before (ending at a marker, or nothing), the marker adds its citation with the stripped buffer of that segment alone |
| Citations.Buffer | ackshually.py:58-80 | the sentence buffer over the children since the last marker: it keeps their text apart from whitespace (`BufferKeepsText`), and is exactly their text when no sentence ends (`BufferExact`) |
| Citations.EndOfSentenceSpace | ackshually.py:79-80 | the end-of-sentence rewrite: it keeps the stripped text and removes whitespace only (`EndOfSentenceSpaceKeepsText`, `EndOfSentenceSpaceKeepsNonSpace`) |
| Citations.Paragraphs | ackshually.py:57 | `content.find_all("p")`: the paragraphs of the body in document order, at any depth |
| Citations.CiteLink | ackshually.py:61 | `child.find("a", href=True)`: an `a` element that has an `href` |
| Citations.FootnoteItem | ackshually.py:64 | `content.find("li", id=cite_id[1:])`: an `li` whose `id` is the href without its first character |
| Citations.ExternalLink | ackshually.py:66-68 | `ref_item.find("a", class_="external", attrs={"href": True})`: an `a` element with class `external` and an `href` |
| Citations.ExtractCitations | ackshually.py:55-81 | the list returned is `ArticleCitations(content)`: each paragraph of `find_all("p")`, in order, contributes its citations |
| Citations.ResolveMarker | ackshually.py:61-71 | the three nested lookups of a marker, each giving up when its search finds nothing; a resolved URL is never the empty string (`MarkerResolution` states the whole chain) |
| Citations.MarkerResolution | ackshually.py:61-71 | a marker resolves to `url` exactly when it has a first `a[href]`, the `li` whose id is that href minus its first character exists, that `li` has a first `a.external[href]`, and that link's href is `url` and is non-empty (each "first" in document order) |
| Citations.ArticleUrlsFollowMarkers | ackshually.py:57-72 | the URLs of the citations are the resolved URLs of the direct-child markers of all paragraphs, in document order, with unresolved markers skipped; so there are at most as many citations as markers |
| Citations.ArticleUrlsNonEmpty | ackshually.py:70-72 | no citation has an empty URL |
| Citations.CitationsOfParagraphs | ackshually.py:57-72 | every sentence of the result is stripped: no whitespace at either end |
| Citations.ParagraphCitations | ackshually.py:59-73 | every sentence a paragraph yields is stripped |
| Citations.NoCitationsIffNoMarkerResolves | ackshually.py:57-72 | the result is empty if and only if no marker resolves; in particular a body with no direct-child marker gives `[]` |
| Citations.ParagraphWithoutMarkers | ackshually.py:59-60 | a paragraph with no `sup.reference` among its direct children yields no citation, whatever is nested deeper |
| Citations.SegmentStart | ackshually.py:58-73 | the sentence of the next marker starts at the paragraph's start or just after a marker, and no marker lies after that start |
| Citations.SentenceOfSegment | ackshually.py:72-80 | the sentence of a segment is stripped and holds exactly the non-whitespace text of the segment's children, in order |
| Citations.BufferKeepsText | ackshually.py:75-80 | the buffer holds the children's text exactly, apart from whitespace |
| Citations.BufferExact | ackshually.py:75-80 | when no child ends a sentence, the buffer is exactly the concatenated text of the children |
| Citations.EndOfSentenceSpaceKeepsText | ackshually.py:79-80 | the end-of-sentence rewrite leaves the stripped buffer unchanged, and it either changes nothing or leaves the stripped text plus exactly one space |
| Citations.EndOfSentenceSpaceKeepsNonSpace | ackshually.py:79-80 | the rewrite removes whitespace only |
| Citations.ParagraphCitationsPrefix | ackshually.py:56-72 | citations already appended are never changed by later children |
| Citations.Emit | ackshually.py:69-72 | a marker gives at most one citation, and its sentence is the buffer |
| Citations.DropFirst | ackshually.py:64 | `cite_id[1:]` drops the first character, and is empty for the empty string |
| Document.FindAll | ackshually.py:57 | `find_all`: the matching descendants in document order; it lists exactly the matching nodes below the start (`FindAllMembers`) and `find` gives its first (`FindIsFirstOfFindAll`) |
| Document.GetText | ackshually.py:76 | `get_text()`: the text leaves below the node, in document order (`GetTextIsLeafText`) |
| Document.Matches | ackshually.py:61-68 | BeautifulSoup's matching of a search: the tag name, an `id` that is present and equal, a class in the element's class list, and a required attribute; text never matches |
| Document.Find | ackshually.py:61 | what `find` returns matches the query |
| Document.FindIsFirstOfFindAll | ackshually.py:61-68 | `find` returns the first element `find_all` lists, or nothing when that list is empty |
| Document.FindAllMembers | ackshually.py:57 | `find_all` lists a node exactly when it lies below the start node and matches |
| Document.SelectMembers | ackshually.py:57 | the selection keeps exactly the matching nodes |
| Document.Select | ackshually.py:57 | the selection is no longer than the nodes searched |
| Document.GetTextIsLeafText | ackshually.py:76 | `get_text()` is the text of the text leaves below the node, in document order |
| PyText.IsSpace | ackshually.py:79-80 | the characters for which Python's `str.isspace` holds, which are what `strip()` removes |
| PyText.EndsSentence | ackshually.py:79 | `endswith((".", "!", "?"))`: a non-empty string whose last character is `.`, `!` or `?` |
| PyText.Strip | ackshually.py:79-80 | `strip()` leaves no whitespace at either end, never lengthens, and removes whitespace only |
| PyText.StripUnique | ackshually.py:79-80 | stripping a stripped string with whitespace on both sides gives that string back |
| PyText.StripIdempotent | ackshually.py:79-80 | stripping twice is stripping once |
| PyText.LStrip | ackshually.py:79 | the result does not start with whitespace |
| PyText.RStrip | ackshually.py:79 | the result does not end with whitespace |
| Article.LocateArticle | ackshually.py:46-52 | a missing element gives the `ValueError` message; a located body has id `mw-content-text` |
| Article.LocateArticleFirstMatches | ackshually.py:46-52 | the page is accepted exactly when both ids occur; the title is the text of the first `firstHeading` and the body is the first `mw-content-text` |
| Verdict.ParseVerdict | ackshually.py:110-116 | the verdict read off a decoded reply; its properties are `SchemaRoundTrip`, `ProjectsSchemaKeys`, `ExtraKeysIgnored` and `FailureCases` |
| Verdict.KeyErrorText | ackshually.py:114-116 | `str(e)` for a `KeyError`: the missing key in single quotes |
| Verdict.Failed | ackshually.py:116 | the failed verdict: `False`, and the fixed prefix followed by the cause |
| Verdict.SchemaRoundTrip | ackshually.py:111-113 | a reply of exactly the requested schema gives back the two values it holds |
| Verdict.ProjectsSchemaKeys | ackshually.py:111-113 | an object with both keys gives the values under them, and writing the verdict back keeps exactly the two schema entries of the object |
| Verdict.ExtraKeysIgnored | ackshually.py:112-113 | any two objects that agree on the two keys give the same verdict, whatever other keys they hold |
| Verdict.FailureCases | ackshually.py:114-116 | a decode error gives `False` with the decoder's message; a missing key gives `False` with the quoted key, and `reference_supports_citation` is named first |
| Prompts.Format | ackshually.py:104 | `str.format` on plain-name fields: doubled braces give single braces, `{name}` gives its value, a lone brace or an unknown name is an error (`FormatEscaped`, `FormatField`, `FormatUnparse`) |
| Prompts.FactCheckTemplate | prompts.py:1-24 | `FACT_CHECK_TEMPLATE` as pieces: the instructions, `{citation.sentence}`, the source heading, `{citation.url}`, a blank line, `{content}` and a final newline |
| Prompts.FactCheckTemplateText | prompts.py:1-24 | the format string of the pieces, with the braces of the JSON schema doubled; it is written to equal the prompts.py literal character for character, which no lemma states |
| Prompts.FieldValues | ackshually.py:104 | the arguments `citation=..., content=...`, with the lookups `citation.sentence` and `citation.url` resolved to the record's fields |
| Prompts.FactCheckPrompt | ackshually.py:104 | `FACT_CHECK_TEMPLATE.format(citation=..., content=...)`; its layout, fixed start and length are `PromptLayout`, `InstructionsFixed` and `PromptLength` |
| Prompts.FormatUnparse | prompts.py:1-24 | formatting the format string the pieces make up gives the pieces with every field replaced by its value |
| Prompts.FormatEscaped | prompts.py:12-15 | doubled braces render as single braces, and any other literal text renders as itself |
| Prompts.FormatField | prompts.py:18-23 | a `{name}` field renders as its value, inserted verbatim |
| Prompts.CloseAt | prompts.py:18-23 | the end of a field is the first `}` after its `{` |
| Prompts.PromptLayout | prompts.py:1-24 | the prompt is the fixed instructions, the sentence, `"\n\n## Reference source material\nSource: "`, the URL, `"\n\n"`, the scraped text and `"\n"`, in that order; formatting never fails |
| Prompts.InstructionsFixed | prompts.py:1-17 | every prompt starts with the same instructions, and the JSON schema appears in them with single braces |
| Prompts.PromptLength | prompts.py:18-23 | the prompt's length is a fixed number plus the lengths of the sentence, the URL and the scraped text |
| Prompts.RenderThreeFields | prompts.py:17-24 | a template with three fields renders as its literal text and the three values, in order |
| Prompts.Escape | prompts.py:12-15 | escaping never shortens text |

## Left out

- Network I/O is left out. This covers `get_random_wikipedia_article`, the HTTP request in `scrape_wikipedia_article`, and `scrape_citation_content` with its trafilatura calls and fallback strings. The model takes the parsed page and the scraped text as inputs.
- HTML parsing by BeautifulSoup is left out. The page is given as a `Document.Node` tree.
- Comments, CDATA and other special strings are absent from the tree. For such a string, `str(child)` and `get_text()` would treat it differently, and the tree does not model that.
- `find(..., id="")` is not modelled for an element with no `id` attribute. When the href is empty or a single character, `cite_id[1:]` is empty, and BeautifulSoup would match elements without an `id` as well. The model only matches an element whose `id` is present and equal.
- Python's `isinstance(..., Tag)` and truthiness checks on search results are not modelled separately. A `find` result in the model is always an element, and an element is always truthy.
- `json.loads` is left out. Its outcome is an input, `Verdict.Decoded`: a decoded value, or the message of the `JSONDecodeError` it raised (`Verdict.Decoded.DecodeError`).
- A client reply without a `"response"` entry is outside `Verdict.ParseVerdict`. The `KeyError` is caught at line 114, but the handler at line 115 reads `response["response"]` again, so a second `KeyError` leaves `fact_check_citation` and no verdict is returned.
- Verdict.ParseVerdict requires a decoded value to be a JSON object. For any other top-level value, the script raises an uncaught `TypeError` before building a result.
- The `print` of a badly formatted reply is left out. For a reply that has a `"response"` entry, it is output only.
- The Ollama `client.generate` call, `main`'s retry loop and all of its printing are left out. They are foreign calls and presentation.
- Prompts.Format covers format strings whose fields are plain names. It does not model the `!` conversions, the `:` format specs, or positional and nested fields of `str.format`. A field such as `{x!r}` is reported as an unknown name. The template uses none of these.
- Prompts.FieldValues resolves the attribute lookups `{citation.sentence}` and `{citation.url}` directly. It does not model a bare `{citation}`, which Python would render as the record's `repr`.
- Prompts.FactCheckTemplateText: the template is written as pieces, runs of literal text and fields. The format string is computed from them by `Unparse`, and is not given as one literal, so no lemma states that it equals the prompts.py literal; they agree character for character by construction of the pieces.
- Citations.ExtractCitations states its result through `ArticleCitations`. The order, count and non-empty-URL properties are lemmas about that function, not postconditions of the method.
