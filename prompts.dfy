/**
 * The fact-checking prompt: the fixed template of prompts.py and the
 * `str.format` call that fills it with a citation and the text scraped from
 * its source. The template is written as a sequence of pieces (runs of
 * literal text and replacement fields); `Unparse` turns the pieces into the
 * format string and `Format` is Python's `str.format` with keyword
 * arguments, for format strings whose fields are plain names (no
 * conversions, format specs, or positional or nested fields), so the prompt
 * is `Format(Unparse(template), values)`.
 */
module Prompts {
  import opened Wrappers
  import Citations

  /** One piece of a format string: literal text, or a `{name}` replacement field. */
  datatype Piece = Literal(text: string) | Field(name: string)

  /** Why `str.format` refuses a format string. */
  datatype FormatError =
    | SingleOpen                 // a `{` that is the last character
    | SingleClose                // a `}` not followed by another `}`
    | Unclosed                   // a `{` with no `}` after it
    | UnknownField(name: string) // a field that names no keyword argument

  predicate IsBrace(c: char)
  {
    c == '{' || c == '}'
  }

  predicate NoBraces(s: string)
  {
    forall i | 0 <= i < |s| :: !IsBrace(s[i])
  }

  /** Literal text as it is written in a format string: each brace doubled. */
  function Escape(t: string): (r: string)
    ensures |r| >= |t|
    decreases |t|
  {
    if t == [] then []
    else (if IsBrace(t[0]) then [t[0], t[0]] else [t[0]]) + Escape(t[1..])
  }

  /** The format string that the pieces make up. */
  function Unparse(ps: seq<Piece>): string
    decreases |ps|
  {
    if ps == [] then []
    else
      (match ps[0]
       case Literal(t) => Escape(t)
       case Field(n) => "{" + n + "}") + Unparse(ps[1..])
  }

  /** What the pieces render to when every field is given a value by `values`. */
  function Render(ps: seq<Piece>, values: map<string, string>): string
    requires FieldsGiven(ps, values)
    decreases |ps|
  {
    if ps == [] then []
    else
      (match ps[0]
       case Literal(t) => t
       case Field(n) => values[n]) + Render(ps[1..], values)
  }

  /** Every field of `ps` has a brace-free name and a value in `values`. */
  predicate FieldsGiven(ps: seq<Piece>, values: map<string, string>)
  {
    forall i | 0 <= i < |ps| :: ps[i].Field? ==> NoBraces(ps[i].name) && ps[i].name in values
  }

  function Prefixed(p: string, r: Result<string, FormatError>): Result<string, FormatError>
  {
    match r
    case Ok(v) => Ok(p + v)
    case Err(e) => Err(e)
  }

  /** The first position at or after `k` that holds a `}`, or `|s|` when there is none. */
  function CloseAt(s: string, k: nat): (j: nat)
    requires k <= |s|
    ensures k <= j <= |s|
    ensures j < |s| ==> s[j] == '}'
    ensures forall i | k <= i < j :: s[i] != '}'
    decreases |s| - k
  {
    if k == |s| || s[k] == '}' then k else CloseAt(s, k + 1)
  }

  /**
   * `s.format(**values)` for format strings whose fields are plain names:
   * `{{` and `}}` stand for one brace, `{name}` for the value of that
   * keyword argument, and every other character for itself.
   */
  function Format(s: string, values: map<string, string>): Result<string, FormatError>
    decreases |s|
  {
    if s == [] then Ok([])
    else if s[0] == '{' then
      if |s| == 1 then Err(SingleOpen)
      else if s[1] == '{' then Prefixed("{", Format(s[2..], values))
      else
        var k := CloseAt(s, 1);
        if k == |s| then Err(Unclosed)
        else if s[1..k] in values then Prefixed(values[s[1..k]], Format(s[k + 1..], values))
        else Err(UnknownField(s[1..k]))
    else if s[0] == '}' then
      if |s| >= 2 && s[1] == '}' then Prefixed("}", Format(s[2..], values))
      else Err(SingleClose)
    else Prefixed([s[0]], Format(s[1..], values))
  }

  lemma PrefixedTwice(a: string, b: string, r: Result<string, FormatError>)
    ensures Prefixed(a, Prefixed(b, r)) == Prefixed(a + b, r)
  {
    if r.Ok? {
      assert a + (b + r.value) == (a + b) + r.value;
    }
  }

  /** A character other than a brace formats to itself. */
  lemma FormatPlain(c: char, rest: string, values: map<string, string>)
    requires !IsBrace(c)
    ensures Format([c] + rest, values) == Prefixed([c], Format(rest, values))
  {
    assert ([c] + rest)[1..] == rest;
  }

  /** A doubled brace formats to one brace. */
  lemma FormatDoubled(c: char, rest: string, values: map<string, string>)
    requires IsBrace(c)
    ensures Format([c, c] + rest, values) == Prefixed([c], Format(rest, values))
  {
    assert ([c, c] + rest)[2..] == rest;
  }

  /** Escaped text formats back to the text itself. */
  lemma {:induction false} FormatEscaped(t: string, rest: string, values: map<string, string>)
    ensures Format(Escape(t) + rest, values) == Prefixed(t, Format(rest, values))
    decreases |t|
  {
    if t == [] {
      assert Escape(t) + rest == rest;
      assert Prefixed([], Format(rest, values)) == Format(rest, values) by {
        if Format(rest, values).Ok? {
          assert [] + Format(rest, values).value == Format(rest, values).value;
        }
      }
    } else {
      var c := t[0];
      var mid := Escape(t[1..]) + rest;
      assert Format(Escape(t) + rest, values) == Prefixed([c], Format(mid, values)) by {
        if IsBrace(c) {
          assert Escape(t) + rest == [c, c] + mid;
          FormatDoubled(c, mid, values);
        } else {
          assert Escape(t) + rest == [c] + mid;
          FormatPlain(c, mid, values);
        }
      }
      FormatEscaped(t[1..], rest, values);
      PrefixedTwice([c], t[1..], Format(rest, values));
      assert [c] + t[1..] == t;
    }
  }

  /** A field formats to its value, inserted verbatim. */
  lemma FormatField(n: string, rest: string, values: map<string, string>)
    requires NoBraces(n) && n in values
    ensures Format("{" + n + "}" + rest, values) == Prefixed(values[n], Format(rest, values))
  {
    var s := "{" + n + "}" + rest;
    assert s[1..|n| + 1] == n;
    assert s[|n| + 1] == '}';
    assert s[|n| + 2..] == rest;
    if n == [] {
      assert CloseAt(s, 1) == 1;
    } else {
      assert s[1] == n[0];
      CloseAtSkips(s, 1, |n| + 1);
    }
  }

  lemma {:induction false} CloseAtSkips(s: string, k: nat, j: nat)
    requires k <= j < |s| && s[j] == '}'
    requires forall i | k <= i < j :: s[i] != '}'
    ensures CloseAt(s, k) == j
    decreases j - k
  {
    if k < j {
      CloseAtSkips(s, k + 1, j);
    }
  }

  /**
   * Filling in the format string that the pieces make up gives exactly the
   * pieces rendered: `Format` undoes `Unparse`.
   */
  lemma {:induction false} FormatUnparse(ps: seq<Piece>, values: map<string, string>)
    requires FieldsGiven(ps, values)
    ensures Format(Unparse(ps), values) == Ok(Render(ps, values))
    decreases |ps|
  {
    if ps == [] {
    } else {
      assert FieldsGiven(ps[1..], values) by {
        forall i | 0 <= i < |ps| - 1 ensures ps[1..][i] == ps[i + 1] { }
      }
      FormatUnparse(ps[1..], values);
      match ps[0]
      case Literal(t) =>
        FormatEscaped(t, Unparse(ps[1..]), values);
      case Field(n) =>
        FormatField(n, Unparse(ps[1..]), values);
    }
  }

  // ---------------------------------------------------------------------------
  // FACT_CHECK_TEMPLATE

  /** Lines 1-11 of the template: the instructions up to the JSON schema. */
  const Preamble: string :=
    "\n" +
    "You are a fact-checking assistant. Your task is to determine if the given citation is supported by the\n" +
    "provided reference content.\n" +
    "\n" +
    "# System Preamble\n" +
    "Analyze the provided text citation from a scholarly article and the reference content that was meant to support it.\n" +
    "Determine if the reference supports the citation being checked.\n" +
    "Provide a brief explanation for your decision. Your explanation should be concise, ideally one sentence.\n" +
    "\n" +
    "## Style Guide\n" +
    "Respond in JSON format with the following schema and NOTHING else:\n"

  /** Lines 12-15: the JSON schema, whose braces the template doubles. */
  const Schema: string :=
    "{" + "\n" +
    "\"reference_supports_citation\": boolean,\n" +
    "\"brief_explanation\": string\n" +
    "}"

  const CitationHeading: string := "\n\n## Citation being checked\n"
  const SourceHeading: string := "\n\n## Reference source material\nSource: "

  const SentenceField: string := "citation.sentence"
  const UrlField: string := "citation.url"
  const ContentField: string := "content"

  /** Everything before the citation sentence. */
  const Instructions: string := Preamble + Schema + CitationHeading

  /** A template with three fields, each between two runs of literal text. */
  function ThreeFields(a: string, x: string, b: string, y: string, c: string, z: string, d: string): seq<Piece>
  {
    [Literal(a), Field(x), Literal(b), Field(y), Literal(c), Field(z), Literal(d)]
  }

  /** FACT_CHECK_TEMPLATE, piece by piece. */
  const FactCheckTemplate: seq<Piece> :=
    ThreeFields(Instructions, SentenceField, SourceHeading, UrlField, "\n\n", ContentField, "\n")

  /** The template as a format string. */
  function FactCheckTemplateText(): string
  {
    Unparse(FactCheckTemplate)
  }

  /**
   * The keyword arguments of the call, with the two attribute lookups
   * `{citation.sentence}` and `{citation.url}` resolved.
   */
  function FieldValues(citation: Citations.Citation, content: string): map<string, string>
  {
    map[SentenceField := citation.sentence, UrlField := citation.url, ContentField := content]
  }

  /** `FACT_CHECK_TEMPLATE.format(citation=citation, content=content)`. */
  function FactCheckPrompt(citation: Citations.Citation, content: string): Result<string, FormatError>
  {
    Format(FactCheckTemplateText(), FieldValues(citation, content))
  }

  lemma RenderThreeFields(a: string, x: string, b: string, y: string, c: string, z: string, d: string,
                          values: map<string, string>)
    requires NoBraces(x) && NoBraces(y) && NoBraces(z)
    requires x in values && y in values && z in values
    ensures FieldsGiven(ThreeFields(a, x, b, y, c, z, d), values)
    ensures Render(ThreeFields(a, x, b, y, c, z, d), values) ==
      a + (values[x] + (b + (values[y] + (c + (values[z] + d)))))
  {
    var ps := ThreeFields(a, x, b, y, c, z, d);
    assert FieldsGiven(ps, values) by {
      forall i | 0 <= i < |ps| && ps[i].Field?
        ensures NoBraces(ps[i].name) && ps[i].name in values
      {
        assert i == 1 || i == 3 || i == 5;
      }
    }
    assert ps[6..] == [Literal(d)];
    assert Render(ps[6..], values) == d;
    assert ps[5..][1..] == ps[6..];
    assert Render(ps[5..], values) == values[z] + d;
    assert ps[4..][1..] == ps[5..];
    assert Render(ps[4..], values) == c + (values[z] + d);
    assert ps[3..][1..] == ps[4..];
    assert Render(ps[3..], values) == values[y] + (c + (values[z] + d));
    assert ps[2..][1..] == ps[3..];
    assert Render(ps[2..], values) == b + (values[y] + (c + (values[z] + d)));
    assert ps[1..][1..] == ps[2..];
    assert Render(ps[1..], values) == values[x] + (b + (values[y] + (c + (values[z] + d))));
  }

  /** A three-field template formats to its literal text with the three values inserted verbatim. */
  lemma FormatThreeFields(a: string, x: string, b: string, y: string, c: string, z: string, d: string,
                          values: map<string, string>)
    requires NoBraces(x) && NoBraces(y) && NoBraces(z)
    requires x in values && y in values && z in values
    ensures Format(Unparse(ThreeFields(a, x, b, y, c, z, d)), values) ==
      Ok(a + (values[x] + (b + (values[y] + (c + (values[z] + d))))))
  {
    RenderThreeFields(a, x, b, y, c, z, d, values);
    FormatUnparse(ThreeFields(a, x, b, y, c, z, d), values);
  }

  lemma FieldNamesPlain()
    ensures NoBraces(SentenceField) && NoBraces(UrlField) && NoBraces(ContentField)
  {
  }

  /** What follows the instructions: the three values, separated by the template's fixed text. */
  function PromptBody(citation: Citations.Citation, content: string): string
  {
    citation.sentence + (SourceHeading + (citation.url + ("\n\n" + (content + "\n"))))
  }

  /**
   * The prompt is the fixed instructions, the sentence, the source heading,
   * the URL, a blank line, the scraped text and a final newline, in that
   * order, each value inserted verbatim; formatting never fails.
   */
  lemma PromptLayout(citation: Citations.Citation, content: string)
    ensures FactCheckPrompt(citation, content) == Ok(Instructions + PromptBody(citation, content))
  {
    var values := FieldValues(citation, content);
    assert values[SentenceField] == citation.sentence && values[UrlField] == citation.url && values[ContentField] == content;
    FieldNamesPlain();
    FormatThreeFields(Instructions, SentenceField, SourceHeading, UrlField, "\n\n", ContentField, "\n", values);
  }

  lemma StartsWith(a: string, b: string, c: string, r: string)
    ensures a + b + c <= a + b + c + r
    ensures b <= (a + b + c + r)[|a|..]
  {
    assert (a + b + c + r)[|a|..] == b + (c + r);
  }

  /** The instructions, JSON schema included, start every prompt. */
  lemma InstructionsFixed(citation: Citations.Citation, content: string)
    ensures FactCheckPrompt(citation, content).Ok?
    ensures Instructions <= FactCheckPrompt(citation, content).value
    ensures Schema <= FactCheckPrompt(citation, content).value[|Preamble|..]
  {
    PromptLayout(citation, content);
    StartsWith(Preamble, Schema, CitationHeading, PromptBody(citation, content));
  }

  /** How long the fixed part of the prompt is. */
  const FixedLength: nat := |Instructions| + |SourceHeading| + 3

  /** The prompt is exactly as long as the fixed text plus the three values. */
  lemma PromptLength(citation: Citations.Citation, content: string)
    ensures FactCheckPrompt(citation, content).Ok?
    ensures |FactCheckPrompt(citation, content).value| ==
      FixedLength + |citation.sentence| + |citation.url| + |content|
  {
    PromptLayout(citation, content);
  }
}
