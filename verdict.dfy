/**
 * The end of `fact_check_citation`: the model's reply has been run through
 * `json.loads`, and the verdict is read off the decoded object by taking
 * exactly the two keys of `FactCheckResult`; a reply that does not decode, or
 * an object without one of the keys, gives a failed verdict whose
 * explanation names the cause.
 */
module Verdict {

  /** A decoded JSON value. Numbers keep their source text; no arithmetic is done on them. */
  datatype Json =
    | JNull
    | JBool(b: bool)
    | JNumber(text: string)
    | JString(s: string)
    | JArray(items: seq<Json>)
    | JObject(fields: map<string, Json>)

  /** What `json.loads(response["response"])` gives: a value, or the text of the error it raised. */
  datatype Decoded = DecodeError(message: string) | Decoded(value: Json)

  /**
   * The `FactCheckResult` record. The constructor checks no types, so each
   * field holds whatever JSON value the reply had under its key.
   */
  datatype FactCheckResult = FactCheckResult(referenceSupportsCitation: Json, briefExplanation: Json)

  const SupportKey: string := "reference_supports_citation"
  const ExplanationKey: string := "brief_explanation"
  const FailurePrefix: string := "Failed to parse LLM response: "

  /** `str(KeyError(key))`: the key, quoted. */
  function KeyErrorText(key: string): string
  {
    "'" + key + "'"
  }

  /** `FactCheckResult(False, f"Failed to parse LLM response: {e}")`. */
  function Failed(cause: string): FactCheckResult
  {
    FactCheckResult(JBool(false), JString(FailurePrefix + cause))
  }

  /**
   * Lines 110-116. The dict comprehension looks the keys up in field order,
   * so when both are missing the `KeyError` names `reference_supports_citation`.
   */
  function ParseVerdict(outcome: Decoded): FactCheckResult
    requires outcome.Decoded? ==> outcome.value.JObject?
  {
    match outcome
    case DecodeError(message) => Failed(message)
    case Decoded(value) =>
      var fields := value.fields;
      if SupportKey !in fields then Failed(KeyErrorText(SupportKey))
      else if ExplanationKey !in fields then Failed(KeyErrorText(ExplanationKey))
      else FactCheckResult(fields[SupportKey], fields[ExplanationKey])
  }

  /** The object of exactly the schema the prompt asks for, holding the two values of `r`. */
  function SchemaObject(r: FactCheckResult): Json
  {
    JObject(map[SupportKey := r.referenceSupportsCitation, ExplanationKey := r.briefExplanation])
  }

  /** Both keys present in an object. */
  predicate HasSchemaKeys(fields: map<string, Json>)
  {
    SupportKey in fields && ExplanationKey in fields
  }

  /** A reply of exactly the schema gives back the values it holds. */
  lemma SchemaRoundTrip(r: FactCheckResult)
    ensures ParseVerdict(Decoded(SchemaObject(r))) == r
  {
    var fields := SchemaObject(r).fields;
    assert SupportKey != ExplanationKey by {
      assert |SupportKey| != |ExplanationKey|;
    }
    assert fields[SupportKey] == r.referenceSupportsCitation;
  }

  /**
   * An object with both keys gives the values under them, whatever else it
   * holds; reading the verdict and writing it back as a schema object keeps
   * exactly the two schema entries.
   */
  lemma ProjectsSchemaKeys(fields: map<string, Json>)
    requires HasSchemaKeys(fields)
    ensures ParseVerdict(Decoded(JObject(fields))) ==
      FactCheckResult(fields[SupportKey], fields[ExplanationKey])
    ensures SchemaObject(ParseVerdict(Decoded(JObject(fields)))).fields ==
      map k | k in fields && (k == SupportKey || k == ExplanationKey) :: fields[k]
  {
  }

  /** Extra keys are ignored: the verdict depends on the two schema entries only. */
  lemma ExtraKeysIgnored(f: map<string, Json>, g: map<string, Json>)
    requires SupportKey in f <==> SupportKey in g
    requires ExplanationKey in f <==> ExplanationKey in g
    requires SupportKey in f ==> f[SupportKey] == g[SupportKey]
    requires ExplanationKey in f ==> f[ExplanationKey] == g[ExplanationKey]
    ensures ParseVerdict(Decoded(JObject(f))) == ParseVerdict(Decoded(JObject(g)))
  {
  }

  /**
   * Every way of failing gives `False` with the reason after the fixed
   * prefix: the decoder's message, or the first missing key in field order.
   */
  lemma FailureCases(outcome: Decoded)
    requires outcome.Decoded? ==> outcome.value.JObject?
    ensures outcome.DecodeError? ==> ParseVerdict(outcome) == Failed(outcome.message)
    ensures outcome.Decoded? && SupportKey !in outcome.value.fields ==>
      ParseVerdict(outcome) == Failed(KeyErrorText(SupportKey))
    ensures outcome.Decoded? && SupportKey in outcome.value.fields && ExplanationKey !in outcome.value.fields ==>
      ParseVerdict(outcome) == Failed(KeyErrorText(ExplanationKey))
  {
  }
}
