/**
 * What the scripts do with a Gemini reply. The model itself is outside: a reply is the
 * text `generate_content` returned, or `None` when the call raised.
 */
module Llm {
  import opened Wrappers
  import opened Text

  /**
   * A JSON object the model answered with, as a dict from keys to string values; `None`
   * is a JSON null.
   */
  type Object = map<string, Option<string>>

  /**
   * `json.loads` on texts that denote a JSON object of strings and nulls (`Some`) or no JSON
   * at all (`None`: the ValueError the scripts catch). A text that denotes any other JSON
   * value is not modelled: where the scripts call `.get` on it they raise AttributeError
   * outside their `try`, and the run stops.
   */
  type Parser = string -> Option<Object>

  const ExtractionFailed: string := "Extraction Failed"
  const NotSpecified: string := "Not specified"
  const NoSummary: string := "Could not generate summary."
  const ErrorLabel: string := "Error"
  const ActionableLabel: string := "Actionable"

  /** `obj.get(key, default)`: a null value is returned as `None`, not replaced. */
  function Get(obj: Object, key: string, default: string): (r: Option<string>)
    ensures key in obj ==> r == obj[key]
    ensures key !in obj ==> r == Some(default)
  {
    if key in obj then obj[key] else Some(default)
  }

  /**
   * Call, clean, parse: the object a reply denotes after fence removal, or `None` when the
   * call raised or the cleaned text is not JSON.
   */
  function Decode(reply: Option<string>, parse: Parser): (r: Option<Object>)
    ensures reply.None? ==> r.None?
  {
    match reply
    case None => None
    case Some(text) => parse(CleanResponse(text))
  }

  /** The parser is only ever shown fence-free text: two parsers that agree there decode alike. */
  lemma DecodeSeesNoFence(reply: Option<string>, p: Parser, q: Parser)
    requires forall t :: !HasFence(t) ==> p(t) == q(t)
    ensures Decode(reply, p) == Decode(reply, q)
  {
    if reply.Some? {
      CleanResponseHasNoFence(reply.value);
    }
  }

  /** A reply wrapped in a ```json block decodes as its body. */
  lemma DecodeFencedReply(body: string, parse: Parser)
    requires forall k :: 0 <= k < |body| ==> body[k] != '`'
    ensures Decode(Some(JsonFence + body + Fence), parse) == parse(body)
  {
    CleanFencedJson(body);
  }

  /** The location, issue and time fields of an extraction. */
  datatype Details = Details(location: Option<string>, issue: Option<string>, time: Option<string>)

  /**
   * `extract_incident_details` followed by the caller's `if extracted_data:` test and its
   * `.get(..., 'Extraction Failed')` defaults: `None` when the call or the parse failed or
   * the object is empty.
   */
  function Extract(reply: Option<string>, parse: Parser): (r: Option<Details>)
    ensures r.Some? <==> Decode(reply, parse).Some? && Decode(reply, parse).value != map[]
    ensures r.Some? ==> var obj := Decode(reply, parse).value;
      && ("location" in obj ==> r.value.location == obj["location"])
      && ("location" !in obj ==> r.value.location == Some(ExtractionFailed))
      && ("issue" in obj ==> r.value.issue == obj["issue"])
      && ("issue" !in obj ==> r.value.issue == Some(ExtractionFailed))
      && ("time" in obj ==> r.value.time == obj["time"])
      && ("time" !in obj ==> r.value.time == Some(ExtractionFailed))
  {
    match Decode(reply, parse)
    case None => None
    case Some(obj) =>
      if obj == map[] then None
      else Some(Details(Get(obj, "location", ExtractionFailed), Get(obj, "issue", ExtractionFailed),
                        Get(obj, "time", ExtractionFailed)))
  }

  /**
   * `classify_text`: the `classification` value, "Error" when the key is missing, and
   * "Error" when the call raised or the reply was not a JSON object.
   */
  function Classify(reply: Option<string>, parse: Parser): (c: Option<string>)
    ensures Decode(reply, parse).None? ==> c == Some(ErrorLabel)
    ensures Decode(reply, parse).Some? ==> c == Get(Decode(reply, parse).value, "classification", ErrorLabel)
  {
    match Decode(reply, parse)
    case None => Some(ErrorLabel)
    case Some(obj) => Get(obj, "classification", ErrorLabel)
  }

  /** The caller's test `classification == "Actionable"`. */
  predicate IsActionable(c: Option<string>) {
    c == Some(ActionableLabel)
  }

  /** A label is "Actionable" exactly when the model answered an object saying so. */
  lemma ActionableIff(reply: Option<string>, parse: Parser)
    ensures IsActionable(Classify(reply, parse)) <==>
      reply.Some? && parse(CleanResponse(reply.value)).Some?
      && "classification" in parse(CleanResponse(reply.value)).value
      && parse(CleanResponse(reply.value)).value["classification"] == Some(ActionableLabel)
  {
  }

  /**
   * `summarize_cluster`: the summary and the location of a cluster, with the fallbacks
   * "Could not generate summary." and "Not specified" for missing keys, and the pair
   * ("Could not generate summary.", "Error") when the call or the parse failed.
   */
  function Summarize(reply: Option<string>, parse: Parser): (r: (Option<string>, Option<string>))
    ensures Decode(reply, parse).None? ==> r == (Some(NoSummary), Some(ErrorLabel))
    ensures Decode(reply, parse).Some? ==>
      r == (Get(Decode(reply, parse).value, "summary", NoSummary), Get(Decode(reply, parse).value, "location", NotSpecified))
  {
    match Decode(reply, parse)
    case None => (Some(NoSummary), Some(ErrorLabel))
    case Some(obj) => (Get(obj, "summary", NoSummary), Get(obj, "location", NotSpecified))
  }

  /** The language model's replies to the location-cleaning prompt, keyed by the place text (None: the call raised). */
  type Cleaner = string -> Option<string>

  /**
   * `clean_location_with_ai`: the stripped reply, or the input unchanged when no Google key
   * is set or the call raised.
   */
  function CleanLocation(keyPresent: bool, reply: Option<string>, place: string): (r: string)
    ensures !keyPresent || reply.None? ==> r == place
    ensures keyPresent && reply.Some? ==> r == Strip(reply.value)
  {
    if !keyPresent then place
    else match reply
      case None => place
      case Some(text) => Strip(text)
  }
}
