/** Request shaping for the Cohere v2 embed endpoint and the two thin
    wrappers the indexer and the search route call. The HTTP exchange itself
    is a parameter: `service` maps the request that would be posted to what
    the endpoint answered. */
module Embedding {
  import opened Outcomes
  import opened JsText
  import opened Similarity

  datatype InputType = SearchDocument | SearchQuery

  /** The `input_type` string sent on the wire. */
  function InputTypeName(t: InputType): string
  {
    match t
    case SearchDocument => "search_document"
    case SearchQuery => "search_query"
  }

  const EmbedModel: string := "embed-english-v3.0"
  /** Every text is cut to its first 4000 characters before it is sent. */
  const MaxEmbedChars: nat := 4000

  /** The POST body and the authorization header. Each entry of `inputs` is
      the text of the single `{type: "text"}` content part of one input. */
  datatype EmbedRequest = EmbedRequest(
    authorization: string,
    model: string,
    inputType: string,
    embeddingTypes: seq<string>,
    inputs: seq<string>)

  /** What the endpoint answered: a non-2xx status, a 2xx body that is not
      JSON, or a JSON body whose `embeddings.float` may be absent. */
  datatype ServiceReply =
    | HttpFailure(status: int)
    | UnparsableBody
    | HttpOk(floats: Option<seq<Vector>>)

  datatype EmbedError = MissingApiKey | RequestFailed | InvalidJson

  /** Whether the call posted a request, and what it returned or threw. */
  datatype EmbedCall = EmbedCall(sent: Option<EmbedRequest>, result: Result<seq<Vector>, EmbedError>)

  function BuildRequest(texts: seq<string>, inputType: InputType, apiKey: string): (req: EmbedRequest)
    ensures req.authorization == "Bearer " + apiKey
    ensures req.model == EmbedModel && req.inputType == InputTypeName(inputType)
    ensures req.embeddingTypes == ["float"]
    ensures |req.inputs| == |texts|
    ensures forall i :: 0 <= i < |texts| ==>
      req.inputs[i] <= texts[i] && |req.inputs[i]| == Min(|texts[i]|, MaxEmbedChars)
  {
    EmbedRequest("Bearer " + apiKey, EmbedModel, InputTypeName(inputType), ["float"],
      seq(|texts|, i requires 0 <= i < |texts| => Prefix(texts[i], MaxEmbedChars)))
  }

  /** `cohereEmbedV2`. An empty list is answered without a request, a
      missing or empty key throws before any request, a failed or
      unparsable reply throws, and a reply without `embeddings.float`
      yields an empty list. The number of vectors is not checked against
      the number of texts. */
  function CohereEmbedV2(texts: seq<string>, inputType: InputType, apiKey: string,
                         service: EmbedRequest -> ServiceReply): (r: EmbedCall)
  {
    if texts == [] then EmbedCall(None, Ok([]))
    else if apiKey == "" then EmbedCall(None, Err(MissingApiKey))
    else
      var req := BuildRequest(texts, inputType, apiKey);
      match service(req)
      case HttpFailure(_) => EmbedCall(Some(req), Err(RequestFailed))
      case UnparsableBody => EmbedCall(Some(req), Err(InvalidJson))
      case HttpOk(floats) => EmbedCall(Some(req), Ok(floats.GetOr([])))
  }

  /** A request goes out exactly when there is something to embed and a key
      to send; when it does, it carries one input per text, in order. */
  lemma RequestSentIff(texts: seq<string>, inputType: InputType, apiKey: string,
                       service: EmbedRequest -> ServiceReply)
    ensures CohereEmbedV2(texts, inputType, apiKey, service).sent.Some? <==> texts != [] && apiKey != ""
    ensures CohereEmbedV2(texts, inputType, apiKey, service).sent.Some? ==>
      var req := CohereEmbedV2(texts, inputType, apiKey, service).sent.value;
      |req.inputs| == |texts| && req.inputType == InputTypeName(inputType) &&
      forall i :: 0 <= i < |texts| ==> req.inputs[i] == Prefix(texts[i], MaxEmbedChars)
  {
  }

  /** The call fails exactly when there is something to embed and either the
      key is missing or the endpoint did not give a parsable 2xx reply; it
      then returns exactly the vectors of the reply, or none. */
  lemma EmbedOutcome(texts: seq<string>, inputType: InputType, apiKey: string,
                     service: EmbedRequest -> ServiceReply)
    ensures var r := CohereEmbedV2(texts, inputType, apiKey, service);
      r.result.Err? <==>
        texts != [] && (apiKey == "" || !service(BuildRequest(texts, inputType, apiKey)).HttpOk?)
    ensures var r := CohereEmbedV2(texts, inputType, apiKey, service);
      r.result.Ok? && texts != [] ==>
        r.result.value == service(BuildRequest(texts, inputType, apiKey)).floats.GetOr([])
    ensures CohereEmbedV2([], inputType, apiKey, service).result == Ok([])
  {
  }

  /** `embedDocuments`. */
  function EmbedDocuments(texts: seq<string>, apiKey: string, service: EmbedRequest -> ServiceReply): Result<seq<Vector>, EmbedError>
  {
    CohereEmbedV2(texts, SearchDocument, apiKey, service).result
  }

  /** Documents are embedded as `search_document`: nothing is asked for no
      text, a missing key fails, and otherwise the result is what the
      endpoint answers to a `search_document` request carrying the texts,
      each cut to 4000 characters. */
  lemma EmbedDocumentsAsDocuments(texts: seq<string>, apiKey: string, service: EmbedRequest -> ServiceReply)
    ensures texts == [] ==> EmbedDocuments(texts, apiKey, service) == Ok([])
    ensures texts != [] && apiKey == "" ==> EmbedDocuments(texts, apiKey, service) == Err(MissingApiKey)
    ensures texts != [] && apiKey != "" ==>
      var req := BuildRequest(texts, SearchDocument, apiKey);
      req.inputType == "search_document" && |req.inputs| == |texts| &&
      (forall i :: 0 <= i < |texts| ==> req.inputs[i] == Prefix(texts[i], MaxEmbedChars)) &&
      match service(req)
      case HttpOk(floats) => EmbedDocuments(texts, apiKey, service) == Ok(floats.GetOr([]))
      case _ => EmbedDocuments(texts, apiKey, service).Err?
  {
  }

  /** `embedQueryToVector`: the first vector of a one-text `search_query`
      call; `None` is the `undefined` a reply without vectors destructures to. */
  function EmbedQueryToVector(query: string, apiKey: string, service: EmbedRequest -> ServiceReply): (r: Result<Option<Vector>, EmbedError>)
  {
    var call := CohereEmbedV2([query], SearchQuery, apiKey, service);
    match call.result
    case Err(e) => Err(e)
    case Ok(vs) => Ok(if vs == [] then None else Some(vs[0]))
  }

  /** The query is sent alone, as a search query, cut to 4000 characters;
      the vector is the first one of the reply, and there is none exactly
      when the reply had none. */
  lemma QueryVectorIsFirst(query: string, apiKey: string, service: EmbedRequest -> ServiceReply)
    ensures apiKey == "" <==> EmbedQueryToVector(query, apiKey, service) == Err(MissingApiKey)
    ensures apiKey != "" ==>
      var req := BuildRequest([query], SearchQuery, apiKey);
      req.inputs == [Prefix(query, MaxEmbedChars)] && req.inputType == "search_query" &&
      match service(req)
      case HttpOk(floats) =>
        var vs := floats.GetOr([]);
        EmbedQueryToVector(query, apiKey, service) == Ok(if vs == [] then None else Some(vs[0]))
      case _ => EmbedQueryToVector(query, apiKey, service).Err?
  {
    if apiKey != "" {
      var req := BuildRequest([query], SearchQuery, apiKey);
      assert req.inputs == [Prefix(query, MaxEmbedChars)];
    }
  }
}
