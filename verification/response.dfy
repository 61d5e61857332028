/** What `Translate` makes of the service's answer. The body is taken as
    already decompressed and parsed: each field holds what `gjson` renders for
    its path, which is the empty string when the path is absent. */
module Response {
  import opened Wrappers
  import opened Errors

  /** One entry of `result.texts.0.alternatives`. */
  datatype Alternative = Alternative(text: string)

  /** The parsed body: `error.code`, `result.texts.0.text` and
      `result.texts.0.alternatives`, in response order. */
  datatype Body = Body(errorCode: string, text: string, alternatives: seq<Alternative>)

  /** The outcome of the HTTP exchange: a transport error (building the
      request, sending it, or reading the body failed), or a status and a body. */
  datatype Reply = TransportFailure(cause: string) | Received(statusCode: int, body: Body)

  /** What a successful call returns. */
  datatype TranslationResult = TranslationResult(id: int, data: string, alternatives: seq<string>)

  /** The JSON-RPC error code the service uses for an unsupported target language. */
  const InvalidRequestCode: string := "-32600"
  /** `http.StatusTooManyRequests`. */
  const StatusTooManyRequests: int := 429

  /** The texts of the alternatives, in the order the response lists them. */
  function AlternativeTexts(alts: seq<Alternative>): (texts: seq<string>)
    ensures |texts| == |alts|
    ensures forall i :: 0 <= i < |alts| ==> texts[i] == alts[i].text
  {
    if |alts| == 0 then [] else [alts[0].text] + AlternativeTexts(alts[1..])
  }

  /** The `ForEach` loop that appends each alternative's text in turn. It
      computes the same list as `AlternativeTexts`. */
  method CollectAlternatives(alts: seq<Alternative>) returns (texts: seq<string>)
    ensures |texts| == |alts|
    ensures forall i :: 0 <= i < |alts| ==> texts[i] == alts[i].text
    ensures texts == AlternativeTexts(alts)
  {
    texts := [];
    var k := 0;
    while k < |alts|
      invariant 0 <= k <= |alts|
      invariant |texts| == k
      invariant forall i :: 0 <= i < k ==> texts[i] == alts[i].text
    {
      texts := texts + [alts[k].text];
      k := k + 1;
    }
  }

  /** The result or error `Translate` returns for a reply to the request with
      this id. A -32600 error code wins over status 429; anything else is
      a success carrying the id, the text and the alternatives. */
  function Classify(id: int, reply: Reply): (r: Result<TranslationResult, TranslateError>)
    ensures reply.TransportFailure? ==> r == Failure(Transport(reply.cause))
    ensures reply.Received? ==> (r == Failure(InvalidTargetLang) <==> reply.body.errorCode == InvalidRequestCode)
    ensures reply.Received? ==>
              (r == Failure(TooManyRequests) <==>
                 reply.body.errorCode != InvalidRequestCode && reply.statusCode == StatusTooManyRequests)
    ensures r.Success? <==>
              reply.Received? && reply.body.errorCode != InvalidRequestCode && reply.statusCode != StatusTooManyRequests
    ensures reply.TransportFailure? ==> r.Failure? && Message(r.error) == reply.cause
    ensures reply.Received? && reply.body.errorCode == InvalidRequestCode ==>
              r.Failure? && Message(r.error) == "Invalid targetLang"
    ensures reply.Received? && reply.body.errorCode != InvalidRequestCode && reply.statusCode == StatusTooManyRequests ==>
              r.Failure? && Message(r.error) == "Too Many Requests"
    ensures r.Success? ==>
              && r.value.id == id
              && r.value.data == reply.body.text
              && |r.value.alternatives| == |reply.body.alternatives|
              && forall i :: 0 <= i < |reply.body.alternatives| ==> r.value.alternatives[i] == reply.body.alternatives[i].text
  {
    match reply
    case TransportFailure(cause) => Failure(Transport(cause))
    case Received(status, body) =>
      if body.errorCode == InvalidRequestCode then Failure(InvalidTargetLang)
      else if status == StatusTooManyRequests then Failure(TooManyRequests)
      else Success(TranslationResult(id, body.text, AlternativeTexts(body.alternatives)))
  }

  /** Only the error code, the status and the transport outcome decide whether
      the call fails: two received replies that agree on code and status fail
      or succeed together, with the same error. */
  lemma ClassifyDependsOnCodeAndStatus(id: int, id': int, a: Reply, b: Reply)
    requires a.Received? && b.Received?
    requires a.statusCode == b.statusCode && a.body.errorCode == b.body.errorCode
    ensures Classify(id, a).Failure? <==> Classify(id', b).Failure?
    ensures Classify(id, a).Failure? ==> Classify(id, a).error == Classify(id', b).error
  {
  }
}
