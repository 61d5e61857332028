/** `Translate` end to end: build and respace the request, hand the payload to
    the HTTP exchange, classify the reply. The language detector, the JSON
    serialiser and the exchange are parameters, as are the random draw and the
    clock reading. */
module Client {
  import opened Wrappers
  import opened Errors
  import opened Fabrication
  import opened Request
  import opened Response

  function Translate(text: string, sourceLang: string, targetLang: string, numberAlternative: int,
                     detect: string -> string, draw: int, ts: int,
                     marshal: PostData -> string, exchange: string -> Reply): (r: Result<TranslationResult, TranslateError>)
    requires 0 <= draw < DrawBound
    ensures text == "" ==> r == Failure(NoTranslateTextFound)
    ensures text == "" ==> r.Failure? && Message(r.error) == "No Translate Text Found"
    ensures text != "" ==>
              var p := Prepare(text, sourceLang, targetLang, numberAlternative, detect, draw, ts, marshal);
              p.Success? && r == Classify(p.value.request.id, exchange(p.value.payload))
    ensures r.Success? ==> WellFormedId(r.value.id) && r.value.id == RequestId(draw)
    ensures r == Failure(NoTranslateTextFound) ==> text == ""
  {
    var prepared :- Prepare(text, sourceLang, targetLang, numberAlternative, detect, draw, ts, marshal);
    Classify(prepared.request.id, exchange(prepared.payload))
  }

  /** An empty text fails the same way whatever the other arguments and
      whatever the service would have answered: nothing is sent. */
  lemma EmptyTextSendsNothing(sourceLang: string, targetLang: string, numberAlternative: int,
                              detect: string -> string, draw: int, ts: int,
                              marshal: PostData -> string, exchange: string -> Reply, exchange': string -> Reply)
    requires 0 <= draw < DrawBound
    ensures Translate("", sourceLang, targetLang, numberAlternative, detect, draw, ts, marshal, exchange)
         == Translate("", sourceLang, targetLang, numberAlternative, detect, draw, ts, marshal, exchange')
         == Failure(NoTranslateTextFound)
  {
  }
}
