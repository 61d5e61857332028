/** The JSON-RPC request `Translate` builds: its record types, the skeleton
    `initData` fills in, the language defaults, and the assembly of one
    request from the caller's parameters. */
module Request {
  import opened Wrappers
  import opened Errors
  import opened GoStrings
  import opened Fabrication
  import opened Payload

  datatype Lang = Lang(sourceLangUserSelected: string, targetLang: string)

  datatype CommonJobParams = CommonJobParams(wasSpoken: bool, transcribeAs: string)

  datatype Text = Text(text: string, requestAlternatives: int)

  datatype Params = Params(
    texts: seq<Text>,
    splitting: string,
    lang: Lang,
    timestamp: int,
    commonJobParams: CommonJobParams)

  datatype PostData = PostData(jsonrpc: string, rpcMethod: string, id: int, params: Params)

  /** The request together with the bytes that go on the wire. */
  datatype Prepared = Prepared(request: PostData, payload: string)

  /** The target language used when the caller passes none. */
  const DefaultTargetLang: string := "EN"

  /** The fields every request carries, whatever is translated. */
  predicate HasFixedFields(d: PostData) {
    && d.jsonrpc == "2.0"
    && d.rpcMethod == "LMT_handle_texts"
    && d.params.splitting == "newlines"
    && d.params.commonJobParams == CommonJobParams(false, "")
  }

  /** `initData`: the skeleton with the fixed fields and the languages; the id,
      the texts and the timestamp keep Go's zero values until filled in. */
  function InitData(sourceLang: string, targetLang: string): (d: PostData)
    ensures HasFixedFields(d)
    ensures d.params.lang == Lang(sourceLang, targetLang)
    ensures d.id == 0 && d.params.texts == [] && d.params.timestamp == 0
  {
    PostData("2.0", "LMT_handle_texts", 0,
      Params([], "newlines", Lang(sourceLang, targetLang), 0, CommonJobParams(false, "")))
  }

  /** The languages of the request. An empty source language is replaced by
      what `detect` makes of the text (language detection and upper-casing of
      its ISO 639-1 code); an empty target language becomes English. */
  function ResolveLangs(text: string, sourceLang: string, targetLang: string, detect: string -> string): (l: Lang)
    ensures l.targetLang != ""
    ensures targetLang != "" ==> l.targetLang == targetLang
    ensures targetLang == "" ==> l.targetLang == DefaultTargetLang
    ensures sourceLang != "" ==> l.sourceLangUserSelected == sourceLang
    ensures sourceLang == "" ==> l.sourceLangUserSelected == detect(text)
  {
    Lang(if sourceLang == "" then detect(text) else sourceLang,
         if targetLang == "" then DefaultTargetLang else targetLang)
  }

  /** Resolving languages that are already resolved changes nothing, as long as
      the detector names some language. */
  lemma ResolveLangsIdempotent(text: string, sourceLang: string, targetLang: string, detect: string -> string)
    requires detect(text) != ""
    ensures var l := ResolveLangs(text, sourceLang, targetLang, detect);
            ResolveLangs(text, l.sourceLangUserSelected, l.targetLang, detect) == l
    ensures var l := ResolveLangs(text, sourceLang, targetLang, detect);
            l.sourceLangUserSelected != ""
  {
  }

  /** The request `Translate` builds, with the random draw and the clock
      reading passed in. Empty text is refused before anything is built. */
  function BuildRequest(text: string, sourceLang: string, targetLang: string, numberAlternative: int,
                        detect: string -> string, draw: int, ts: int): (r: Result<PostData, TranslateError>)
    requires 0 <= draw < DrawBound
    ensures r.Failure? <==> text == ""
    ensures r.Failure? ==> r.error == NoTranslateTextFound
    ensures r.Success? ==> HasFixedFields(r.value)
    ensures r.Success? ==> WellFormedId(r.value.id) && DrawOf(r.value.id) == draw
    ensures r.Success? ==> r.value.params.texts == [Text(text, numberAlternative)]
    ensures r.Success? ==> r.value.params.lang == ResolveLangs(text, sourceLang, targetLang, detect)
    ensures r.Success? && 'i' !in text ==> r.value.params.timestamp == ts
    ensures r.Success? && 'i' in text ==>
              var n := multiset(text)['i'] + 1;
              r.value.params.timestamp % n == 0 && ts < r.value.params.timestamp
    ensures r.Success? && 'i' in text && ts >= 0 ==>
              r.value.params.timestamp <= ts + multiset(text)['i'] + 1
    ensures r.Success? ==> r.value.params.timestamp == TimeStamp(ts, multiset(text)['i'])
  {
    if text == "" then
      Failure(NoTranslateTextFound)
    else
      var lang := ResolveLangs(text, sourceLang, targetLang, detect);
      var id := RequestId(draw);
      IdRoundTrip(id, draw);
      var skeleton := InitData(lang.sourceLangUserSelected, lang.targetLang);
      Success(skeleton.(
        id := id,
        params := skeleton.params.(
          texts := skeleton.params.texts + [Text(text, numberAlternative)],
          timestamp := TimeStamp(ts, ICount(text)))))
  }

  /** The request and its wire form. `marshal` stands for `json.Marshal`; its
      output is then respaced by the request id. */
  function Prepare(text: string, sourceLang: string, targetLang: string, numberAlternative: int,
                   detect: string -> string, draw: int, ts: int, marshal: PostData -> string): (r: Result<Prepared, TranslateError>)
    requires 0 <= draw < DrawBound
    ensures r.Failure? <==> text == ""
    ensures r.Failure? ==> r.error == NoTranslateTextFound
    ensures r.Success? ==> BuildRequest(text, sourceLang, targetLang, numberAlternative, detect, draw, ts) == Success(r.value.request)
    ensures r.Success? ==>
              var json := marshal(r.value.request);
              !Contains(json, DoubledToken) ==> !Contains(r.value.payload, MethodToken)
    ensures r.Success? ==>
              var json := marshal(r.value.request);
              var tok := Spacing(r.value.request.id);
              !Contains(json, tok) ==> ReplaceAll(r.value.payload, tok, MethodToken) == json
  {
    var built :- BuildRequest(text, sourceLang, targetLang, numberAlternative, detect, draw, ts);
    Success(Prepared(built, Rewrite(built.id, marshal(built))))
  }
}
