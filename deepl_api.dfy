/** The DeepL provider (`translate_free`, `translate_pro` and their shared
    `tranlate`): the auth-key guard, the text that goes out, the request's
    body and headers, and the mapping of the reply's `translations` to
    records. The HTTP exchange itself is a parameter: `reply` is what the
    server answered to the request, already decoded. */
module DeepLApi {
  import opened Strings
  import opened Errors
  import opened Utils
  import opened Records

  /** The two DeepL plans: they differ only in the host. */
  datatype Tier = Free | Pro

  function Url(tier: Tier): string
  {
    match tier
    case Free => "https://api-free.deepl.com/v2/translate"
    case Pro => "https://api.deepl.com/v2/translate"
  }

  /** One entry of the reply's `translations` array. */
  datatype Translation = Translation(detectedSourceLanguage: string, text: string)

  /** The decoded reply, `{"translations": [...]}`. */
  datatype DeepLResponse = DeepLResponse(translations: seq<Translation>)

  /** The POST request `tranlate` sends. */
  datatype Request = Request(url: string, authorization: string, contentType: string, body: string)

  const AuthScheme: string := "DeepL-Auth-Key "

  const FormContentType: string := "application/x-www-form-urlencoded"

  /** The guard of `translate_free` and `translate_pro`: the key is the
      default placeholder `null` or empty. */
  predicate AuthKeyMissing(authKey: string)
  {
    authKey == "null" || |authKey| == 0
  }

  /** The text that goes out: `fliter_short(fliter_long(content))`. */
  function Sanitise(content: string): string
  {
    FliterShort(FliterLong(content))
  }

  /** The `Authorization` header value. */
  function AuthValue(authKey: string): string
  {
    AuthScheme + authKey
  }

  /** `text={}&source_lang={}&target_lang={}&split_sentences=1`. */
  function Body(text: string, sl: string, tl: string): string
  {
    "text=" + text + "&source_lang=" + sl + "&target_lang=" + tl + "&split_sentences=1"
  }

  /** The request `tranlate` builds for `content`. */
  function RequestFor(tier: Tier, sl: string, tl: string, content: string, authKey: string): Request
  {
    Request(Url(tier), AuthValue(authKey), FormContentType, Body(Sanitise(content), sl, tl))
  }

  /** Because `fliter_short` removes every `.`, the `fliter_long` in front
      of it changes nothing: the text sent is `fliter_short(content)`, and
      it holds none of the nineteen removed characters. */
  lemma SanitiseIsShort(content: string)
    ensures Sanitise(content) == FliterShort(content)
    ensures forall c :: c in Sanitise(content) ==> c !in ShortRemoved && c in content
  {
    ShortAfterLong(content);
    FliterShortClean(content);
  }

  /** The key can be read back from the header: the header is the scheme
      `DeepL-Auth-Key` and a space, followed by exactly the key. */
  lemma AuthValueCarriesKey(authKey: string)
    ensures |AuthValue(authKey)| == |AuthScheme| + |authKey|
    ensures AuthValue(authKey)[..|AuthScheme|] == "DeepL-Auth-Key "
    ensures AuthValue(authKey)[|AuthScheme|..] == authKey
  {
  }

  lemma BodyLayout(text: string, sl: string, tl: string)
    ensures Body(text, sl, tl)
         == JoinWith(["text=" + text, "source_lang=" + sl, "target_lang=" + tl], "split_sentences=1", '&')
  {
    var f := ["text=" + text, "source_lang=" + sl, "target_lang=" + tl];
    var last := "split_sentences=1";
    assert f[1..][1..][1..] == [];
    var j2 := "target_lang=" + tl + "&" + last;
    assert JoinWith(f[2..], last, '&') == j2;
    var j1 := "source_lang=" + sl + "&" + j2;
    assert JoinWith(f[1..], last, '&') == j1;
    assert "&source_lang=" == "&" + "source_lang=";
    assert "&target_lang=" == "&" + "target_lang=";
    assert "&split_sentences=1" == "&" + last;
  }

  /** For a text and codes without `&`, the form body has exactly the four
      parameters `text`, `source_lang`, `target_lang` and `split_sentences`,
      in that order, carrying the given values. */
  lemma BodyParameters(text: string, sl: string, tl: string)
    requires '&' !in text && '&' !in sl && '&' !in tl
    ensures Split(Body(text, sl, tl), '&')
         == ["text=" + text, "source_lang=" + sl, "target_lang=" + tl, "split_sentences=1"]
  {
    BodyLayout(text, sl, tl);
    var fields := ["text=" + text, "source_lang=" + sl, "target_lang=" + tl];
    assert '&' !in fields[0] && '&' !in fields[1] && '&' !in fields[2];
    SplitJoinWith(fields, "split_sentences=1", '&');
  }

  /** The records the result loop builds: one per entry, in order. */
  function ResultsOf(translations: seq<Translation>, sent: string): seq<TranslateResult>
  {
    seq(|translations|, k requires 0 <= k < |translations| => TranslateResult(sent, translations[k].text, []))
  }

  /** The `for` loop of `tranlate`: each entry of `translations` becomes a
      record whose translation is the entry's text, whose original is the
      text that was sent (not the raw content), and which has no
      alternatives. */
  method MapTranslations(translations: seq<Translation>, sent: string) returns (results: seq<TranslateResult>)
    ensures |results| == |translations|
    ensures forall k :: 0 <= k < |results| ==>
      results[k].trans == translations[k].text && results[k].orig == sent && results[k].alter == []
    ensures results == ResultsOf(translations, sent)
  {
    results := [];
    for j := 0 to |translations|
      invariant |results| == j
      invariant forall k :: 0 <= k < j ==>
        results[k].trans == translations[k].text && results[k].orig == sent && results[k].alter == []
    {
      var item := TranslateResult(sent, translations[j].text, []);
      results := results + [item];
    }
  }

  /** What `translate_free` / `translate_pro` end in: the key error, the
      error of the exchange, or the records of the reply. */
  function Answer(tier: Tier, sl: string, tl: string, content: string, authKey: string,
                   reply: Result<DeepLResponse>): Result<seq<TranslateResult>>
  {
    if AuthKeyMissing(authKey) then Err(DeepLEmptyAuthKey)
    else match reply
      case Err(e) => Err(e)
      case Ok(response) => Ok(ResultsOf(response.translations, Sanitise(content)))
  }

  /** `tranlate`: build the request, then map the reply. */
  method TranslateRequest(tier: Tier, sl: string, tl: string, content: string, authKey: string,
                   reply: Result<DeepLResponse>) returns (request: Request, out: Result<seq<TranslateResult>>)
    requires !AuthKeyMissing(authKey)
    ensures request == RequestFor(tier, sl, tl, content, authKey)
    ensures out == Answer(tier, sl, tl, content, authKey, reply)
  {
    var text := FliterLong(content);
    text := FliterShort(text);
    var authValue := AuthScheme + authKey;
    var body := "text=" + text + "&source_lang=" + sl + "&target_lang=" + tl + "&split_sentences=1";
    request := Request(Url(tier), authValue, FormContentType, body);
    match reply {
      case Err(e) =>
        out := Err(e);
      case Ok(response) =>
        var results := MapTranslations(response.translations, text);
        out := Ok(results);
    }
  }

  /** `translate_free` (`tier == Free`) and `translate_pro` (`tier == Pro`):
      the guard, then `tranlate` with the plan's URL. `sent` is the request
      that went out, `None` when the guard refused the key. */
  method TranslateWith(tier: Tier, sl: string, tl: string, content: string, authKey: string,
                       reply: Result<DeepLResponse>) returns (sent: Option<Request>, out: Result<seq<TranslateResult>>)
    ensures sent == if AuthKeyMissing(authKey) then None else Some(RequestFor(tier, sl, tl, content, authKey))
    ensures out == Answer(tier, sl, tl, content, authKey, reply)
  {
    if authKey == "null" || |authKey| == 0 {
      return None, Err(DeepLEmptyAuthKey);
    }
    var request;
    request, out := TranslateRequest(tier, sl, tl, content, authKey, reply);
    sent := Some(request);
  }

  /** A missing key is refused with `DeepLEmptyAuthKeyError` whatever the
      server would have answered, and only a missing key is refused so. */
  lemma MissingKeyRefused(tier: Tier, sl: string, tl: string, content: string, authKey: string,
                          reply: Result<DeepLResponse>)
    requires reply.Ok? || reply.error != DeepLEmptyAuthKey
    ensures Answer(tier, sl, tl, content, authKey, reply) == Err(DeepLEmptyAuthKey) <==> AuthKeyMissing(authKey)
  {
  }

  /** The two plans use different hosts. */
  lemma TierUrlsDiffer()
    ensures Url(Free) != Url(Pro)
  {
    assert Url(Free)[11] == '-' && Url(Pro)[11] == '.';
  }

  /** The two plans send the same header, content type and body, so their
      requests differ only in the URL, and they end in the same result. */
  lemma TiersDifferOnlyInUrl(sl: string, tl: string, content: string, authKey: string, reply: Result<DeepLResponse>)
    ensures RequestFor(Free, sl, tl, content, authKey) != RequestFor(Pro, sl, tl, content, authKey)
    ensures RequestFor(Free, sl, tl, content, authKey).(url := Url(Pro)) == RequestFor(Pro, sl, tl, content, authKey)
    ensures Answer(Free, sl, tl, content, authKey, reply) == Answer(Pro, sl, tl, content, authKey, reply)
  {
    TierUrlsDiffer();
  }

  /** On a successful exchange there is one record per `translations`
      entry, in order: its translation is the entry's text and its original
      is `fliter_short(content)`. */
  lemma ResultsOneToOne(tier: Tier, sl: string, tl: string, content: string, authKey: string, response: DeepLResponse)
    requires !AuthKeyMissing(authKey)
    ensures var out := Answer(tier, sl, tl, content, authKey, Ok(response));
      out.Ok? && |out.value| == |response.translations|
      && forall k :: 0 <= k < |out.value| ==>
           out.value[k] == TranslateResult(FliterShort(content), response.translations[k].text, [])
  {
    SanitiseIsShort(content);
  }
}
