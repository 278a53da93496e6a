/** The translation services of `src/translation.rs`: the service table, the
    per-service configuration and its defaults, the shaping of each
    service's HTTP request from the configuration, the decoding of each
    service's reply, and the fallback to Google's free endpoint. The network
    is a parameter: a function from the request sent to the reply received. */
module Translation {
  import opened Wrappers
  import Text
  import opened Json

  datatype Service = GoogleBeta | GoogleOfficial | LibreTranslate | Bing | DeepL

  /** Position of the variant in the enum declaration. */
  function Ordinal(s: Service): nat {
    match s
    case GoogleBeta => 0
    case GoogleOfficial => 1
    case LibreTranslate => 2
    case Bing => 3
    case DeepL => 4
  }

  /** `config_name`: the key of the service in the settings file. */
  function ConfigName(s: Service): string {
    match s
    case GoogleBeta => "GoogleBeta"
    case GoogleOfficial => "GoogleOfficial"
    case LibreTranslate => "LibreTranslate"
    case Bing => "Bing"
    case DeepL => "DeepL"
  }

  /** The service a settings key names, if any. */
  function ServiceNamed(name: string): Option<Service> {
    if name == "GoogleBeta" then Some(GoogleBeta)
    else if name == "GoogleOfficial" then Some(GoogleOfficial)
    else if name == "LibreTranslate" then Some(LibreTranslate)
    else if name == "Bing" then Some(Bing)
    else if name == "DeepL" then Some(DeepL)
    else None
  }

  /** Settings keys name services one to one: every key read back gives the
      service it was written for, and a recognised key is that service's. */
  lemma ConfigNameRoundTrip(s: Service, name: string)
    ensures ServiceNamed(ConfigName(s)) == Some(s)
    ensures ServiceNamed(name) == Some(s) ==> ConfigName(s) == name
  {
  }

  lemma ConfigNameInjective(a: Service, b: Service)
    ensures ConfigName(a) == ConfigName(b) ==> a == b
  {
    ConfigNameRoundTrip(a, ConfigName(a));
    ConfigNameRoundTrip(b, ConfigName(b));
  }

  /** The `Display` text of a service, shown in the service selector. */
  function DisplayName(s: Service): string {
    match s
    case GoogleBeta => "Google Translate (Beta)"
    case GoogleOfficial => "Google Translate (Official)"
    case LibreTranslate => "LibreTranslate"
    case Bing => "Bing Translator"
    case DeepL => "DeepL"
  }

  /** `all_services`: every variant once, in declaration order. */
  function AllServices(): (r: seq<Service>)
    ensures |r| == 5
    ensures forall i :: 0 <= i < |r| ==> Ordinal(r[i]) == i
    ensures forall s: Service :: s in r
  {
    var r := [GoogleBeta, GoogleOfficial, LibreTranslate, Bing, DeepL];
    assert forall s: Service :: s in r by {
      forall s: Service ensures s in r {
        assert r[Ordinal(s)] == s;
      }
    }
    r
  }

  /** No service appears twice in `all_services`. */
  lemma AllServicesDistinct()
    ensures forall i, j :: 0 <= i < j < |AllServices()| ==> AllServices()[i] != AllServices()[j]
  {
  }

  // ---- configuration ---------------------------------------------------

  datatype ServiceConfig = ServiceConfig(
    apiKey: Option<string>,
    endpoint: Option<string>,
    timeoutSeconds: Option<nat>)

  /** `ServiceConfig::default`: no key, no endpoint, a five-second timeout. */
  const DefaultConfig := ServiceConfig(None, None, Some(5))

  const LibreTranslateEndpoint := "https://libretranslate.com/translate"

  datatype Manager = Manager(active: Service, configs: map<Service, ServiceConfig>)

  /** `TranslationManager::new`: Google's free endpoint is active and every
      service has the default configuration, except that LibreTranslate has
      its public endpoint. */
  function NewManager(): (m: Manager)
    ensures m.active == GoogleBeta
    ensures forall s: Service :: s in m.configs
    ensures forall s: Service :: s in m.configs ==>
      m.configs[s].apiKey == None && m.configs[s].timeoutSeconds == Some(5) &&
      (m.configs[s].endpoint.Some? <==> s == LibreTranslate)
  {
    var configs := map[
      GoogleBeta := DefaultConfig,
      GoogleOfficial := DefaultConfig,
      LibreTranslate := DefaultConfig.(endpoint := Some(LibreTranslateEndpoint)),
      Bing := DefaultConfig,
      DeepL := DefaultConfig];
    assert forall s: Service :: s in configs by {
      forall s: Service ensures s in configs {
        assert s == AllServices()[Ordinal(s)];
      }
    }
    Manager(GoogleBeta, configs)
  }

  /** `get_config`: the stored configuration, or the default one. */
  function GetConfig(m: Manager, s: Service): (c: ServiceConfig)
    ensures s in m.configs ==> c == m.configs[s]
    ensures s !in m.configs ==> c == DefaultConfig
  {
    if s in m.configs then m.configs[s] else DefaultConfig
  }

  function SetActiveService(m: Manager, s: Service): Manager {
    m.(active := s)
  }

  /** `update_config`. */
  function UpdateConfig(m: Manager, s: Service, c: ServiceConfig): (r: Manager)
    ensures r.active == m.active
    ensures GetConfig(r, s) == c
    ensures forall other :: other != s ==> GetConfig(r, other) == GetConfig(m, other)
  {
    m.(configs := m.configs[s := c])
  }

  /** A manager that only ever went through `new` and `set_active_service`
      holds no API key for any service. */
  lemma FreshManagerHasNoKeys(active: Service, s: Service)
    ensures GetConfig(SetActiveService(NewManager(), active), s).apiKey == None
  {
  }

  // ---- requests --------------------------------------------------------

  datatype TranslationRequest = TranslationRequest(
    text: string, sourceLang: string, targetLang: string, config: ServiceConfig)

  datatype Method = HttpGet | HttpPost

  datatype Body =
    | NoBody
    | JsonBody(json: Json)
    | FormBody(params: seq<(string, string)>)

  /** An HTTP request: query parameters are listed before percent-encoding,
      and `timeoutSeconds == None` means the client's own timeout. */
  datatype HttpRequest = HttpRequest(
    verb: Method, url: string,
    query: seq<(string, string)>,
    headers: seq<(string, string)>,
    body: Body,
    timeoutSeconds: Option<nat>)

  const GoogleBetaUrl := "https://translate.googleapis.com/translate_a/single"
  const GoogleOfficialUrl := "https://translation.googleapis.com/language/translate/v2"
  const BingUrl := "https://api.cognitive.microsofttranslator.com/translate"
  const DeepLFreeUrl := "https://api-free.deepl.com/v2/translate"
  const DeepLProUrl := "https://api.deepl.com/v2/translate"

  /** The client's timeout, used by Google's free endpoint when the
      configuration sets none. */
  const ClientTimeoutSeconds := 10

  predicate HasName(pairs: seq<(string, string)>, name: string) {
    exists i :: 0 <= i < |pairs| && pairs[i].0 == name
  }

  predicate HasPair(pairs: seq<(string, string)>, name: string, value: string) {
    exists i :: 0 <= i < |pairs| && pairs[i] == (name, value)
  }

  /** The text to translate travels in the request: as a query or form
      parameter, as a member of the JSON body, or inside its first array
      element. */
  predicate CarriesText(h: HttpRequest, text: string) {
    (exists i :: 0 <= i < |h.query| && h.query[i].1 == text) ||
    (h.body.FormBody? && exists i :: 0 <= i < |h.body.params| && h.body.params[i].1 == text) ||
    (h.body.JsonBody? && (GetStr(h.body.json, "q") == Some(text) ||
                          GetStr(At(h.body.json, 0), "text") == Some(text)))
  }

  /** The configuration lacks what the service cannot run without. */
  predicate MissingSetting(s: Service, c: ServiceConfig) {
    match s
    case GoogleBeta => false
    case LibreTranslate => c.endpoint.None?
    case _ => c.apiKey.None?
  }

  const NotConfigured := " not configured"

  function MissingSettingMessage(s: Service): (r: string)
    requires s != GoogleBeta
    ensures |r| > 0 && r[0] != 'E' && r[0] != 'T'
  {
    match s
    case GoogleOfficial => "Google Translate API key" + NotConfigured
    case LibreTranslate => "LibreTranslate API endpoint" + NotConfigured
    case Bing => "Bing Translator API key" + NotConfigured
    case DeepL => "DeepL API key" + NotConfigured
  }

  /** DeepL's free-tier keys end in ":fx" and are served by a separate host. */
  function DeepLUrl(key: string): (url: string)
    ensures url == DeepLFreeUrl <==> Text.EndsWith(key, ":fx")
    ensures url == DeepLFreeUrl || url == DeepLProUrl
  {
    if Text.EndsWith(key, ":fx") then DeepLFreeUrl else DeepLProUrl
  }

  predicate NoLowerAscii(s: string) {
    forall i :: 0 <= i < |s| ==> !('a' <= s[i] <= 'z')
  }

  lemma ToUpperHasNoLower(s: string)
    ensures NoLowerAscii(Text.ToUpper(s))
  {
  }

  /** DeepL's code for a source language. */
  function DeepLSourceCode(code: string): (r: string)
    ensures code == "auto" ==> r == "auto"
    ensures code == "zh-CN" ==> r == "ZH"
    ensures code != "auto" ==> NoLowerAscii(r)
    ensures code != "auto" && code != "zh-CN" ==> r == Text.ToUpper(code)
  {
    if code == "auto" then "auto"
    else if code == "en" then
      assert Text.ToUpper(code) == "EN" by { assert code[0] == 'e' && code[1] == 'n'; }
      "EN"
    else if code == "zh-CN" then "ZH"
    else if code == "ja" then
      assert Text.ToUpper(code) == "JA" by { assert code[0] == 'j' && code[1] == 'a'; }
      "JA"
    else
      ToUpperHasNoLower(code);
      Text.ToUpper(code)
  }

  /** DeepL's code for a target language: English and Portuguese get a
      regional variant. */
  function DeepLTargetCode(code: string): (r: string)
    ensures code == "en" ==> r == "EN-US"
    ensures code == "pt" ==> r == "PT-BR"
    ensures code == "zh-CN" ==> r == "ZH"
    ensures NoLowerAscii(r)
    ensures code != "zh-CN" ==> |Text.ToUpper(code)| <= |r| && r[..|code|] == Text.ToUpper(code)
    ensures code != "en" && code != "zh-CN" && code != "pt" ==> r == Text.ToUpper(code)
  {
    if code == "en" then
      assert Text.ToUpper(code) == "EN" by { assert code[0] == 'e' && code[1] == 'n'; }
      "EN-US"
    else if code == "zh-CN" then "ZH"
    else if code == "pt" then
      assert Text.ToUpper(code) == "PT" by { assert code[0] == 'p' && code[1] == 't'; }
      "PT-BR"
    else
      ToUpperHasNoLower(code);
      Text.ToUpper(code)
  }

  /** The form DeepL receives: the text, the target, and the source unless
      it is to be detected. */
  function DeepLForm(req: TranslationRequest): (r: seq<(string, string)>)
    ensures HasName(r, "source_lang") <==> req.sourceLang != "auto"
    ensures req.sourceLang != "auto" ==> HasPair(r, "source_lang", DeepLSourceCode(req.sourceLang))
    ensures HasPair(r, "text", req.text)
    ensures HasPair(r, "target_lang", DeepLTargetCode(req.targetLang))
  {
    var base := [("text", req.text), ("target_lang", DeepLTargetCode(req.targetLang))];
    if req.sourceLang != "auto" then
      var r := base + [("source_lang", DeepLSourceCode(req.sourceLang))];
      assert r[0] == ("text", req.text) && r[1] == base[1] && r[2].0 == "source_lang";
      r
    else
      assert forall i :: 0 <= i < |base| ==> base[i].0 != "source_lang" by {
        assert base[0].0 == "text" && base[1].0 == "target_lang";
        assert "text" != "source_lang" by { assert "text"[0] != "source_lang"[0]; }
        assert "target_lang" != "source_lang" by { assert "target_lang"[0] != "source_lang"[0]; }
      }
      assert base[0] == ("text", req.text);
      assert base[1] == ("target_lang", DeepLTargetCode(req.targetLang));
      base
  }

  /** LibreTranslate's JSON body: the text and both codes, plus the key when
      one is configured. */
  function LibreBody(req: TranslationRequest): (r: Json)
    ensures r.Obj?
    ensures "api_key" in r.fields <==> req.config.apiKey.Some?
    ensures GetStr(r, "q") == Some(req.text)
  {
    var fields := map["q" := Str(req.text), "source" := Str(req.sourceLang),
                      "target" := Str(req.targetLang)];
    assert "api_key" !in fields by {
      assert "api_key" != "q" && "api_key" != "source" && "api_key" != "target" by {
        assert "api_key"[0] != "q"[0] && "api_key"[0] != "source"[0] && "api_key"[0] != "target"[0];
      }
    }
    match req.config.apiKey
    case Some(k) =>
      assert "q" != "api_key" by { assert "q"[0] != "api_key"[0]; }
      Obj(fields["api_key" := Str(k)])
    case None => Obj(fields)
  }

  /** Bing's headers: the key, the content type, and the region when the
      endpoint setting holds one. */
  function BingHeaders(key: string, region: Option<string>): (r: seq<(string, string)>)
    ensures HasPair(r, "Ocp-Apim-Subscription-Key", key)
    ensures HasName(r, "Ocp-Apim-Subscription-Region") <==> region.Some?
  {
    var base := [("Ocp-Apim-Subscription-Key", key), ("Content-Type", "application/json")];
    assert base[0] == ("Ocp-Apim-Subscription-Key", key);
    match region
    case Some(rg) =>
      var r := base + [("Ocp-Apim-Subscription-Region", rg)];
      assert r[0] == base[0] && r[2].0 == "Ocp-Apim-Subscription-Region";
      r
    case None =>
      assert "Ocp-Apim-Subscription-Key" != "Ocp-Apim-Subscription-Region" by {
        assert "Ocp-Apim-Subscription-Key"[22] != "Ocp-Apim-Subscription-Region"[22];
      }
      assert "Content-Type" != "Ocp-Apim-Subscription-Region" by {
        assert "Content-Type"[0] != "Ocp-Apim-Subscription-Region"[0];
      }
      base
  }

  /** The request a service sends, or the configuration error it reports
      before touching the network. */
  function BuildRequest(s: Service, req: TranslationRequest): (r: Result<HttpRequest, string>)
    ensures r.Err? <==> MissingSetting(s, req.config)
    ensures r.Err? ==> r.error == MissingSettingMessage(s)
    ensures r.Ok? ==> CarriesText(r.value, req.text)
    ensures s == GoogleBeta ==>
      r.Ok? && r.value.timeoutSeconds == Some(req.config.timeoutSeconds.GetOr(ClientTimeoutSeconds))
    ensures s == LibreTranslate && r.Ok? ==>
      r.value.url == req.config.endpoint.value && r.value.body.JsonBody? && r.value.body.json.Obj? &&
      ("api_key" in r.value.body.json.fields <==> req.config.apiKey.Some?)
    ensures s == Bing && r.Ok? ==>
      (HasName(r.value.headers, "Ocp-Apim-Subscription-Region") <==> req.config.endpoint.Some?)
    ensures s == DeepL && r.Ok? ==>
      (r.value.url == DeepLFreeUrl <==> Text.EndsWith(req.config.apiKey.value, ":fx")) &&
      r.value.body.FormBody? &&
      (HasName(r.value.body.params, "source_lang") <==> req.sourceLang != "auto")
  {
    var c := req.config;
    match s
    case GoogleBeta =>
      var q := [("client", "gtx"), ("sl", req.sourceLang), ("tl", req.targetLang),
                ("dt", "t"), ("q", req.text)];
      assert q[4].1 == req.text;
      Ok(HttpRequest(HttpGet, GoogleBetaUrl, q, [], NoBody,
                     Some(c.timeoutSeconds.GetOr(ClientTimeoutSeconds))))
    case GoogleOfficial =>
      if c.apiKey.None? then Err(MissingSettingMessage(s))
      else
        var q := [("key", c.apiKey.value), ("source", req.sourceLang),
                  ("target", req.targetLang), ("q", req.text)];
        assert q[3].1 == req.text;
        Ok(HttpRequest(HttpGet, GoogleOfficialUrl, q, [], NoBody, None))
    case LibreTranslate =>
      if c.endpoint.None? then Err(MissingSettingMessage(s))
      else Ok(HttpRequest(HttpPost, c.endpoint.value, [], [], JsonBody(LibreBody(req)), None))
    case Bing =>
      if c.apiKey.None? then Err(MissingSettingMessage(s))
      else
        var body := Arr([Obj(map["text" := Str(req.text)])]);
        assert GetStr(At(body, 0), "text") == Some(req.text);
        Ok(HttpRequest(HttpPost, BingUrl,
                       [("api-version", "3.0"), ("from", req.sourceLang), ("to", req.targetLang)],
                       BingHeaders(c.apiKey.value, c.endpoint), JsonBody(body), None))
    case DeepL =>
      if c.apiKey.None? then Err(MissingSettingMessage(s))
      else
        var key := c.apiKey.value;
        var form := DeepLForm(req);
        Ok(HttpRequest(HttpPost, DeepLUrl(key), [], [("Authorization", "DeepL-Auth-Key " + key)],
                       FormBody(form), None))
  }

  // ---- replies ---------------------------------------------------------

  /** What came back for a request: a transport failure, a non-success
      status, a body that is not JSON, or a JSON body. */
  datatype Reply =
    | ConnectFailed(detail: string)
    | BadStatus(status: string)
    | Unparsable(detail: string)
    | Received(json: Json)

  type Network = HttpRequest -> Reply

  const ErrorPrefix := "Error: "
  const ConnectErrorPrefix := ErrorPrefix + "Could not connect to translation service: "
  const TranslationErrorPrefix := "Translation error: "
  const UnexpectedFormat := TranslationErrorPrefix + "Unexpected response format"

  lemma ConnectErrorStartsWithE(d: string)
    ensures (ConnectErrorPrefix + d)[0] == 'E'
  {
  }

  lemma UnexpectedFormatStartsWithT()
    ensures UnexpectedFormat[0] == 'T'
  {
  }

  /** The send-error mapping and `process_response`. */
  function ProcessReply(reply: Reply): (r: Result<Json, string>)
    ensures r.Ok? <==> reply.Received?
    ensures r.Err? ==> |r.error| > 0 && r.error[0] == 'E'
  {
    match reply
    case ConnectFailed(d) =>
      ConnectErrorStartsWithE(d);
      Err(ConnectErrorPrefix + d)
    case BadStatus(st) => Err(ErrorPrefix + "Server returned status " + st)
    case Unparsable(d) => Err(ErrorPrefix + "Could not parse response: " + d)
    case Received(j) => Ok(j)
  }

  /** Google's free endpoint answers with an array whose first element
      lists the translated segments; each segment's first element is its
      text. Segments whose first element is not a string add nothing. */
  function SegmentText(segments: seq<Json>): string
    decreases |segments|
  {
    if |segments| == 0 then ""
    else (if At(segments[0], 0).Str? then At(segments[0], 0).str else "") + SegmentText(segments[1..])
  }

  /** Segments contribute in order: the text of two runs of segments is the
      text of the first followed by the text of the second. */
  lemma {:induction false} SegmentTextAppend(a: seq<Json>, b: seq<Json>)
    ensures SegmentText(a + b) == SegmentText(a) + SegmentText(b)
    decreases |a|
  {
    if |a| > 0 {
      assert (a + b)[0] == a[0];
      assert (a + b)[1..] == a[1..] + b;
      SegmentTextAppend(a[1..], b);
    } else {
      assert a + b == b;
    }
  }

  /** One segment contributes its string head, or nothing. */
  lemma SegmentTextSingle(seg: Json)
    ensures SegmentText([seg]) == (if At(seg, 0).Str? then At(seg, 0).str else "")
  {
    assert [seg][1..] == [];
  }

  /** Extracts the translation from a service's JSON reply. */
  function DecodeReply(s: Service, j: Json): (r: Result<string, string>)
    ensures r.Err? ==> r.error == UnexpectedFormat
    ensures s == GoogleBeta ==> (r.Ok? <==> At(j, 0).Arr?)
  {
    match s
    case GoogleBeta =>
      if At(j, 0).Arr? then Ok(SegmentText(At(j, 0).items)) else Err(UnexpectedFormat)
    case GoogleOfficial =>
      var text := match Get(j, "data")
        case Some(data) => (match Get(data, "translations")
          case Some(ts) => GetStr(At(ts, 0), "translatedText")
          case None => None)
        case None => None;
      if text.Some? then Ok(text.value) else Err(UnexpectedFormat)
    case LibreTranslate =>
      var text := GetStr(j, "translatedText");
      if text.Some? then Ok(text.value) else Err(UnexpectedFormat)
    case Bing =>
      var text := match Get(At(j, 0), "translations")
        case Some(ts) => GetStr(At(ts, 0), "text")
        case None => None;
      if text.Some? then Ok(text.value) else Err(UnexpectedFormat)
    case DeepL =>
      var text := match Get(j, "translations")
        case Some(ts) => GetStr(At(ts, 0), "text")
        case None => None;
      if text.Some? then Ok(text.value) else Err(UnexpectedFormat)
  }

  /** The smallest well-formed reply each service gives for `text`. */
  function CanonicalReply(s: Service, text: string): Json {
    match s
    case GoogleBeta => Arr([Arr([Arr([Str(text)])])])
    case GoogleOfficial =>
      Obj(map["data" := Obj(map["translations" := Arr([Obj(map["translatedText" := Str(text)])])])])
    case LibreTranslate => Obj(map["translatedText" := Str(text)])
    case Bing => Arr([Obj(map["translations" := Arr([Obj(map["text" := Str(text)])])])])
    case DeepL => Obj(map["translations" := Arr([Obj(map["text" := Str(text)])])])
  }

  /** Each decoder reads back the text of its service's well-formed reply. */
  lemma DecodeCanonicalReply(s: Service, text: string)
    ensures DecodeReply(s, CanonicalReply(s, text)) == Ok(text)
  {
    if s == GoogleBeta {
      var segs := [Arr([Str(text)])];
      assert At(CanonicalReply(s, text), 0) == Arr(segs);
      SegmentTextSingle(segs[0]);
    }
  }

  /** One service call: configuration check, request, reply, decoding. */
  function CallService(s: Service, req: TranslationRequest, net: Network): (r: Result<string, string>)
    ensures s != GoogleBeta ==> (r == Err(MissingSettingMessage(s)) <==> MissingSetting(s, req.config))
  {
    match BuildRequest(s, req)
    case Err(e) => Err(e)
    case Ok(h) =>
      var reply := ProcessReply(net(h));
      if reply.Err? then
        assert s != GoogleBeta ==> MissingSettingMessage(s)[0] != 'E';
        Err(reply.error)
      else
        var d := DecodeReply(s, reply.value);
        UnexpectedFormatStartsWithT();
        d
  }

  /** A service whose configuration is incomplete reports so whatever the
      network would have answered. */
  lemma MissingSettingIgnoresNetwork(s: Service, req: TranslationRequest, net1: Network, net2: Network)
    requires MissingSetting(s, req.config)
    ensures CallService(s, req, net1) == CallService(s, req, net2)
  {
  }

  const EmptyTextReply := "Please enter text to translate"

  /** `translate`: the empty text is answered locally, whatever the active
      service; otherwise the active service is called with its stored
      configuration. */
  function Translate(m: Manager, text: string, sourceLang: string, targetLang: string,
                     net: Network): (r: Result<string, string>)
    ensures text == "" ==> r == Ok(EmptyTextReply)
    ensures text != "" && m.active != GoogleBeta ==>
      (r == Err(MissingSettingMessage(m.active)) <==> MissingSetting(m.active, GetConfig(m, m.active)))
  {
    if text == "" then Ok(EmptyTextReply)
    else CallService(m.active, TranslationRequest(text, sourceLang, targetLang, GetConfig(m, m.active)), net)
  }

  /** `translate_with_fallback`: a failure of any service but Google's free
      endpoint is retried there, with that service's configuration. */
  function TranslateWithFallback(m: Manager, text: string, sourceLang: string, targetLang: string,
                                 net: Network): (r: Result<string, string>)
    ensures Translate(m, text, sourceLang, targetLang, net).Ok? ==>
      r == Translate(m, text, sourceLang, targetLang, net)
    ensures Translate(m, text, sourceLang, targetLang, net).Err? && m.active == GoogleBeta ==>
      r == Translate(m, text, sourceLang, targetLang, net)
    ensures Translate(m, text, sourceLang, targetLang, net).Err? && m.active != GoogleBeta ==>
      r == Translate(SetActiveService(m, GoogleBeta), text, sourceLang, targetLang, net)
  {
    var primary := Translate(m, text, sourceLang, targetLang, net);
    if primary.Ok? then primary
    else if m.active != GoogleBeta then
      CallService(GoogleBeta, TranslationRequest(text, sourceLang, targetLang, GetConfig(m, GoogleBeta)), net)
    else primary
  }

  /** With an incomplete configuration for the active service, the fallback
      answers exactly as Google's free endpoint would. */
  lemma FallbackCoversMissingSetting(m: Manager, text: string, sourceLang: string,
                                     targetLang: string, net: Network)
    requires text != "" && MissingSetting(m.active, GetConfig(m, m.active))
    ensures TranslateWithFallback(m, text, sourceLang, targetLang, net) ==
      Translate(SetActiveService(m, GoogleBeta), text, sourceLang, targetLang, net)
  {
  }
}
