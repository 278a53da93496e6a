/** The value handling of the settings dialog in `src/settings_ui.rs`: the
    response dispatch, the conversion of the dialog's entries back into
    service configurations, and what saving does to the settings. Widgets
    are reduced to the values they hold. */
module SettingsUi {
  import opened Wrappers
  import Translation
  import Settings

  datatype Response = OkResponse | ApplyResponse | CancelResponse | OtherResponse

  datatype Dispatch = Dispatch(saves: bool, hides: bool)

  /** The dialog's response handler: OK and Apply save, OK and Cancel hide. */
  function Respond(r: Response): (d: Dispatch)
    ensures d.saves <==> r == OkResponse || r == ApplyResponse
    ensures d.hides <==> r == OkResponse || r == CancelResponse
  {
    Dispatch(r == OkResponse || r == ApplyResponse, r == OkResponse || r == CancelResponse)
  }

  /** The key and endpoint entries of one service's section. */
  datatype ApiEntry = ApiEntry(service: Translation.Service, keyText: string, endpointText: string)

  /** The services of the configuration sections, in the order the dialog
      builds them. */
  const SectionOrder: seq<Translation.Service> :=
    [Translation.GoogleBeta, Translation.GoogleOfficial, Translation.LibreTranslate,
     Translation.Bing, Translation.DeepL]

  function NonEmpty(text: string): (r: Option<string>)
    ensures r.None? <==> text == ""
    ensures r.Some? ==> r.value == text
  {
    if text == "" then None else Some(text)
  }

  /** The configuration a section's entries stand for: an empty entry means
      no value, and the timeout is always five seconds. */
  function EntryConfig(e: ApiEntry): (c: Translation.ServiceConfig)
    ensures c.apiKey.None? <==> e.keyText == ""
    ensures c.apiKey.Some? ==> c.apiKey.value == e.keyText
    ensures c.endpoint.None? <==> e.endpointText == ""
    ensures c.endpoint.Some? ==> c.endpoint.value == e.endpointText
    ensures c.timeoutSeconds == Some(5)
  {
    Translation.ServiceConfig(NonEmpty(e.keyText), NonEmpty(e.endpointText), Some(5))
  }

  function EntryName(e: ApiEntry): string {
    Translation.ConfigName(e.service)
  }

  /** No later entry is for the same service as `entries[i]`. */
  predicate LastFor(entries: seq<ApiEntry>, i: int)
    requires 0 <= i < |entries|
  {
    forall k :: i < k < |entries| ==> entries[k].service != entries[i].service
  }

  predicate Names(entries: seq<ApiEntry>, name: string) {
    exists i :: 0 <= i < |entries| && EntryName(entries[i]) == name
  }

  /** The service table after writing each entry's configuration in turn. */
  function SavedConfigs(configs: map<string, Translation.ServiceConfig>, entries: seq<ApiEntry>)
    : (r: map<string, Translation.ServiceConfig>)
    ensures forall k :: !Names(entries, k) ==>
      (k in r <==> k in configs) && (k in configs ==> r[k] == configs[k])
    ensures forall i :: 0 <= i < |entries| && LastFor(entries, i) ==>
      EntryName(entries[i]) in r && r[EntryName(entries[i])] == EntryConfig(entries[i])
    decreases |entries|
  {
    if |entries| == 0 then configs
    else
      var e := entries[0];
      var r := SavedConfigs(configs[EntryName(e) := EntryConfig(e)], entries[1..]);
      TailNames(entries);
      assert forall i :: 0 < i < |entries| && LastFor(entries, i) ==>
        EntryName(entries[i]) in r && r[EntryName(entries[i])] == EntryConfig(entries[i]) by {
        forall i | 0 < i < |entries| && LastFor(entries, i)
          ensures EntryName(entries[i]) in r && r[EntryName(entries[i])] == EntryConfig(entries[i])
        {
          LastForTail(entries, i);
        }
      }
      assert LastFor(entries, 0) ==> !Names(entries[1..], EntryName(e)) by {
        if LastFor(entries, 0) {
          LastHeadNotNamedLater(entries);
        }
      }
      r
  }

  lemma TailNames(entries: seq<ApiEntry>)
    requires |entries| > 0
    ensures forall k :: !Names(entries, k) ==> !Names(entries[1..], k) && k != EntryName(entries[0])
  {
    forall k | Names(entries[1..], k) ensures Names(entries, k) {
      var j :| 0 <= j < |entries[1..]| && EntryName(entries[1..][j]) == k;
      assert entries[j + 1] == entries[1..][j];
    }
  }

  lemma LastHeadNotNamedLater(entries: seq<ApiEntry>)
    requires |entries| > 0 && LastFor(entries, 0)
    ensures !Names(entries[1..], EntryName(entries[0]))
  {
  }

  lemma LastForTail(entries: seq<ApiEntry>, i: int)
    requires 0 < i < |entries| && LastFor(entries, i)
    ensures entries[1..][i - 1] == entries[i] && LastFor(entries[1..], i - 1)
  {
    forall k | i - 1 < k < |entries[1..]|
      ensures entries[1..][k].service != entries[1..][i - 1].service
    {
      assert entries[1..][k] == entries[k + 1];
    }
  }

  /** The `save_settings` loop over the sections. */
  method SaveServiceConfigs(configs: map<string, Translation.ServiceConfig>, entries: seq<ApiEntry>)
    returns (r: map<string, Translation.ServiceConfig>)
    ensures r == SavedConfigs(configs, entries)
    ensures forall k :: !Names(entries, k) ==>
      (k in r <==> k in configs) && (k in configs ==> r[k] == configs[k])
    ensures forall i :: 0 <= i < |entries| && LastFor(entries, i) ==>
      EntryName(entries[i]) in r && r[EntryName(entries[i])] == EntryConfig(entries[i])
  {
    r := configs;
    var i := 0;
    while i < |entries|
      invariant 0 <= i <= |entries|
      invariant SavedConfigs(r, entries[i..]) == SavedConfigs(configs, entries)
    {
      var e := entries[i];
      assert entries[i..][0] == e && entries[i..][1..] == entries[i + 1..];
      r := r[EntryName(e) := EntryConfig(e)];
      i := i + 1;
    }
    assert entries[i..] == [];
  }

  /** The values the dialog's widgets hold when a response arrives. */
  datatype DialogValues = DialogValues(
    darkMode: bool,
    sourceLangId: Option<string>,
    targetLangId: Option<string>,
    entries: seq<ApiEntry>)

  datatype SaveOutcome = SaveOutcome(settings: Settings.Settings, reapplyTheme: bool)

  /** `save_settings`: the dark-mode switch, the default languages when a
      language is selected, and every section's configuration. The active
      service selector and the start-minimised switch are not read. */
  method SaveSettings(s: Settings.Settings, d: DialogValues) returns (out: SaveOutcome)
    ensures out.reapplyTheme <==> s.darkMode != d.darkMode
    ensures out.settings.darkMode == d.darkMode
    ensures out.settings.defaultSourceLang == d.sourceLangId.GetOr(s.defaultSourceLang)
    ensures out.settings.defaultTargetLang == d.targetLangId.GetOr(s.defaultTargetLang)
    ensures out.settings.serviceConfigs == SavedConfigs(s.serviceConfigs, d.entries)
    ensures out.settings.activeService == s.activeService
    ensures out.settings.startupMinimized == s.startupMinimized
    ensures out.settings.(darkMode := s.darkMode, defaultSourceLang := s.defaultSourceLang,
                          defaultTargetLang := s.defaultTargetLang,
                          serviceConfigs := s.serviceConfigs) == s
  {
    var changed := s.darkMode != d.darkMode;
    var t := s.(darkMode := d.darkMode);
    if d.sourceLangId.Some? {
      t := t.(defaultSourceLang := d.sourceLangId.value);
    }
    if d.targetLangId.Some? {
      t := t.(defaultTargetLang := d.targetLangId.value);
    }
    var configs := SaveServiceConfigs(t.serviceConfigs, d.entries);
    t := t.(serviceConfigs := configs);
    out := SaveOutcome(t, changed);
  }

  /** What the dialog shows for a service when it opens: the stored key and
      endpoint, or empty entries. */
  function OpenedEntry(s: Settings.Settings, service: Translation.Service): (e: ApiEntry)
    ensures e.service == service
  {
    var c := Settings.GetServiceConfig(s, service);
    ApiEntry(service,
             if c.Some? && c.value.apiKey.Some? then c.value.apiKey.value else "",
             if c.Some? && c.value.endpoint.Some? then c.value.endpoint.value else "")
  }

  function OpenedEntries(s: Settings.Settings): (r: seq<ApiEntry>)
    ensures |r| == |SectionOrder|
    ensures forall i :: 0 <= i < |r| ==> r[i] == OpenedEntry(s, SectionOrder[i])
  {
    seq(|SectionOrder|, i requires 0 <= i < |SectionOrder| => OpenedEntry(s, SectionOrder[i]))
  }

  /** A stored configuration as it comes back from an unedited dialog: an
      empty key or endpoint is dropped and the timeout is reset to five
      seconds. */
  function Normalised(c: Option<Translation.ServiceConfig>): Translation.ServiceConfig {
    match c
    case None => Translation.ServiceConfig(None, None, Some(5))
    case Some(v) => Translation.ServiceConfig(
      if v.apiKey == Some("") then None else v.apiKey,
      if v.endpoint == Some("") then None else v.endpoint,
      Some(5))
  }

  /** Saving the dialog exactly as it opened keeps every service's key and
      endpoint (an empty one becomes none) and resets each timeout to five
      seconds. */
  lemma UneditedSaveNormalises(s: Settings.Settings, service: Translation.Service)
    ensures var entries := OpenedEntries(s);
      var configs := SavedConfigs(s.serviceConfigs, entries);
      Settings.GetServiceConfig(s.(serviceConfigs := configs), service) ==
        Some(Normalised(Settings.GetServiceConfig(s, service)))
  {
    var entries := OpenedEntries(s);
    var configs := SavedConfigs(s.serviceConfigs, entries);
    var i := Translation.Ordinal(service);
    OpenedEntryIsLast(s, service);
    assert EntryName(entries[i]) == Translation.ConfigName(service);
    assert configs[Translation.ConfigName(service)] == EntryConfig(entries[i]);
    OpenedEntryNormalises(s, service);
  }

  /** In the unedited dialog each service's section is the only one for it. */
  lemma OpenedEntryIsLast(s: Settings.Settings, service: Translation.Service)
    ensures Translation.Ordinal(service) < |OpenedEntries(s)|
    ensures OpenedEntries(s)[Translation.Ordinal(service)] == OpenedEntry(s, service)
    ensures LastFor(OpenedEntries(s), Translation.Ordinal(service))
  {
    var entries := OpenedEntries(s);
    var i := Translation.Ordinal(service);
    assert SectionOrder[i] == service;
    forall k | i < k < |entries| ensures entries[k].service != entries[i].service {
      assert entries[k].service == SectionOrder[k];
    }
  }

  /** The configuration an unedited section saves is the stored one,
      normalised. */
  lemma OpenedEntryNormalises(s: Settings.Settings, service: Translation.Service)
    ensures EntryConfig(OpenedEntry(s, service)) == Normalised(Settings.GetServiceConfig(s, service))
  {
  }
}
