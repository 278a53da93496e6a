/** The persisted application settings of `src/settings.rs`. The settings
    file is modelled by what reading it yields; serialisation is taken to
    read back what it wrote. */
module Settings {
  import opened Wrappers
  import Translation

  datatype Settings = Settings(
    darkMode: bool,
    defaultSourceLang: string,
    defaultTargetLang: string,
    windowWidth: int,
    windowHeight: int,
    windowX: Option<int>,
    windowY: Option<int>,
    startupMinimized: bool,
    activeService: Translation.Service,
    serviceConfigs: map<string, Translation.ServiceConfig>,
    maxHistoryEntries: int,
    autoSaveHistory: bool)

  const DefaultTimeout := Translation.DefaultConfig.timeoutSeconds

  /** The service table the settings start with, keyed by `config_name`. */
  function DefaultServiceConfigs(): (m: map<string, Translation.ServiceConfig>)
    ensures m.Keys == set s: Translation.Service :: Translation.ConfigName(s)
    ensures |m.Keys| == 5
    ensures forall k :: k in m ==>
      m[k].apiKey == None && m[k].timeoutSeconds == Some(5) &&
      (m[k].endpoint.Some? <==> k == "LibreTranslate")
  {
    var plain := Translation.ServiceConfig(None, None, Some(5));
    var m := map[
      "GoogleBeta" := plain,
      "GoogleOfficial" := plain,
      "LibreTranslate" := plain.(endpoint := Some(Translation.LibreTranslateEndpoint)),
      "Bing" := plain,
      "DeepL" := plain];
    assert m.Keys == set s: Translation.Service :: Translation.ConfigName(s) by {
      forall k | k in m.Keys
        ensures exists s: Translation.Service :: Translation.ConfigName(s) == k
      {
        var s := Translation.ServiceNamed(k);
        assert s.Some? && Translation.ConfigName(s.value) == k;
      }
      forall s: Translation.Service ensures Translation.ConfigName(s) in m.Keys {
        assert s == Translation.AllServices()[Translation.Ordinal(s)];
      }
    }
    assert |m.Keys| == 5 by {
      assert m.Keys == {"GoogleBeta", "GoogleOfficial", "LibreTranslate", "Bing", "DeepL"};
    }
    m
  }

  /** `Settings::default`. */
  function DefaultSettings(): (s: Settings)
    ensures !s.darkMode && !s.startupMinimized && s.autoSaveHistory
    ensures s.defaultSourceLang == "auto" && s.defaultTargetLang == "en"
    ensures s.windowWidth == 800 && s.windowHeight == 500
    ensures s.windowX == None && s.windowY == None
    ensures s.activeService == Translation.GoogleBeta
    ensures s.maxHistoryEntries == 100
    ensures s.serviceConfigs == DefaultServiceConfigs()
  {
    Settings(false, "auto", "en", 800, 500, None, None, false,
             Translation.GoogleBeta, DefaultServiceConfigs(), 100, true)
  }

  /** `get_service_config`: the entry under the service's `config_name`. */
  function GetServiceConfig(s: Settings, service: Translation.Service): (r: Option<Translation.ServiceConfig>)
    ensures r.Some? <==> Translation.ConfigName(service) in s.serviceConfigs
    ensures r.Some? ==> r.value == s.serviceConfigs[Translation.ConfigName(service)]
  {
    var name := match service
      case GoogleBeta => "GoogleBeta"
      case GoogleOfficial => "GoogleOfficial"
      case LibreTranslate => "LibreTranslate"
      case Bing => "Bing"
      case DeepL => "DeepL";
    if name in s.serviceConfigs then Some(s.serviceConfigs[name]) else None
  }

  /** The default settings and a new translation manager start every service
      from the same configuration. */
  lemma DefaultsAgreeWithManager(service: Translation.Service)
    ensures GetServiceConfig(DefaultSettings(), service) ==
      Some(Translation.GetConfig(Translation.NewManager(), service))
  {
    var m := DefaultServiceConfigs();
    var name := Translation.ConfigName(service);
    assert name in m;
    var c := Translation.GetConfig(Translation.NewManager(), service);
    if service == Translation.LibreTranslate {
      assert m[name] == Translation.ServiceConfig(None, Some(Translation.LibreTranslateEndpoint), Some(5));
    }
  }

  /** `update_service_config`: only the named entry changes. */
  function UpdateServiceConfig(s: Settings, name: string, c: Translation.ServiceConfig): (r: Settings)
    ensures name in r.serviceConfigs && r.serviceConfigs[name] == c
    ensures forall k :: k != name ==>
      (k in r.serviceConfigs <==> k in s.serviceConfigs) &&
      (k in s.serviceConfigs ==> r.serviceConfigs[k] == s.serviceConfigs[k])
    ensures r.(serviceConfigs := s.serviceConfigs) == s
  {
    s.(serviceConfigs := s.serviceConfigs[name := c])
  }

  /** Updating a service's entry by its `config_name` is what the lookup
      then finds; every other service's lookup is unchanged. */
  lemma UpdateThenGet(s: Settings, service: Translation.Service, other: Translation.Service,
                      c: Translation.ServiceConfig)
    ensures GetServiceConfig(UpdateServiceConfig(s, Translation.ConfigName(service), c), service) == Some(c)
    ensures other != service ==>
      GetServiceConfig(UpdateServiceConfig(s, Translation.ConfigName(service), c), other) ==
      GetServiceConfig(s, other)
  {
    Translation.ConfigNameInjective(service, other);
  }

  /** `update_window_geometry`: position and size are replaced, every other
      field is kept. (The method also saves; see `Save`.) */
  function UpdateWindowGeometry(s: Settings, x: int, y: int, width: int, height: int): (r: Settings)
    ensures r.windowX == Some(x) && r.windowY == Some(y)
    ensures r.windowWidth == width && r.windowHeight == height
    ensures r.(windowX := s.windowX, windowY := s.windowY,
               windowWidth := s.windowWidth, windowHeight := s.windowHeight) == s
  {
    s.(windowX := Some(x), windowY := Some(y), windowWidth := width, windowHeight := height)
  }

  /** The last geometry recorded wins. */
  lemma LastGeometryWins(s: Settings, x1: int, y1: int, w1: int, h1: int,
                         x2: int, y2: int, w2: int, h2: int)
    ensures UpdateWindowGeometry(UpdateWindowGeometry(s, x1, y1, w1, h1), x2, y2, w2, h2) ==
            UpdateWindowGeometry(s, x2, y2, w2, h2)
  {
  }

  // ---- the settings file -----------------------------------------------

  /** What reading `settings.json` yields. */
  datatype SettingsFile = Missing | Unreadable | Unparsable | Holds(settings: Settings)

  /** How far `save` gets on disk: the file is written; the directory or
      the file cannot be created; or the file is created (which truncates
      it) and writing the text then fails. */
  datatype WriteOutcome = Written | NotCreated | WriteFailed

  /** `save`, and whether it reports success. */
  datatype Saved = Saved(ok: bool, file: SettingsFile)

  /** `save`: succeeds only when the text is fully written. When the file
      cannot be created it is left as it was; when writing fails after the
      file was created, what remains is truncated text that does not parse. */
  function Save(f: SettingsFile, s: Settings, w: WriteOutcome): (r: Saved)
    ensures r.ok <==> w == Written
    ensures r.ok ==> r.file == Holds(s)
    ensures w == NotCreated ==> r.file == f
    ensures w == WriteFailed ==> r.file == Unparsable
  {
    match w
    case Written => Saved(true, Holds(s))
    case NotCreated => Saved(false, f)
    case WriteFailed => Saved(false, Unparsable)
  }

  datatype Loaded = Loaded(settings: Settings, file: SettingsFile)

  /** `load`: the settings the file holds, or else the defaults, which are
      then saved with outcome `w`. */
  function Load(f: SettingsFile, w: WriteOutcome): (r: Loaded)
    ensures f.Holds? ==> r.settings == f.settings && r.file == f
    ensures !f.Holds? ==>
      r.settings == DefaultSettings() && r.file == Save(f, DefaultSettings(), w).file
  {
    match f
    case Holds(s) => Loaded(s, f)
    case _ => Loaded(DefaultSettings(), Save(f, DefaultSettings(), w).file)
  }

  /** What the next start loads after a save: the saved settings when the
      write completed, the old file's settings when the file could not be
      created, and the defaults when a write failed after truncating. */
  lemma LoadAfterSave(f: SettingsFile, s: Settings, w: WriteOutcome, w2: WriteOutcome)
    ensures var next := Load(Save(f, s, w).file, w2).settings;
      (w == Written ==> next == s) &&
      (w == NotCreated ==> next == Load(f, w2).settings) &&
      (w == WriteFailed ==> next == DefaultSettings())
  {
  }
}
