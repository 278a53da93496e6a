/** The application logic of `src/main.rs`: translating with fallback, the
    translate / get-selection / save / copy actions, the in-window shortcut,
    and the 100 ms poller that reacts to the marker files written by the
    global hotkey listener. Widgets are reduced to the values they hold, and
    every outside effect (network replies, the selected text, the clock, the
    marker files) is a parameter. */
module App {
  import opened Wrappers
  import IntText
  import Translation
  import Settings
  import Database
  import Selection
  import Markers

  // ---- the translation manager ------------------------------------------

  /** The manager as `build_ui` creates it: a fresh manager whose active
      service is taken from the settings, and nothing else. */
  function StartupManagerAsWritten(st: Settings.Settings): (m: Translation.Manager)
    ensures m.active == st.activeService
    ensures forall s: Translation.Service :: Translation.GetConfig(m, s) == Translation.GetConfig(Translation.NewManager(), s)
  {
    Translation.SetActiveService(Translation.NewManager(), st.activeService)
  }

  /** The configuration the settings hold for `s`, or the manager's default
      when the settings have no entry for it. */
  function ConfigFromSettings(st: Settings.Settings, s: Translation.Service): Translation.ServiceConfig {
    var name := Translation.ConfigName(s);
    if name in st.serviceConfigs then st.serviceConfigs[name]
    else Translation.GetConfig(Translation.NewManager(), s)
  }

  /** The manager built from the settings: the active service and every
      service's stored configuration. */
  function StartupManager(st: Settings.Settings): (m: Translation.Manager)
    ensures m.active == st.activeService
    ensures forall s: Translation.Service :: s in m.configs
    ensures forall s: Translation.Service ::
      Translation.ConfigName(s) in st.serviceConfigs ==>
        Translation.GetConfig(m, s) == st.serviceConfigs[Translation.ConfigName(s)]
    ensures forall s: Translation.Service ::
      Translation.ConfigName(s) !in st.serviceConfigs ==>
        Translation.GetConfig(m, s) == Translation.GetConfig(Translation.NewManager(), s)
  {
    Translation.Manager(st.activeService,
                        map s: Translation.Service | s in Translation.AllServices() :: ConfigFromSettings(st, s))
  }

  /** As written, a key stored in the settings never reaches the manager:
      a service that needs a key reports it missing whatever the settings
      say. */
  lemma StoredKeyIgnoredAsWritten(st: Settings.Settings, text: string, sourceLang: string,
                                  targetLang: string, net: Translation.Network)
    requires text != ""
    requires st.activeService in {Translation.GoogleOfficial, Translation.Bing, Translation.DeepL}
    ensures Translation.Translate(StartupManagerAsWritten(st), text, sourceLang, targetLang, net) ==
      Err(Translation.MissingSettingMessage(st.activeService))
  {
    var m := StartupManagerAsWritten(st);
    assert Translation.GetConfig(m, m.active).apiKey == None;
  }

  /** With the manager built from the settings, a stored key is used: the
      active service does not report its setting missing. */
  lemma StoredKeyUsed(st: Settings.Settings, text: string, sourceLang: string,
                      targetLang: string, net: Translation.Network)
    requires text != ""
    requires st.activeService in {Translation.GoogleOfficial, Translation.Bing, Translation.DeepL}
    requires Translation.ConfigName(st.activeService) in st.serviceConfigs
    requires st.serviceConfigs[Translation.ConfigName(st.activeService)].apiKey.Some?
    ensures Translation.Translate(StartupManager(st), text, sourceLang, targetLang, net) !=
      Err(Translation.MissingSettingMessage(st.activeService))
  {
    var m := StartupManager(st);
    assert !Translation.MissingSetting(m.active, Translation.GetConfig(m, m.active));
  }

  // ---- translate_text ---------------------------------------------------

  const EmptyInputReply := "Please enter some text to translate"

  /** `translate_text`: the active service first; when it fails, a second
      attempt through `translate_with_fallback` (which has its own network
      exchange), and when that fails too, the FIRST error behind the
      "Translation error: " prefix. */
  function TranslateText(m: Translation.Manager, text: string, sourceLang: string, targetLang: string,
                         first: Translation.Network, second: Translation.Network): (r: string)
    ensures text == "" ==> r == EmptyInputReply
    ensures text != "" && Translation.Translate(m, text, sourceLang, targetLang, first).Ok? ==>
      r == Translation.Translate(m, text, sourceLang, targetLang, first).value
    ensures text != "" && Translation.Translate(m, text, sourceLang, targetLang, first).Err? ==>
      var retry := Translation.TranslateWithFallback(m, text, sourceLang, targetLang, second);
      (retry.Ok? ==> r == retry.value) &&
      (retry.Err? ==> r == Translation.TranslationErrorPrefix +
                           Translation.Translate(m, text, sourceLang, targetLang, first).error)
  {
    if text == "" then EmptyInputReply
    else
      match Translation.Translate(m, text, sourceLang, targetLang, first)
      case Ok(t) => t
      case Err(e) =>
        match Translation.TranslateWithFallback(m, text, sourceLang, targetLang, second)
        case Ok(t) => t
        case Err(_) => Translation.TranslationErrorPrefix + e
  }

  /** A service without its key or endpoint hands the text to Google's free
      endpoint; if that fails too, the text shown names the missing setting. */
  lemma MissingSettingFallsBackToGoogle(m: Translation.Manager, text: string, sourceLang: string,
                                        targetLang: string, first: Translation.Network,
                                        second: Translation.Network)
    requires text != "" && m.active != Translation.GoogleBeta
    requires Translation.MissingSetting(m.active, Translation.GetConfig(m, m.active))
    ensures var google := Translation.Translate(Translation.SetActiveService(m, Translation.GoogleBeta),
                                                text, sourceLang, targetLang, second);
      TranslateText(m, text, sourceLang, targetLang, first, second) ==
        if google.Ok? then google.value
        else Translation.TranslationErrorPrefix + Translation.MissingSettingMessage(m.active)
  {
    Translation.FallbackCoversMissingSetting(m, text, sourceLang, targetLang, second);
  }

  /** As written, a service that needs a key always ends on Google's free
      endpoint, whatever key the settings hold. */
  lemma KeyedServiceAlwaysFallsBackAsWritten(st: Settings.Settings, text: string, sourceLang: string,
                                            targetLang: string, first: Translation.Network,
                                            second: Translation.Network)
    requires text != ""
    requires st.activeService in {Translation.GoogleOfficial, Translation.Bing, Translation.DeepL}
    ensures var m := StartupManagerAsWritten(st);
      var google := Translation.Translate(Translation.SetActiveService(m, Translation.GoogleBeta),
                                          text, sourceLang, targetLang, second);
      TranslateText(m, text, sourceLang, targetLang, first, second) ==
        if google.Ok? then google.value
        else Translation.TranslationErrorPrefix + Translation.MissingSettingMessage(st.activeService)
  {
    var m := StartupManagerAsWritten(st);
    assert Translation.GetConfig(m, m.active).apiKey == None;
    MissingSettingFallsBackToGoogle(m, text, sourceLang, targetLang, first, second);
  }

  // ---- the main window --------------------------------------------------

  /** What the main window shows: the two text buffers, the newest status
      message, and the ids selected in the language combos. */
  datatype Ui = Ui(
    input: string,
    output: string,
    status: string,
    sourceLangId: Option<string>,
    targetLangId: Option<string>)

  /** The window together with the history database. */
  datatype World = World(ui: Ui, store: Database.Store)

  /** What a translation depends on from outside: the manager, the network
      as the first attempt and the fallback see it, and the wall-clock
      timestamp the history row gets. */
  datatype Context = Context(
    manager: Translation.Manager,
    first: Translation.Network,
    second: Translation.Network,
    now: string)

  const TranslatingText := "Translating..."
  const NoTextToTranslate := "No text to translate"
  const TranslationComplete := "Translation complete"
  const NoTextSelected := "No text selected"

  /** A translation that has been started and waits for its reply. */
  datatype Job = Job(text: string, sourceLang: string, targetLang: string)

  datatype Started = Started(ui: Ui, job: Option<Job>)

  /** The synchronous half of `perform_translation`: refuse an empty text,
      otherwise fix the languages (defaults "auto" and "es") and show the
      progress text in the output and the status bar. */
  function BeginTranslation(ui: Ui, text: string): (r: Started)
    ensures r.job.None? <==> text == ""
    ensures text == "" ==> r.ui == ui.(status := NoTextToTranslate)
    ensures r.job.Some? ==>
      r.job.value == Job(text, ui.sourceLangId.GetOr("auto"), ui.targetLangId.GetOr("es")) &&
      r.ui == ui.(output := TranslatingText, status := TranslatingText)
  {
    if text == "" then Started(ui.(status := NoTextToTranslate), None)
    else
      Started(ui.(output := TranslatingText, status := TranslatingText),
              Some(Job(text, ui.sourceLangId.GetOr("auto"), ui.targetLangId.GetOr("es"))))
  }

  datatype Completed = Completed(world: World, id: int)

  /** The asynchronous half: the reply replaces the output, and the pair is
      recorded in the history whatever text came back. */
  function CompleteTranslation(w: World, job: Job, translation: string, now: string): (r: Completed)
    ensures r.world.ui == w.ui.(output := translation, status := TranslationComplete)
    ensures r.world.store.translations == w.store.translations +
      [Database.Translation(r.id, now, job.text, job.sourceLang, translation, job.targetLang)]
    ensures r.world.store.lists == w.store.lists && r.world.store.entries == w.store.entries
    ensures Database.Valid(w.store) ==> Database.Valid(r.world.store)
  {
    var ins := Database.AddTranslation(w.store, now, job.text, job.sourceLang, translation, job.targetLang);
    Completed(World(w.ui.(output := translation, status := TranslationComplete), ins.store), ins.id)
  }

  /** `perform_translation` run to completion. */
  function PerformTranslation(w: World, text: string, c: Context): (r: World)
    ensures text == "" ==> r == w.(ui := w.ui.(status := NoTextToTranslate))
    ensures text != "" ==>
      r.ui == w.ui.(output := TranslateText(c.manager, text, w.ui.sourceLangId.GetOr("auto"),
                                            w.ui.targetLangId.GetOr("es"), c.first, c.second),
                    status := TranslationComplete)
    ensures text != "" ==> |r.store.translations| == |w.store.translations| + 1
    ensures Database.Valid(w.store) ==> Database.Valid(r.store)
  {
    var started := BeginTranslation(w.ui, text);
    match started.job
    case None => w.(ui := started.ui)
    case Some(job) =>
      var reply := TranslateText(c.manager, job.text, job.sourceLang, job.targetLang, c.first, c.second);
      CompleteTranslation(w.(ui := started.ui), job, reply, c.now).world
  }

  /** Whatever is shown after a translation is also the newest history row,
      and the history finds it by its id; that includes the error texts
      `translate_text` returns. */
  lemma ShownTranslationIsRecorded(w: World, text: string, c: Context)
    requires text != "" && Database.Valid(w.store)
    ensures var r := PerformTranslation(w, text, c);
      var row := r.store.translations[|r.store.translations| - 1];
      row.sourceText == text && row.targetText == r.ui.output &&
      Database.GetTranslationById(r.store, row.id) == Some(row)
  {
    var started := BeginTranslation(w.ui, text);
    var job := started.job.value;
    var reply := TranslateText(c.manager, job.text, job.sourceLang, job.targetLang, c.first, c.second);
    Database.AddedTranslationFound(w.store, c.now, job.text, job.sourceLang, reply, job.targetLang);
  }

  /** The translate button: the input buffer as it stands. */
  function TranslateClicked(w: World, c: Context): (r: World)
    ensures r.ui.input == w.ui.input
    ensures w.ui.input == "" ==> r.ui.status == NoTextToTranslate && r.store == w.store
    ensures w.ui.input != "" ==> r.ui.status == TranslationComplete
  {
    PerformTranslation(w, w.ui.input, c)
  }

  // ---- the get-selection button and the in-window shortcut --------------

  /** The get-selection button's test: neither empty nor one of the two
      "Failed to get …" texts. The third fixed text of the selection reader
      is not among them. */
  predicate ButtonAccepts(selection: string) {
    selection != "" && selection != Selection.X11FailureText && selection != Selection.WaylandFailureText
  }

  function GetSelectionClicked(w: World, selection: string, c: Context): (r: World)
    ensures !ButtonAccepts(selection) ==> r == w.(ui := w.ui.(status := NoTextSelected))
    ensures ButtonAccepts(selection) ==>
      r.ui.input == selection && r.ui.status == TranslationComplete &&
      |r.store.translations| == |w.store.translations| + 1
  {
    if ButtonAccepts(selection) then PerformTranslation(w.(ui := w.ui.(input := selection)), selection, c)
    else w.(ui := w.ui.(status := NoTextSelected))
  }

  /** What the button translates is a tool's output or, on a machine where
      no display server is detected, the fixed "Could not detect display
      server" text, which it translates as if it were a selection. */
  lemma ButtonTranslatesToolOutputOrUnknownText(env: map<string, string>, runs: Selection.ToolRuns)
    requires ButtonAccepts(Selection.GetSelectedText(env, runs))
    ensures Selection.IsToolOutput(env, runs, Selection.GetSelectedText(env, runs)) ||
            Selection.GetSelectedText(env, runs) == Selection.UnknownServerText
  {
  }

  lemma UnknownServerTextAccepted()
    ensures ButtonAccepts(Selection.UnknownServerText)
  {
    assert Selection.UnknownServerText[0] == 'C';
  }

  /** GDK's modifier bits for Control and Alt. */
  const ControlMask: bv32 := 4
  const AltMask: bv32 := 8

  predicate HasModifier(state: bv32, mask: bv32) {
    state & mask == mask
  }

  /** The window's key handler fires on the `t` key with Control and Alt
      held, whatever other modifiers are held with them. */
  predicate InAppHotkey(key: char, state: bv32) {
    key == 't' && HasModifier(state, ControlMask) && HasModifier(state, AltMask)
  }

  lemma InAppHotkeyIgnoresExtraModifiers(key: char, state: bv32, extra: bv32)
    requires InAppHotkey(key, state)
    ensures InAppHotkey(key, state | extra)
  {
  }

  lemma InAppHotkeyNeedsBoth()
    ensures InAppHotkey('t', ControlMask | AltMask)
    ensures !InAppHotkey('t', ControlMask) && !InAppHotkey('t', AltMask)
    ensures !InAppHotkey('T', ControlMask | AltMask)
  {
  }

  datatype KeyOutcome = KeyOutcome(world: World, handled: bool, focusRequested: bool)

  /** The key handler: on the shortcut, a non-empty selection is put in the
      input, the window is raised and the selection is translated. */
  function KeyPressed(w: World, key: char, state: bv32, selection: string, c: Context): (r: KeyOutcome)
    ensures r.handled <==> InAppHotkey(key, state)
    ensures !r.handled ==> r.world == w && !r.focusRequested
    ensures r.handled && selection == "" ==>
      r.world == w.(ui := w.ui.(status := NoTextSelected)) && !r.focusRequested
    ensures r.handled && selection != "" ==>
      r.focusRequested && r.world.ui.input == selection && r.world.ui.status == TranslationComplete
  {
    if !InAppHotkey(key, state) then KeyOutcome(w, false, false)
    else if selection == "" then KeyOutcome(w.(ui := w.ui.(status := NoTextSelected)), true, false)
    else KeyOutcome(PerformTranslation(w.(ui := w.ui.(input := selection)), selection, c), true, true)
  }

  /** The shortcut tests only for emptiness, so when every selection tool
      fails it translates the failure text that the button would refuse. */
  lemma ShortcutTranslatesFailureText(w: World, state: bv32, env: map<string, string>,
                                      runs: Selection.ToolRuns, c: Context)
    requires InAppHotkey('t', state)
    requires Selection.ChainFailed(env, runs)
    requires Selection.DetectDisplayServer(env) != Selection.Unknown
    ensures var text := Selection.GetSelectedText(env, runs);
      !ButtonAccepts(text) &&
      KeyPressed(w, 't', state, text, c).world.ui.input == text &&
      KeyPressed(w, 't', state, text, c).world.ui.status == TranslationComplete
  {
    Selection.FailureIsNeverEmpty(env, runs);
  }

  // ---- save and copy ----------------------------------------------------

  /** The save button's test. */
  predicate CanSave(ui: Ui) {
    ui.input != "" && ui.output != "" && ui.output != TranslatingText
  }

  /** The copy button's test. */
  predicate CanCopy(ui: Ui) {
    ui.output != "" && ui.output != TranslatingText
  }

  /** Anything that can be saved can be copied; while a translation is in
      flight neither is possible. */
  lemma SaveAndCopyGuards(ui: Ui, text: string)
    ensures CanSave(ui) ==> CanCopy(ui)
    ensures text != "" ==> !CanSave(BeginTranslation(ui, text).ui) && !CanCopy(BeginTranslation(ui, text).ui)
  {
  }

  const NoTranslationToCopy := "No translation to copy"

  datatype CopyOutcome = CopyOutcome(ui: Ui, copied: Option<string>)

  /** The copy button; `clipboardOk` is the clipboard tool's outcome. */
  function CopyClicked(ui: Ui, clipboardOk: bool): (r: CopyOutcome)
    ensures r.copied.Some? <==> CanCopy(ui)
    ensures r.copied.Some? ==> r.copied.value == ui.output
    ensures !CanCopy(ui) ==> r.ui == ui.(status := NoTranslationToCopy)
    ensures r.ui == ui.(status := r.ui.status)
  {
    if !CanCopy(ui) then CopyOutcome(ui.(status := NoTranslationToCopy), None)
    else CopyOutcome(ui.(status := if clipboardOk then "Translation copied to clipboard"
                                   else "Failed to copy to clipboard"),
                     Some(ui.output))
  }

  const NoTranslationToSave := "No translation to save"

  /** After the save button: the world, and the id of the history row the
      list popover will attach (none when the button refused). */
  datatype SaveStarted = SaveStarted(world: World, translationId: Option<int>)

  const FailedToSaveTranslation := "Failed to save translation"

  /** The save button records the pair in the history again (the finished
      translation already has a row of its own) and opens the list popover
      for the new row. `dbOk` is whether `add_translation` succeeded; on
      failure the button reports it and opens no popover. */
  function SaveClicked(w: World, now: string, dbOk: bool): (r: SaveStarted)
    ensures r.translationId.None? <==> !CanSave(w.ui) || !dbOk
    ensures !CanSave(w.ui) ==> r.world == w.(ui := w.ui.(status := NoTranslationToSave))
    ensures CanSave(w.ui) && !dbOk ==> r.world == w.(ui := w.ui.(status := FailedToSaveTranslation))
    ensures CanSave(w.ui) && dbOk ==>
      r.world.ui == w.ui &&
      r.world.store.translations == w.store.translations +
        [Database.Translation(r.translationId.value, now, w.ui.input, w.ui.sourceLangId.GetOr("auto"),
                              w.ui.output, w.ui.targetLangId.GetOr("es"))]
    ensures Database.Valid(w.store) ==> Database.Valid(r.world.store)
  {
    if !CanSave(w.ui) then SaveStarted(w.(ui := w.ui.(status := NoTranslationToSave)), None)
    else if !dbOk then SaveStarted(w.(ui := w.ui.(status := FailedToSaveTranslation)), None)
    else
      var ins := Database.AddTranslation(w.store, now, w.ui.input, w.ui.sourceLangId.GetOr("auto"),
                                         w.ui.output, w.ui.targetLangId.GetOr("es"));
      SaveStarted(w.(store := ins.store), Some(ins.id))
  }

  /** The id of the popover's "Create New List..." entry. */
  const NewListId := "new"

  /** The combo id of an existing list: its id as decimal text. */
  function ListComboId(l: Database.TranslationList): string {
    IntText.ShowInt(l.id)
  }

  lemma ListComboIdIsNotNew(l: Database.TranslationList)
    ensures ListComboId(l) != NewListId
  {
    assert NewListId[0] == 'n';
  }

  /** What the popover's save button leaves: the store, the status message
      it pushes (none when the selected id does not parse), and whether the
      popover closes. */
  datatype ListSaved = ListSaved(store: Database.Store, message: Option<string>, closes: bool)

  /** The popover's save button; `choice` is the combo's active id and
      `createOk` whether `create_list` succeeds. A failed creation is
      reported and the popover still closes. */
  function SaveToList(s: Database.Store, translationId: int, choice: Option<string>,
                      newName: string, now: string, createOk: bool): (r: ListSaved)
    ensures choice.None? ==> r == ListSaved(s, Some("Please select a list"), false)
    ensures choice == Some(NewListId) && newName == "" ==>
      r == ListSaved(s, Some("Please enter a list name"), false)
    ensures choice == Some(NewListId) && newName != "" && !createOk ==>
      r == ListSaved(s, Some("Failed to create list"), true)
    ensures choice == Some(NewListId) && newName != "" && createOk ==>
      r.closes && |r.store.lists| == |s.lists| + 1 &&
      var l := r.store.lists[|s.lists|];
      l.name == newName && Database.Linked(r.store, l.id, translationId)
    ensures choice.Some? && choice.value != NewListId ==> r.closes
    ensures choice.Some? && choice.value != NewListId && IntText.ParseI64(choice.value).None? ==>
      r.store == s && r.message.None?
    ensures choice.Some? && choice.value != NewListId && IntText.ParseI64(choice.value).Some? ==>
      Database.Linked(r.store, IntText.ParseI64(choice.value).value, translationId) && r.store.lists == s.lists
    ensures Database.Valid(s) ==> Database.Valid(r.store)
  {
    match choice
    case None => ListSaved(s, Some("Please select a list"), false)
    case Some(id) =>
      if id == NewListId then
        if newName == "" then ListSaved(s, Some("Please enter a list name"), false)
        else if !createOk then ListSaved(s, Some("Failed to create list"), true)
        else
          var created := Database.CreateList(s, newName, now);
          var added := Database.AddToList(created.store, created.id, translationId);
          ListSaved(added.store, Some("Translation saved to new list"), true)
      else
        match IntText.ParseI64(id)
        case None => ListSaved(s, None, true)
        case Some(listId) =>
          ListSaved(Database.AddToList(s, listId, translationId).store, Some("Translation saved to list"), true)
  }

  /** Choosing an existing list in the popover attaches the translation to
      exactly that list: its combo id parses back to its id. */
  lemma ChosenListReceivesTranslation(s: Database.Store, translationId: int,
                                      l: Database.TranslationList, newName: string, now: string,
                                      createOk: bool)
    requires l in s.lists && IntText.I64Min <= l.id <= IntText.I64Max
    ensures Database.Linked(SaveToList(s, translationId, Some(ListComboId(l)), newName, now, createOk).store,
                            l.id, translationId)
  {
    ListComboIdIsNotNew(l);
    IntText.ParseShowI64(l.id);
  }

  // ---- the marker poller ------------------------------------------------

  /** The poller's memory: the newest modification times it has acted on,
      both starting at the moment the window was built. */
  datatype Poller = Poller(lastModTime: nat, lastFocusTime: nat)

  function StartPoller(startup: nat): Poller {
    Poller(startup, startup)
  }

  /** What the selection half of one tick does. */
  datatype SelectionEvent = NoEvent | ReadFailed | EmptySelection | Selected(text: string)

  /** One tick's effect: the poller's new memory, the marker files after
      it, whether the window is raised for the focus marker, and the
      selection event. */
  datatype Tick = Tick(poller: Poller, markers: Markers.Markers, focus: bool, event: SelectionEvent)

  /** One 100 ms tick: a focus marker newer than the last one is consumed
      (removed) and raises the window; a selection file newer than the last
      one is read (`readable` is whether reading it succeeds) and never
      removed. A change is acted on once, even when its read fails. */
  function PollOnce(p: Poller, fs: Markers.Markers, readable: bool): (t: Tick)
    ensures t.focus <==> fs.focus.Some? && fs.focus.value.mtime > p.lastFocusTime
    ensures t.focus ==> t.markers.focus.None? && t.poller.lastFocusTime == fs.focus.value.mtime
    ensures !t.focus ==> t.markers.focus == fs.focus && t.poller.lastFocusTime == p.lastFocusTime
    ensures t.markers.selection == fs.selection && t.markers.trigger == fs.trigger
    ensures !t.event.NoEvent? <==> fs.selection.Some? && fs.selection.value.mtime > p.lastModTime
    ensures !t.event.NoEvent? ==> t.poller.lastModTime == fs.selection.value.mtime
    ensures t.event.NoEvent? ==> t.poller.lastModTime == p.lastModTime
    ensures t.event.ReadFailed? <==> !t.event.NoEvent? && !readable
    ensures t.event.Selected? ==> t.event.text == fs.selection.value.content && t.event.text != ""
    ensures t.event.EmptySelection? ==> readable && fs.selection.value.content == ""
  {
    var (focusTime, focus, focusFile) :=
      if fs.focus.Some? && fs.focus.value.mtime > p.lastFocusTime
      then (fs.focus.value.mtime, true, None)
      else (p.lastFocusTime, false, fs.focus);
    var (modTime, event) :=
      if fs.selection.Some? && fs.selection.value.mtime > p.lastModTime then
        (fs.selection.value.mtime,
         if !readable then ReadFailed
         else if fs.selection.value.content == "" then EmptySelection
         else Selected(fs.selection.value.content))
      else (p.lastModTime, NoEvent);
    Tick(Poller(modTime, focusTime), fs.(focus := focusFile), focus, event)
  }

  /** The selection half of a tick's effect on the window, and whether it
      asks the window manager to raise the window. */
  datatype TickOutcome = TickOutcome(world: World, focusRequested: bool)

  /** The tick's effect on the window: a selection is put in the input, the
      window raised and the text translated; an empty file only reports.
      (The raise for the focus marker is `t.focus` itself.) */
  function HandleTick(w: World, t: Tick, c: Context): (r: TickOutcome)
    ensures r.focusRequested <==> t.event.Selected?
    ensures t.event.NoEvent? || t.event.ReadFailed? ==> r.world == w
    ensures t.event.EmptySelection? ==> r.world == w.(ui := w.ui.(status := NoTextSelected))
    ensures t.event.Selected? && t.event.text != "" ==>
      r.world.ui.input == t.event.text && r.world.ui.status == TranslationComplete
  {
    match t.event
    case Selected(text) => TickOutcome(PerformTranslation(w.(ui := w.ui.(input := text)), text, c), true)
    case EmptySelection => TickOutcome(w.(ui := w.ui.(status := NoTextSelected)), false)
    case _ => TickOutcome(w, false)
  }

  /** Over one whole tick, the window is asked to come forward exactly
      when a newer focus marker appears or a newer selection file can be
      read and holds text; the second request comes with that text in the
      input. */
  lemma TickRaisesWindow(w: World, p: Poller, fs: Markers.Markers, readable: bool, c: Context)
    ensures var t := PollOnce(p, fs, readable);
      var r := HandleTick(w, t, c);
      (t.focus || r.focusRequested) <==>
        (fs.focus.Some? && fs.focus.value.mtime > p.lastFocusTime) ||
        (fs.selection.Some? && fs.selection.value.mtime > p.lastModTime && readable &&
         fs.selection.value.content != "")
    ensures var r := HandleTick(w, PollOnce(p, fs, readable), c);
      r.focusRequested ==> r.world.ui.input == fs.selection.value.content
  {
  }

  /** What the marker files look like at one tick. */
  datatype Snapshot = Snapshot(markers: Markers.Markers, readable: bool)

  /** The ticks of a run of the poller over successive snapshots. */
  function Run(p: Poller, snaps: seq<Snapshot>): (ticks: seq<Tick>)
    ensures |ticks| == |snaps|
    ensures |snaps| > 0 ==> ticks[0] == PollOnce(p, snaps[0].markers, snaps[0].readable)
    decreases |snaps|
  {
    if |snaps| == 0 then []
    else
      var t := PollOnce(p, snaps[0].markers, snaps[0].readable);
      [t] + Run(t.poller, snaps[1..])
  }

  /** Over any run, the selection changes and focus requests acted on have
      strictly increasing modification times, all later than the poller's
      starting point: a modification is handled at most once, and a marker
      left from before startup is never handled. */
  lemma {:induction false} RunActsOncePerChange(p: Poller, snaps: seq<Snapshot>)
    ensures var ticks := Run(p, snaps);
      (forall i :: 0 <= i < |ticks| ==> ticks[i].poller.lastModTime >= p.lastModTime &&
                                        ticks[i].poller.lastFocusTime >= p.lastFocusTime) &&
      (forall i :: 0 <= i < |ticks| && !ticks[i].event.NoEvent? ==>
         snaps[i].markers.selection.Some? &&
         ticks[i].poller.lastModTime == snaps[i].markers.selection.value.mtime > p.lastModTime) &&
      (forall i :: 0 <= i < |ticks| && ticks[i].focus ==>
         snaps[i].markers.focus.Some? &&
         ticks[i].poller.lastFocusTime == snaps[i].markers.focus.value.mtime > p.lastFocusTime) &&
      (forall i, j :: 0 <= i < j < |ticks| && !ticks[j].event.NoEvent? ==>
         ticks[i].poller.lastModTime < ticks[j].poller.lastModTime) &&
      (forall i, j :: 0 <= i < j < |ticks| && ticks[j].focus ==>
         ticks[i].poller.lastFocusTime < ticks[j].poller.lastFocusTime)
    decreases |snaps|
  {
    if |snaps| > 0 {
      var ticks := Run(p, snaps);
      var t := ticks[0];
      var rest := Run(t.poller, snaps[1..]);
      RunActsOncePerChange(t.poller, snaps[1..]);
      assert ticks == [t] + rest;
      forall i | 0 < i < |ticks|
        ensures ticks[i] == rest[i - 1] && snaps[i] == snaps[1..][i - 1]
      {
      }
    }
  }

  /** Markers written before the window was built are never acted upon,
      however often the poller runs. */
  lemma StartupPollerIgnoresOlderMarkers(startup: nat, snaps: seq<Snapshot>)
    ensures var ticks := Run(StartPoller(startup), snaps);
      (forall i :: 0 <= i < |snaps| && !ticks[i].event.NoEvent? ==>
         snaps[i].markers.selection.Some? && snaps[i].markers.selection.value.mtime > startup) &&
      (forall i :: 0 <= i < |snaps| && ticks[i].focus ==>
         snaps[i].markers.focus.Some? && snaps[i].markers.focus.value.mtime > startup)
  {
    RunActsOncePerChange(StartPoller(startup), snaps);
  }
}
