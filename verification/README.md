# SwiftLingo decision core in Dafny

SwiftLingo is a GTK desktop translator. A global Ctrl+Alt+T hotkey captures the
primary selection, brings the window forward and translates the text with one
of five web services (Google beta, Google official, LibreTranslate, Bing,
DeepL). Translations are kept in a SQLite history that can be grouped into
lists and exported as Anki CSV. Most of the program builds widgets, shells out
to tools, talks to X11 or calls HTTP. Underneath sits a layer of small
sequential decisions, and this project models that layer and proves
properties of it.

Modelling conventions:

- The process environment is a `map<string, string>`.
- A spawned tool's run is an `Option<string>`: `Some(stdout)` when it
  succeeded, `None` when it failed.
- Time is a `nat` of milliseconds.
- A marker file (`hotkey-trigger`, `focus-window`, `selection.txt`) is an
  `Option<Marker(mtime, content)>`.
- The HTTP client is a function from a request to a reply. The JSON bodies
  are an abstract `Json` datatype.
- SQLite is three sequences of rows: translations, lists and list entries.
  Foreign keys are off, as in rusqlite's default connection, so the cascading
  deletes are the explicit ones in the code.
- Rowids are one more than the largest id in use.
- `ORDER BY` is byte-wise string order, and a negative `LIMIT` means no limit.
- `LIKE` is SQLite's pattern match with ASCII case folding.
- Every loop iteration (the Wayland trigger poll, the X11 key-press loop, the
  100 ms UI poller) is a pure step function over the state it carries.

Modules follow the source files:

- `Hotkey`: `src/hotkey.rs`.
- `Selection`: `src/selection.rs`.
- `WindowManager`: `src/window_manager.rs`.
- `Database`: `src/database.rs`.
- `Anki`: the CSV export and a parser for it.
- `Translation`: `src/translation.rs`.
- `Settings`: `src/settings.rs`.
- `SettingsUi`: `src/settings_ui.rs`.
- `App`: `src/main.rs`.
- `HistoryUi`: `src/history_ui.rs`.
- Helpers:
  - `Wrappers`: Option and Result.
  - `Text`: ASCII case mapping, substring search and character replacement.
  - `Environment`.
  - `Markers`.
  - `Query`: string order, stable sorting, filtering and `LIMIT`.
  - `Like`: SQLite `LIKE`.
  - `Json`.
  - `IntText`: Rust's `parse::<i64>`, `parse::<u32>` and integer printing.
  - `Detection`: lemmas comparing the three display-server detectors.

## Model

| member | source | states |
|---|---|---|
| Hotkey.HotkeyDisplayServer | src/hotkey.rs:32-37 | The hotkey service is Wayland iff XDG_SESSION_TYPE lowercases to "wayland" or WAYLAND_DISPLAY is set. Otherwise it is X11 and never unknown. |
| Hotkey.DetectShell | src/hotkey.rs:47-58 | The registrar is GNOME iff the lowercased XDG_CURRENT_DESKTOP contains "gnome". It is KDE iff it contains "kde" but not "gnome". It is generic otherwise. The three cases are exclusive and exhaustive. |
| Hotkey.Register | src/hotkey.rs:219-312 | Every registrar writes the trigger script at the same path and makes it executable first. Only the generic registrar runs no desktop command, and only it prints manual instructions. |
| Hotkey.RegistrarsWriteSameScript | src/hotkey.rs:224-227 | For every pair of desktop shells, the registrars write the same script to the same path. That script contains "touch <trigger path>". |
| Hotkey.StartService | src/hotkey.rs:21-104 | X11 starts the key-grab monitor. Wayland registers the shortcut for the detected shell and polls the trigger file. Both use `$HOME/.config/translator-app/hotkey-trigger`. |
| Hotkey.Debounce | src/hotkey.rs:392-397 | A trigger is accepted iff at least 1000 ms passed since the stored time. Acceptance stores `now`; rejection keeps the stored time. |
| Hotkey.AcceptedTriggersSpaced | src/hotkey.rs:392-397 | For a chronological run of triggers, any two accepted triggers are at least 1000 ms apart. Every accepted trigger is at least 1000 ms after the starting time. |
| Hotkey.AcceptedTriggersOffered | src/hotkey.rs:75-82 | Only offered trigger times are ever accepted, and never more of them than were offered. |
| Hotkey.DebounceScenario | src/hotkey.rs:14-82 | Starting from the initial value 0, triggers at t, t+500 and t+1100 accept exactly t and t+1100. |
| Hotkey.GrabSetIsMatchSet | src/hotkey.rs:351-383 | For states made only of Control, Mod1, Lock and Mod2 bits, a press of the hotkey matches iff its state is in the four-mask grab set. Every grabbed mask matches. A set Shift bit never matches. |
| Hotkey.ShiftedPressDoesNotMatch | src/hotkey.rs:380-383 | Shift+Ctrl+Alt+T does not match, even with Lock and Num Lock. Ctrl+Alt+T with Num Lock does match. |
| Hotkey.X11MonitorGrabs | src/hotkey.rs:315-371 | The monitor grabs the hotkey under the four masks iff the display opened and the first grab was accepted. |
| Hotkey.FocusTranslatorWindow | src/hotkey.rs:107-202 | The focus-window marker is written iff no SwiftLingo window was found or the session is Wayland. Otherwise xdotool raises the window iff the second search finds it. |
| Hotkey.WaylandFocusIsMarker | src/hotkey.rs:130-149 | On Wayland, focusing always means writing the focus-window marker with the current time. |
| Hotkey.WaylandPollStep | src/hotkey.rs:62-99 | Without a trigger marker nothing happens. Any present marker is removed. A rejected trigger does nothing else. An accepted one stores the time and requests focus with the outcome of `focus_translator_window`. On Wayland that outcome is always the focus marker, written at the current time. It writes selection.txt iff the captured text is non-empty. |
| Hotkey.WaylandPollWritesFailureText | src/hotkey.rs:87-97 | When every selection tool fails, an accepted Wayland trigger writes the failure text into selection.txt. |
| Hotkey.X11PressStep | src/hotkey.rs:378-418 | A non-matching or debounced press changes nothing. An accepted press stores the time, creates the trigger file and captures the selection. It writes selection.txt and requests focus only for non-empty text. |
| Hotkey.StepsFollowDebounce | src/hotkey.rs:392-397 | The stored trigger time after either loop's step is exactly the debounce decision's time. |
| Selection.DetectDisplayServer | src/selection.rs:11-31 | A set XDG_SESSION_TYPE decides alone: Wayland iff it lowercases to "wayland", else X11. Only when it is unset does WAYLAND_DISPLAY give Wayland, then DISPLAY give X11, else Unknown. |
| Selection.X11Selection | src/selection.rs:50-70 | A successful xclip run wins even with empty output. xsel is used only when xclip fails. "Failed to get X11 selection" comes back when both fail. |
| Selection.WaylandSelection | src/selection.rs:73-94 | `wl-paste --primary` wins, then xclip without WAYLAND_DISPLAY. "Failed to get Wayland selection" comes back when both fail. |
| Selection.GetSelectedText | src/selection.rs:34-47 | A failed chain yields one of the three failure texts. Otherwise the result is some tool's output. An unknown display server always yields "Could not detect display server". |
| Selection.FailureIsNeverEmpty | src/selection.rs:42-94 | When every mechanism fails, the result is a non-empty failure literal. |
| Selection.EmptyMeansToolSucceeded | src/selection.rs:34-94 | An empty result only ever comes from a tool that succeeded with empty output. |
| Selection.UnknownIgnoresTools | src/selection.rs:42-46 | With no display server detected, the tool outcomes do not matter. |
| WindowManager.DetectWayland | src/window_manager.rs:122-133 | Wayland iff the session type lowercases to "wayland", WAYLAND_DISPLAY is set, or GDK_BACKEND lowercases to "wayland". |
| WindowManager.New | src/window_manager.rs:43-62 | An X11 connection is kept only off Wayland, and a failed setup leaves none without failing. The focus monitor runs iff on Wayland. |
| WindowManager.SetWindowState | src/window_manager.rs:168-196 | A property change is sent iff there is a connection and a flag is set. It replaces _NET_WM_STATE with format 32 and type ATOM. Its data is the sticky atom if requested, then the above atom if requested, and its count equals the data's length. |
| WindowManager.WindowStatePayloadWellFormed | src/window_manager.rs:168-196 | For distinct atoms, the payload holds one or two state atoms. Each atom is present iff its flag was requested. |
| WindowManager.SetupWindow | src/window_manager.rs:141-165 | On X11 with a connection and a native window, the window is made sticky and above, in that order. Otherwise nothing is sent. |
| WindowManager.FocusX11Window | src/window_manager.rs:222-239 | With a connection, a _NET_ACTIVE_WINDOW client message with format 32 and data [1, CurrentTime, 0, 0, 0] is sent to the client window itself. |
| WindowManager.ActiveWindowMessageMissesRoot | src/window_manager.rs:222-239 | The message goes to the client window and never reaches the root window. |
| WindowManager.FocusX11WindowViaRoot | src/window_manager.rs:222-239 | The corrected message goes to the root window with the substructure redirect and notify masks. Its window, type and data are unchanged. |
| WindowManager.ViaRootDiffersOnlyInDestination | src/window_manager.rs:222-239 | The corrected message equals the original one with only the destination replaced by the root window. |
| WindowManager.FocusWindow | src/window_manager.rs:199-219 | The window is always shown and then unminimized. Wayland presents it with a timestamp. X11 presents it and then sends the active-window message iff it has a connection and a native window. No other call is a message. |
| WindowManager.WaylandFocusSendsNoMessage | src/window_manager.rs:205-207 | Focusing on Wayland sends no X11 message. |
| WindowManager.CreateFocusScript | src/window_manager.rs:243-273 | No script on Wayland. Off Wayland, a successful write yields `~/.config/translator-app/focus.sh` with the content "#!/bin/sh\n<exe> --focus\n". |
| WindowManager.FocusMonitorStep | src/window_manager.rs:108-114 | A present focus-window marker is removed, and no other marker changes. |
| WindowManager.CheckClipboardTools | src/window_manager.rs:281-283 | The check always succeeds. |
| Detection.DetectorsDisagreeOnX11SessionWithWaylandDisplay | src/selection.rs:11-31 | With XDG_SESSION_TYPE=x11 and WAYLAND_DISPLAY set, the selection detector says X11 while the hotkey and window-manager detectors say Wayland. |
| Detection.OnlyWindowManagerReadsGdkBackend | src/window_manager.rs:122-133 | With DISPLAY and GDK_BACKEND=wayland, only the window manager believes it is on Wayland. |
| Detection.EmptyEnvironment | src/hotkey.rs:32-37 | With an empty environment, selection says Unknown, the hotkey says X11 and the window manager says not Wayland. |
| Detection.SelectionWaylandImpliesOthers | src/selection.rs:11-31 | Whenever the selection detector says Wayland, so do the other two. |
| Detection.HotkeyWaylandImpliesWindowManagerWayland | src/hotkey.rs:32-37 | Whenever the hotkey detector says Wayland, so does the window manager's. |
| Detection.WaylandSessionAgreement | src/window_manager.rs:122-133 | A session type of "wayland" makes all three detectors agree on Wayland. |
| Database.NextRowId | src/database.rs:115-126 | A new rowid exceeds every id in use. It is 1 in an empty table, and otherwise one more than an existing id. |
| Database.EmptyStoreValid | src/database.rs:69-106 | The freshly created schema holds no duplicate ids and no duplicate list entries. |
| Database.AddTranslation | src/database.rs:115-126 | Exactly one row is appended, with a fresh id and the given texts, languages and time. Nothing else changes, and validity is kept. |
| Database.CreateList | src/database.rs:157-166 | Exactly one list is appended under a fresh id. Nothing else changes, and validity is kept. |
| Database.FindEntry | src/database.rs:193-207 | Finds the first entry linking the pair, or reports that none does. |
| Database.AddToList | src/database.rs:191-217 | An existing link returns its entry's id and leaves the store unchanged. Otherwise exactly one entry is added under a fresh id. Afterwards the pair is linked, and validity is kept. |
| Database.AddToListIdempotent | src/database.rs:191-217 | Adding the same pair twice gives the same store and id as adding it once. |
| Database.AddToListLinksOnce | src/database.rs:191-217 | In a valid store, a pair is linked by exactly one entry after `add_to_list`. |
| Database.PairwiseDistinctCountsAtMostOne | src/database.rs:95-103 | In an entry table without duplicate pairs, a pair is linked at most once, and exactly once iff it is linked at all. |
| Database.RenameList | src/database.rs:250-257 | The list with the id gets the new name, and only its name changes. Ids, creation times, other lists, translations and entries are unchanged. |
| Database.ListNameExists | src/database.rs:260-268 | True iff some list has exactly this name. |
| Database.NameCountPositive | src/database.rs:260-268 | A name is counted a positive number of times iff some list carries it. |
| Database.RenamedNameExists | src/database.rs:250-268 | After renaming an existing list, the list with that id carries the new name, so `list_name_exists` finds it. |
| Database.DeleteList | src/database.rs:271-285 | The list row and every entry of that list go. All other lists, entries and translations stay. |
| Database.RemoveFromList | src/database.rs:289-296 | Exactly the entries linking both ids go, and afterwards the pair is unlinked. |
| Database.DeleteTranslation | src/database.rs:299-313 | The translation row and every entry referencing it go. Lists stay. |
| Database.GetTranslations | src/database.rs:129-154 | The `limit` newest stored rows (all rows for a negative limit or one covering the table), newest first. Every row left out is no newer than every row returned. With no limit the result is a permutation of the table. |
| Database.GetLists | src/database.rs:169-188 | A permutation of the lists, ordered by name. |
| Database.Join | src/database.rs:222-226 | Exactly the translations that have an entry for the list. |
| Database.JoinHasDistinctIds | src/database.rs:222-226 | Over a table with distinct ids and entries that never repeat a (list, translation) pair, the join has no two rows with the same id. |
| Database.DistinctIdsOccurOnce | src/database.rs:72-80 | Rows with pairwise distinct ids each occur at most once. |
| Database.GetListTranslations | src/database.rs:220-246 | Exactly the translations linked to the list, newest first. In a consistent store no row is shown twice. |
| Database.SearchTranslations | src/database.rs:316-343 | The stored rows whose source or target text matches `%query%`, each as often as it is stored, and no others, newest first. |
| Database.SearchIsSubstringMatch | src/database.rs:316-343 | For a query without '%' or '_', a row is found iff the lowercased query occurs in its lowercased source or target text. |
| Database.GetTranslationById | src/database.rs:368-387 | A stored row with that id, or none iff no row has it. |
| Database.GetTranslationByIdUnique | src/database.rs:368-387 | In a valid store, looking up a stored row's id returns that row. |
| Database.AddedTranslationFound | src/database.rs:368-387 | A newly added translation is found by the id `add_translation` returned. |
| Database.DeletedTranslationLeavesLists | src/database.rs:299-313 | A deleted translation appears in no list. |
| Database.DeletedListIsEmpty | src/database.rs:271-285 | A deleted list has no translations. |
| Query.SortBy | src/database.rs:129-246 | The result is sorted by the key in the requested direction and is a permutation of the input. |
| Query.Insert | src/database.rs:133 | Inserting into a sorted sequence keeps it sorted and adds exactly the element. |
| Query.Filter | src/database.rs:222-226 | The elements satisfying the condition, each as often as in the input, and no others. |
| Query.AppendPairwise | src/database.rs:222-226 | Two runs whose pairs are related, with every cross pair related, join into one whose pairs are all related. |
| Query.Limit | src/database.rs:130-135 | A negative limit keeps everything. Otherwise the result is the first `min(n, length)` rows. |
| Query.FilterPairwise | src/database.rs:95-103 | A relation holding between every ordered pair still holds after filtering. |
| Query.LexLeTotal | src/database.rs:171 | The string order is total. |
| Query.LexLeTransitive | src/database.rs:171 | The string order is transitive. |
| Query.LexLeAntisymmetric | src/database.rs:171 | The string order is antisymmetric. |
| Like.PercentMatchesAll | src/database.rs:316-343 | The pattern "%" matches every text. |
| Like.LiteralPrefix | src/database.rs:316-343 | A pattern starting with wildcard-free text matches iff that text case-insensitively begins the subject and the rest matches the remainder. |
| Like.PercentPrefix | src/database.rs:316-343 | A leading '%' matches iff the rest matches some suffix. |
| Like.SubstringSearch | src/database.rs:316-343 | `%q%` with a wildcard-free q matches iff lowercased q occurs in the lowercased text. |
| Like.UnderscoreIsWildcard | src/database.rs:316-343 | A '_' in the query matches any character, so "a_c" finds "abc" although "abc" does not contain "a_c". |
| Text.ReplaceChar | src/database.rs:354-355 | Each occurrence of the character is replaced and every other character kept. |
| Text.ReplaceCharRemoves | src/database.rs:354-355 | After the replacement the replaced character is gone. |
| Anki.Sanitize | src/database.rs:354-355 | Same length, no ';' and no newline, and every other character kept in place. |
| Anki.SanitizeKeepsCleanText | src/database.rs:354-355 | Text without ';' or a newline is exported unchanged. |
| Anki.ExportCsv | src/database.rs:346-364 | The export begins with the header "source;target;source_lang;target_lang\n". |
| Anki.ExportListForAnki | src/database.rs:346-364 | The list export begins with the header. |
| Anki.LineFields | src/database.rs:353-360 | A translation's line contains no newline and parses back into its four fields. This assumes language codes without ';' or a newline. |
| Anki.LinesSplit | src/database.rs:353-360 | Splitting the body at newlines gives one line per translation, in order. |
| Anki.RowsParse | src/database.rs:353-360 | The lines parse back into the cards of the translations, in order. |
| Anki.ExportRoundTrip | src/database.rs:346-364 | Parsing an export gives back exactly the exported cards, with sanitized texts and verbatim language codes. |
| Anki.ExportListCards | src/database.rs:346-364 | The cards parsed from a list export are exactly those of the translations in the list. |
| Anki.SplitOnAfterPart | src/database.rs:353-360 | Splitting a separator-free part followed by the separator yields that part first. |
| Translation.ConfigNameRoundTrip | src/translation.rs:33-41 | Reading back a service's settings key gives that service, and a recognised key is that service's own. |
| Translation.ConfigNameInjective | src/translation.rs:33-41 | Distinct services have distinct settings keys. |
| Translation.AllServices | src/translation.rs:44-52 | All five services, each at its declaration position, and every service is present. |
| Translation.AllServicesDistinct | src/translation.rs:44-52 | No service is listed twice. |
| Translation.NewManager | src/translation.rs:91-116 | GoogleBeta is active. Every service has a configuration with no key and a 5-second timeout, and only LibreTranslate has an endpoint. |
| Translation.GetConfig | src/translation.rs:136-140 | The stored configuration, or the default with no key, no endpoint and 5 seconds. |
| Translation.UpdateConfig | src/translation.rs:131-133 | Afterwards the service reads back the new configuration. Every other service and the active one are unchanged. |
| Translation.FreshManagerHasNoKeys | src/translation.rs:91-121 | A freshly created manager has no API key for any service, whichever service is made active. |
| Translation.MissingSettingMessage | src/translation.rs:258-402 | The missing-setting error is a non-empty service message that starts with neither "E" nor "T". It is therefore distinguishable from transport and format errors. |
| Translation.DeepLUrl | src/translation.rs:405-410 | DeepL uses the free endpoint iff the key ends with ":fx", and the pro endpoint otherwise. |
| Translation.DeepLSourceCode | src/translation.rs:413-421 | "auto" stays "auto" and "zh-CN" becomes "ZH". Every other code is uppercased, so "en" gives "EN" and "ja" gives "JA". No code except "auto" keeps a lowercase letter. |
| Translation.DeepLTargetCode | src/translation.rs:422-428 | "en" becomes "EN-US", "pt" becomes "PT-BR" and "zh-CN" becomes "ZH". Every other code is uppercased. No target code contains a lowercase letter. |
| Translation.DeepLForm | src/translation.rs:430-439 | The form carries the text and the mapped target code. It has a source_lang parameter iff the source is not "auto", and that parameter holds the mapped source code. |
| Translation.LibreBody | src/translation.rs:305-315 | The JSON body carries the text as "q" and an "api_key" iff a key is configured. |
| Translation.BingHeaders | src/translation.rs:350-358 | The key is sent as the subscription key. A region header is present iff a region is configured. |
| Translation.BuildRequest | src/translation.rs:214-439 | A request is refused iff the service lacks its required setting, and then with that service's message. Built requests carry the text. Google beta's timeout defaults to 10 s. LibreTranslate posts JSON to its endpoint. Bing's region header and DeepL's endpoint and source_lang follow the configuration. |
| Translation.ProcessReply | src/translation.rs:202-211 | A received reply is accepted as JSON. A connection failure becomes an error starting with "Error: ". |
| Translation.SegmentTextAppend | src/translation.rs:244-254 | The concatenated text of two segment runs is the concatenation of their texts. |
| Translation.SegmentTextSingle | src/translation.rs:244-254 | A segment contributes its first element if that is a string, and nothing otherwise. |
| Translation.DecodeReply | src/translation.rs:244-254 | Decoding fails only with "Translation error: Unexpected response format". Google beta succeeds iff the top element is an array. |
| Translation.DecodeCanonicalReply | src/translation.rs:244-464 | Each service's decoder reads back the text of a well-formed reply of that service. |
| Translation.CallService | src/translation.rs:149-170 | A keyed service fails with its missing-setting message iff the setting is missing. |
| Translation.MissingSettingIgnoresNetwork | src/translation.rs:260-263 | A missing setting is reported without any network traffic. |
| Translation.Translate | src/translation.rs:149-170 | Empty text gives Ok("Please enter text to translate") for every service. Otherwise the active service reports its missing-setting error iff its setting is missing. |
| Translation.TranslateWithFallback | src/translation.rs:173-197 | A primary success is returned unchanged. A primary failure with Google beta active is returned unchanged. Any other failure is replaced by Google beta's result. |
| Translation.FallbackCoversMissingSetting | src/translation.rs:173-197 | An unconfigured active service always ends in Google beta's result. |
| Settings.DefaultServiceConfigs | src/settings.rs:33-80 | Exactly the five settings keys, all with no key and a 5-second timeout. Only LibreTranslate has an endpoint. |
| Settings.DefaultSettings | src/settings.rs:32-96 | Light theme, "auto" to "en", 800×500 with no position, not minimised, Google beta, 100 entries, auto-save, and the default service table. |
| Settings.DefaultsAgreeWithManager | src/settings.rs:33-80 | The default settings table and a fresh translation manager hold the same configuration for every service. |
| Settings.GetServiceConfig | src/settings.rs:163-173 | The entry stored under the service's settings key, if any. |
| Settings.UpdateServiceConfig | src/settings.rs:158-160 | Only the named key changes, and every other field is untouched. |
| Settings.UpdateThenGet | src/settings.rs:158-173 | A service reads back the configuration just stored for it. Other services read what they read before. |
| Settings.UpdateWindowGeometry | src/settings.rs:176-182 | The position becomes Some(x), Some(y) and the size is set. Every other field is unchanged. |
| Settings.LastGeometryWins | src/settings.rs:176-182 | Two geometry updates equal the last one alone. |
| Settings.Save | src/settings.rs:125-148 | Saving succeeds iff the text is fully written, and then the file holds the settings. If the directory or the file cannot be created, the file is left as it was. If writing fails after the file was created, the truncated file no longer parses. |
| Settings.LoadAfterSave | src/settings.rs:101-148 | The next load returns the saved settings after a complete write, the old file's settings when the file could not be created, and the defaults after a failed write. |
| Settings.Load | src/settings.rs:101-122 | Parsed settings are returned as stored. An unusable file yields the defaults, which are written back. |
| SettingsUi.Respond | src/settings_ui.rs:319-328 | OK and Apply save, and OK and Cancel hide. |
| SettingsUi.EntryConfig | src/settings_ui.rs:380-387 | An empty key or endpoint entry becomes none, a non-empty one is kept, and the timeout is always 5 seconds. |
| SettingsUi.SavedConfigs | src/settings_ui.rs:371-390 | Keys of services without an entry are untouched. The last entry for each service decides that service's stored configuration. |
| SettingsUi.SaveServiceConfigs | src/settings_ui.rs:371-390 | The saving loop computes the same table as the entry-by-entry definition. |
| SettingsUi.SaveSettings | src/settings_ui.rs:354-399 | Dark mode is taken from the switch, and the theme is reapplied iff it changed. A default language is replaced only when a language is selected. The service table is rewritten from the entries. The active service, the start-minimised flag and all other fields stay. |
| SettingsUi.UneditedSaveNormalises | src/settings_ui.rs:371-390 | Saving the dialog as it opened keeps each service's key and endpoint, with an empty one becoming none, and resets each timeout to 5 seconds. |
| App.StartupManagerAsWritten | src/main.rs:164-168 | The manager built at startup has the stored active service but a fresh manager's configurations. |
| App.StoredKeyIgnoredAsWritten | src/main.rs:164-168 | With a keyed service active, translation always fails with the missing-key error, whatever the settings store. |
| App.KeyedServiceAlwaysFallsBackAsWritten | src/main.rs:164-168 | With a keyed service active, every translation is Google beta's result, or the missing-key error when that fails too. |
| App.StartupManager | src/main.rs:164-168 | The corrected manager has the stored active service and each service's stored configuration, with the fresh default where none is stored. |
| App.StoredKeyUsed | src/main.rs:164-168 | With the corrected manager, a stored key means the missing-key error is not returned. |
| App.TranslateText | src/main.rs:57-78 | Empty text gives "Please enter some text to translate". A primary success gives its text. After a primary failure, the fallback's text is used, or "Translation error: " plus the first error when the fallback also fails. |
| App.MissingSettingFallsBackToGoogle | src/main.rs:57-78 | An unconfigured non-Google service shows Google beta's translation, or the prefixed missing-setting error. |
| App.BeginTranslation | src/main.rs:87-102 | Empty text only sets "No text to translate". Otherwise "auto" and "es" fill missing languages, and the output and status show "Translating...". |
| App.CompleteTranslation | src/main.rs:114-140 | The result is shown with "Translation complete" and recorded as exactly one history row. Validity is kept. |
| App.PerformTranslation | src/main.rs:81-142 | Empty text only sets the status. Otherwise the translated text is shown and one history row is added. |
| App.ShownTranslationIsRecorded | src/main.rs:81-142 | The text shown in the output is the target text of the newest history row, which is found by its id. |
| App.TranslateClicked | src/main.rs:487-500 | The input is translated unchanged. Empty input only sets "No text to translate". |
| App.GetSelectionClicked | src/main.rs:502-515 | The button translates iff the text is non-empty and not one of the two tool-failure texts. Otherwise it only sets "No text selected". |
| App.ButtonTranslatesToolOutputOrUnknownText | src/main.rs:509 | Text the button accepts is tool output or the unknown-display-server text. |
| App.UnknownServerTextAccepted | src/main.rs:509 | "Could not detect display server" passes the button's check. |
| App.InAppHotkeyIgnoresExtraModifiers | src/main.rs:460-462 | The in-app hotkey still matches with any extra modifier held. |
| App.InAppHotkeyNeedsBoth | src/main.rs:460-462 | Both Control and Alt are needed, and a capital T does not match. |
| App.KeyPressed | src/main.rs:457-484 | The key is handled iff it is the in-app hotkey. Non-empty text is focused and translated. Empty text only sets "No text selected". Other keys change nothing. |
| App.ShortcutTranslatesFailureText | src/main.rs:468-477 | The shortcut translates a tool-failure text that the button would refuse. |
| App.SaveAndCopyGuards | src/main.rs:552-698 | Whatever can be saved can be copied. Nothing can be saved or copied while a translation is in flight. |
| App.CopyClicked | src/main.rs:681-706 | The output is copied iff it is neither empty nor "Translating...". Only the status changes. |
| App.SaveClicked | src/main.rs:526-566 | Saving is refused iff the input or the output is empty or the output is "Translating...". A failed insert shows "Failed to save translation" and opens no popover. Otherwise the pair is recorded again as a new history row. |
| App.ListComboIdIsNotNew | src/main.rs:583-590 | No list's combo id collides with the "new" entry. |
| App.SaveToList | src/main.rs:644-672 | No choice shows "Please select a list". "new" with no name shows "Please enter a list name". "new" with a name creates that list and links the translation, or shows "Failed to create list" and still closes when creation fails. A numeric id links the translation to that list. |
| App.ChosenListReceivesTranslation | src/main.rs:644-672 | Choosing an existing list in the popover links the translation to it. |
| App.PollOnce | src/main.rs:721-765 | A focus marker newer than the last is consumed and raises the window. A selection file newer than the last is read once, never removed, and its time remembered even when the read fails. |
| App.HandleTick | src/main.rs:745-757 | Non-empty selection text is put in the input, the window is asked to come forward, and the text is translated. Empty text only sets "No text selected", and a failed read does nothing. |
| App.TickRaisesWindow | src/main.rs:722-757 | Over one tick the window is asked to come forward iff a newer focus marker appears or a newer, readable selection file holds text. |
| App.RunActsOncePerChange | src/main.rs:718-761 | Over any run of ticks, each acted-on marker time is the file's own time, later than the starting time, and strictly later than every earlier acted-on time. So each change is handled at most once. |
| App.StartupPollerIgnoresOlderMarkers | src/main.rs:718-719 | Files modified before startup are never acted on. |
| IntText.ParseI64 | src/history_ui.rs:182 | Text parses iff, after one optional sign, it is a non-empty run of digits whose signed value lies in the i64 range. The result is that signed value. |
| IntText.ParseU32 | src/history_ui.rs:359 | Text parses iff, after one optional '+', it is a non-empty run of digits whose value fits in u32. The result is that value, and a leading '-' never parses. |
| IntText.ShowNat | src/history_ui.rs:263 | Printing gives a non-empty string of digits with no leading zero, whose value is the number. |
| IntText.ParseShowI64 | src/history_ui.rs:182-263 | Every i64 value parses back from its printed form. |
| IntText.NonNumbersRejected | src/history_ui.rs:182 | "", "-", "x1" and "-1" (as u32) are rejected. |
| HistoryUi.DefaultRowKeyIsZero | src/history_ui.rs:358-360 | An unnamed row's widget name does not parse, so its key is 0. |
| HistoryUi.ShowRows | src/history_ui.rs:346-412 | The shown rows are the given translations. All of them are filed under key 0, which keeps only the last one's id. |
| HistoryUi.SelectedIdAsWritten | src/history_ui.rs:534-540 | A selected row is resolved through key 0 whichever row it is. |
| HistoryUi.SelectionIgnoresRowAsWritten | src/history_ui.rs:358-360 | After any list is shown, every row resolves to the last row's translation. |
| HistoryUi.SelectedId | src/history_ui.rs:534-540 | The corrected lookup resolves a row to a translation that is shown. |
| HistoryUi.SelectingFirstOfTwoRows | src/history_ui.rs:358-360 | Selecting the first of two rows gives the first row's translation under the correction, and the second's as written. |
| HistoryUi.ListEntries | src/history_ui.rs:260-265 | One selector entry per list, keyed by the printed id and captioned by the name. |
| HistoryUi.LoadLists | src/history_ui.rs:251-272 | The entries are "All Translations", the lists in name order, then "Create New List...". Activating the first entry leaves any viewed list and shows the newest 100 translations. |
| HistoryUi.LoadListsSelectsFirstEntry | src/history_ui.rs:177-272 | The reloaded panel is exactly what the selector handler makes of it for the first entry. |
| HistoryUi.Dispatch | src/history_ui.rs:177-196 | "CREATE_NEW_LIST" opens the create dialog. An id parsing as i64 selects that list. Anything else, or no id, shows all translations. |
| HistoryUi.LoadedEntriesDispatch | src/history_ui.rs:177-272 | The first loaded entry shows everything, the last opens the create dialog, and each one between selects its own list. |
| HistoryUi.Select | src/history_ui.rs:177-196 | Selecting a list shows exactly its translations. Selecting "all" shows the newest 100. The create entry changes nothing. |
| HistoryUi.Refresh | src/history_ui.rs:274-320 | A selected list shows exactly its translations, as `get_list_translations` returns them. Otherwise the newest 100 rows `get_translations` returns are shown, and all rows when there are no more than 100. |
| HistoryUi.RefreshAgreesWithSelect | src/history_ui.rs:274-320 | Refreshing shows the same rows as choosing the viewed selector entry again. |
| HistoryUi.Search | src/history_ui.rs:322-344 | An empty query restores the current view. Any other query shows the search result. |
| HistoryUi.SearchShowsMatches | src/history_ui.rs:322-344 | A wildcard-free query shows exactly the rows containing it, ignoring ASCII case. |
| HistoryUi.EmptySearchRestoresList | src/history_ui.rs:328-336 | Clearing the search while a list is selected shows exactly that list. |
| HistoryUi.CreateListResponse | src/history_ui.rs:462-528 | Cancel closes. An empty name, a lookup failure or an existing name each show their error and keep the dialog open. A fresh name closes the dialog without an error. It creates one list exactly when `create_list` succeeds, and the new list is reloaded into the selector and selected. A failed `create_list` leaves everything unchanged. |
| HistoryUi.CreatedListIsOffered | src/history_ui.rs:498-506 | After a successful create the name exists in the store and in the selector, so creating it again is refused as a duplicate. |
| HistoryUi.CreateKeepsNamesUnique | src/history_ui.rs:464-507 | The create dialog never produces two lists with the same name. |
| HistoryUi.PopoverAllowsDuplicateNames | src/main.rs:644-660 | The save popover's new-list path creates a duplicate name that the history dialog would refuse. |
| HistoryUi.CachedName | src/history_ui.rs:675-681 | The name of a loaded list with that id, or none iff no loaded list has it. |
| HistoryUi.ExportFileName | src/history_ui.rs:675-682 | The list name with spaces turned into underscores, plus ".csv". It falls back to "translations". |
| HistoryUi.ExportFileNameExamples | src/history_ui.rs:675-682 | "My words" gives "My_words.csv", and an unloaded id gives "translations.csv". |
| HistoryUi.ExportSelectedList | src/history_ui.rs:666-814 | No selected list refuses the export. A database error becomes "Error exporting data: ...". Otherwise the list's CSV is offered under the derived file name. |
| HistoryUi.ExportedFileHoldsTheList | src/history_ui.rs:666-814 | The exported file parses back into exactly the cards of the selected list. |
| HistoryUi.DeleteCurrentList | src/history_ui.rs:831-928 | Without a selected list the deletion is refused. Otherwise the user is asked about the cached name or "Unknown List". A confirmed, successful deletion removes the list and its entries, reloads the selector without it and shows the newest 100. |
| HistoryUi.UncachedListIsUnknown | src/history_ui.rs:835-841 | A list missing from the cache is asked about as "Unknown List". |
| HistoryUi.DeleteSelectedAsWritten | src/history_ui.rs:631-664 | The translation found under key 0 is deleted, the selected row is removed and key 0 is forgotten. A failed deletion changes nothing. |
| HistoryUi.DeleteFirstRowDeletesLastAsWritten | src/history_ui.rs:631-664 | Deleting the first row removes it from view, deletes the last row's translation and keeps the first's. |
| HistoryUi.DeleteSelected | src/history_ui.rs:631-664 | The corrected deletion removes exactly the selected row's translation and its list entries, and that row from the view, keeping the others in order. A failure changes nothing and reports the error. |
| HistoryUi.FindById | src/history_ui.rs:538-539 | The row with the id among the given rows, or none iff there is none. |
| HistoryUi.ReuseTranslation | src/history_ui.rs:538-546 | A translation outside the newest 100 changes nothing. Otherwise its stored texts are restored, and each language only when the combo offers it. |
| HistoryUi.ReuseRestoresTranslation | src/history_ui.rs:538-546 | Reusing a translation among the newest 100 restores its source and target text. |
| HistoryUi.ReuseSelectedAsWritten | src/history_ui.rs:534-550 | Reuse acts on the translation under key 0, and does nothing when the map has no key 0. |
| HistoryUi.ReuseFirstRowRestoresLastAsWritten | src/history_ui.rs:534-550 | Reusing the first of the shown rows restores the last row's texts. |
| HistoryUi.ReuseSelected | src/history_ui.rs:534-550 | The corrected reuse acts on the selected row's own translation. |
| HistoryUi.ReuseRestoresRow | src/history_ui.rs:534-550 | With the corrected lookup, reusing a row among the newest 100 restores its source and target text. |
| HistoryUi.AddToChosenList | src/history_ui.rs:608-623 | A chosen numeric list id links the translation to that list. The view is refreshed only when that list is shown. No choice, or an id that does not parse, changes nothing. |
| HistoryUi.AddSelectedToListAsWritten | src/history_ui.rs:552-629 | Adding acts on the translation under key 0, and nothing happens when the map has no key 0. |
| HistoryUi.AddFirstRowLinksLastAsWritten | src/history_ui.rs:552-629 | Adding the first of the shown rows to a list links the last row's translation to it. |
| HistoryUi.AddSelectedToList | src/history_ui.rs:552-629 | The corrected handler links the selected row's own translation to the chosen list. |
| HistoryUi.AddedRowAppearsInViewedList | src/history_ui.rs:552-629 | With the corrected handler, adding a row to the list on screen makes it appear there. |

## Left out

- GTK widgets are left out: construction, layout, dialogs, popovers, CSS and `apply_theme`, the file chooser and its overwrite confirmation, status bar history, and all of `src/ui_helpers.rs`. Widgets are reduced to the values they hold. The results of dialogs are parameters.
- The X11 calls themselves are left out: `XOpenDisplay`, `XGrabKey`, `XNextEvent`, atom interning in `setup_x11`, and `send_event`. Only the masks and message payloads are modelled. Whether the display opened and the grab succeeded are parameters.
- Spawned processes (xclip, xsel, wl-paste, xdotool, wmctrl, gsettings, kwriteconfig5, kquitapp5, chmod, xdg-open) are left out. Their outcomes are parameters, and the registrars' command lines are data.
- HTTP via reqwest, status checks and serde_json parsing are left out. A reply is abstract (received JSON or a connection error), and JSON is a datatype.
- The SQLite engine is left out, and so are SQL text and connection cloning. A database failure is a parameter where the code reports it. Failures whose result the code discards (`let _ = db.add_to_list(..)`, the history insert after a translation) are not modelled. `LIKE` folds ASCII case only, which is SQLite's default.
- Threads, sleeps and the atomic's memory ordering are left out. Each loop iteration is one sequential step.
- Filesystem I/O, `SystemTime` and `chrono` clocks, and RFC 3339 formatting are left out. Times are numbers or opaque timestamp strings passed in.
- Hotkey.Debounce: requires `last <= now`, so a wall clock that goes backwards is not modelled. In that case the u64 subtraction `now - last` panics in a debug build and wraps to a large value in a release build, which accepts the trigger. The source fixes no build profile, so neither outcome is stated.
- Text.ToLower: maps ASCII letters only. Rust's `to_lowercase` and `to_uppercase` also map non-ASCII letters, which matters only for non-ASCII desktop names, session types and language codes.
- Anki.ExportCsv: its contract states only the header. The full contents are stated by `ExportRoundTrip`, which assumes language codes without ';' or a newline. The exporter copies codes verbatim.
- Translation.DecodeReply: the contract states the success condition only for Google beta. The other services' decoders are pinned down by `DecodeCanonicalReply` on well-formed replies.
- Translation.CallService: states the missing-setting outcome. What the network returns is an opaque parameter.
- `WindowManager::minimize_window`, the start-minimised handling in `build_ui`, `install_tools_if_needed` and `get_config_path` are left out. They are a single GTK call, a no-op and path building.
- Building the history panel is left out. Its first `load_lists` runs before the selector's handler is connected, so `HistoryUi.LoadLists` describes only the later reloads, which do fire the handler.
- `update_view` and `on_translation_added` are left out as separate members. Both re-run `refresh_history`, which is `HistoryUi.Refresh`.
- The display names of the services, `get_active_service` and `get_available_services` are left out. They are plain accessors.
- The settings dialog's widget construction (`create_api_config_section`) is left out. `SettingsUi.OpenedEntry` models only the values it pre-fills.
- The settings file's JSON encoding is left out. A file either holds settings or is missing, unreadable or unparsable.

Some behaviours of the code are modelled as written and noted here:

- The save button records the shown pair as a second history row (`App.SaveClicked`).
- Error texts are stored in history like translations (`App.PerformTranslation`).
- Reuse looks only among the newest 100 translations (`HistoryUi.ReuseTranslation`).
- The popover's new-list path skips the duplicate-name check (`HistoryUi.PopoverAllowsDuplicateNames`).
- The poller consumes a selection change even when reading the file fails (`App.PollOnce`).
- SettingsUi.SaveSettings: the `settings.save()` file write at src/settings_ui.rs:393 is not part of its outcome. Only the edited value is modelled, and the write itself is `Settings.Save`. The dialog edits a clone of the application's settings (src/main.rs:437), so the running application's copy is not updated by the model either.
- The settings dialog never reads its active-service selector or startup switch, and resets every timeout to 5 seconds (`SettingsUi.SaveSettings`, `SettingsUi.UneditedSaveNormalises`).

## Findings

| source | as written | input that shows it | evidently intended | confidence | as-written member | corrected member |
|---|---|---|---|---|---|---|
| src/window_manager.rs:222-239 | The `_NET_ACTIVE_WINDOW` client message is sent to the client window itself. | Any X11 focus request for a window other than the root. | The Extended Window Manager Hints specification ("_NET_ACTIVE_WINDOW" under Root Window Properties) requires sending it to the root window with the substructure redirect and notify masks. | not executed | WindowManager.ActiveWindowMessageMissesRoot | WindowManager.ViaRootDiffersOnlyInDestination |
| src/history_ui.rs:358-360 | Each row's key is `widget_name().parse::<u32>().unwrap_or(0)`. Rows are never named, so every key is 0 and the id map keeps only the last row. | Show two history rows, select the first and press Delete: the second row's translation is deleted. | Each row resolves to its own translation. | not executed | HistoryUi.DeleteFirstRowDeletesLastAsWritten | HistoryUi.SelectingFirstOfTwoRows |
| src/history_ui.rs:534-550 | Reuse resolves the selected row through key 0 of the id map, like every row action. | Show two history rows, select the first and press Reuse: the second row's texts are restored. | Reuse restores the selected row. | not executed | HistoryUi.ReuseFirstRowRestoresLastAsWritten | HistoryUi.ReuseRestoresRow |
| src/history_ui.rs:552-629 | Add-to-list resolves the selected row through key 0 of the id map. | Show two history rows, select the first and add it to a list: the second row's translation is linked. | The selected row is added. | not executed | HistoryUi.AddFirstRowLinksLastAsWritten | HistoryUi.AddedRowAppearsInViewedList |
| src/main.rs:164-168 | The translation manager is `TranslationManager::new()` with only the active service set. The API keys and endpoints stored in the settings are never passed to it. | A stored DeepL key with DeepL active: every translation reports the missing key and falls back to Google beta. | The manager uses the stored service configurations. | not executed | App.StoredKeyIgnoredAsWritten | App.StoredKeyUsed |
