/** The history panel of `src/history_ui.rs`: the list selector and its
    dispatch, the rows shown for the history, a list or a search, and the
    list and row actions. Dialogs are reduced to the answer they return and
    database failures to a parameter; the store itself is `Database`. */
module HistoryUi {
  import opened Wrappers
  import Text
  import IntText
  import Database
  import Like
  import Anki
  import App

  /** How many translations the full history view and the reuse action read. */
  const HistoryLimit := 100

  /** The id of the selector's last entry. */
  const CreateNewListId := "CREATE_NEW_LIST"

  datatype SelectorEntry = SelectorEntry(id: Option<string>, caption: string)

  const AllTranslationsEntry := SelectorEntry(None, "All Translations")
  const CreateNewListEntry := SelectorEntry(Some(CreateNewListId), "Create New List...")

  /** The panel's state: the cached lists, the selector's entries, the list
      being viewed, the translations shown as rows, and the map from a row's
      widget name (parsed as `u32`) to the translation id it shows. */
  datatype Panel = Panel(
    lists: seq<Database.TranslationList>,
    selector: seq<SelectorEntry>,
    activeListId: Option<int>,
    rows: seq<Database.Translation>,
    idMap: map<nat, int>)

  const EmptyPanel := Panel([], [], None, [], map[])

  // ---- rows and the id map ----------------------------------------------

  /** The name GTK gives a row that was never named: its type name. */
  const DefaultRowName := "GtkListBoxRow"

  /** The key a row is filed under: its widget name parsed as `u32`, or 0. */
  function RowKey(name: string): nat {
    IntText.ParseU32(name).GetOr(0)
  }

  /** Rows are never named, so every row is filed under key 0. */
  lemma DefaultRowKeyIsZero()
    ensures RowKey(DefaultRowName) == 0
  {
    assert !IntText.IsDigit(DefaultRowName[0]);
  }

  /** The id map after filing each translation under `key` in turn. */
  function Remember(m: map<nat, int>, key: nat, ts: seq<Database.Translation>): (r: map<nat, int>)
    ensures |ts| == 0 ==> r == m
    ensures |ts| > 0 ==> r == m[key := ts[|ts| - 1].id]
    decreases |ts|
  {
    if |ts| == 0 then m
    else Remember(m[key := ts[0].id], key, ts[1..])
  }

  /** Clearing the rows and adding one row per translation, in order, as
      `add_translation_to_list` does. The map is never cleared. */
  function ShowRows(p: Panel, ts: seq<Database.Translation>): (r: Panel)
    ensures r.rows == ts
    ensures r.lists == p.lists && r.selector == p.selector && r.activeListId == p.activeListId
    ensures forall k :: k in r.idMap && k != 0 ==> k in p.idMap && r.idMap[k] == p.idMap[k]
    ensures |ts| > 0 ==> 0 in r.idMap && r.idMap[0] == ts[|ts| - 1].id
    ensures |ts| == 0 ==> r.idMap == p.idMap
  {
    DefaultRowKeyIsZero();
    p.(rows := ts, idMap := Remember(p.idMap, RowKey(DefaultRowName), ts))
  }

  /** The translation id the row actions read for the selected row `i`, as
      written: the map entry under the row's key, which is the same for
      every row. */
  function SelectedIdAsWritten(p: Panel, i: int): (r: Option<int>)
    requires 0 <= i < |p.rows|
    ensures r.Some? <==> RowKey(DefaultRowName) in p.idMap
  {
    var key := RowKey(DefaultRowName);
    if key in p.idMap then Some(p.idMap[key]) else None
  }

  /** As written, whichever row is selected, the row actions act on the
      translation of the LAST row added. */
  lemma SelectionIgnoresRowAsWritten(p: Panel, ts: seq<Database.Translation>, i: int)
    requires 0 <= i < |ts|
    ensures SelectedIdAsWritten(ShowRows(p, ts), i) == Some(ts[|ts| - 1].id)
  {
    DefaultRowKeyIsZero();
  }

  /** The translation id of the selected row `i`: the row's own. */
  function SelectedId(p: Panel, i: int): (r: int)
    requires 0 <= i < |p.rows|
    ensures exists t :: t in p.rows && t.id == r
  {
    p.rows[i].id
  }

  /** With the row's own id, the first of two shown translations is the
      one selected; as written it is the second. */
  lemma SelectingFirstOfTwoRows(p: Panel, t0: Database.Translation, t1: Database.Translation)
    requires t0.id != t1.id
    ensures SelectedId(ShowRows(p, [t0, t1]), 0) == t0.id
    ensures SelectedIdAsWritten(ShowRows(p, [t0, t1]), 0) == Some(t1.id)
  {
    SelectionIgnoresRowAsWritten(p, [t0, t1], 0);
  }

  // ---- the selector -----------------------------------------------------

  /** The entries for the stored lists: each list's id as text and its name. */
  function ListEntries(ls: seq<Database.TranslationList>): (r: seq<SelectorEntry>)
    ensures |r| == |ls|
    ensures forall i :: 0 <= i < |ls| ==> r[i] == SelectorEntry(Some(IntText.ShowInt(ls[i].id)), ls[i].name)
  {
    seq(|ls|, i requires 0 <= i < |ls| => SelectorEntry(Some(IntText.ShowInt(ls[i].id)), ls[i].name))
  }

  /** The selector's entries for the lists `ls`. */
  function SelectorFor(ls: seq<Database.TranslationList>): (r: seq<SelectorEntry>)
    ensures |r| == |ls| + 2
    ensures r[0] == AllTranslationsEntry
    ensures r[|r| - 1] == CreateNewListEntry
    ensures forall i :: 0 <= i < |ls| ==>
      r[i + 1] == SelectorEntry(Some(IntText.ShowInt(ls[i].id)), ls[i].name)
  {
    var entries := ListEntries(ls);
    var r := [AllTranslationsEntry] + entries + [CreateNewListEntry];
    assert forall i :: 0 <= i < |ls| ==> r[i + 1] == entries[i];
    r
  }

  /** `load_lists`: "All Translations", then every list by name, then
      "Create New List..."; the cache holds the same lists. Making the first
      entry active fires the selector's `changed` handler (connected before
      every reload the panel performs), so the panel leaves any list it was
      viewing and shows the whole history. */
  function LoadLists(p: Panel, s: Database.Store): (r: Panel)
    ensures r.lists == Database.GetLists(s)
    ensures |r.selector| == |r.lists| + 2
    ensures r.selector[0] == AllTranslationsEntry
    ensures r.selector[|r.selector| - 1] == CreateNewListEntry
    ensures forall i :: 0 <= i < |r.lists| ==>
      r.selector[i + 1] == SelectorEntry(Some(IntText.ShowInt(r.lists[i].id)), r.lists[i].name)
    ensures r.activeListId.None? && r.rows == Database.GetTranslations(s, HistoryLimit)
  {
    var ls := Database.GetLists(s);
    ShowRows(p.(lists := ls, selector := SelectorFor(ls), activeListId := None),
             Database.GetTranslations(s, HistoryLimit))
  }

  datatype SelectorAction = OpenCreateDialog | ShowList(listId: int) | ShowAll

  /** The selector's `changed` handler: the create entry opens the dialog,
      an id that parses as `i64` shows that list, anything else (and no id)
      shows the whole history. */
  function Dispatch(id: Option<string>): (a: SelectorAction)
    ensures a == OpenCreateDialog <==> id == Some(CreateNewListId)
    ensures a.ShowList? <==> id.Some? && id.value != CreateNewListId && IntText.ParseI64(id.value).Some?
    ensures a.ShowList? ==> IntText.ParseI64(id.value) == Some(a.listId)
  {
    match id
    case None => ShowAll
    case Some(text) =>
      if text == CreateNewListId then OpenCreateDialog
      else
        match IntText.ParseI64(text)
        case Some(listId) => ShowList(listId)
        case None => ShowAll
  }

  /** Every entry `load_lists` builds dispatches to what its label says:
      the first to the whole history, the last to the create dialog, and
      each list's entry to that list. */
  lemma LoadedEntriesDispatch(p: Panel, s: Database.Store, k: int)
    requires forall l :: l in s.lists ==> IntText.I64Min <= l.id <= IntText.I64Max
    requires 0 <= k < |LoadLists(p, s).selector|
    ensures var r := LoadLists(p, s);
      Dispatch(r.selector[k].id) ==
        if k == 0 then ShowAll
        else if k == |r.selector| - 1 then OpenCreateDialog
        else ShowList(r.lists[k - 1].id)
  {
    var r := LoadLists(p, s);
    if 0 < k < |r.selector| - 1 {
      var l := r.lists[k - 1];
      assert l in multiset(s.lists);
      IntText.ParseShowI64(l.id);
      assert IntText.ShowInt(l.id) != CreateNewListId by {
        assert CreateNewListId[0] == 'C';
      }
    }
  }

  /** The panel after the selector changes to the entry with `id`. */
  function Select(p: Panel, s: Database.Store, id: Option<string>): (r: Panel)
    ensures Dispatch(id) == OpenCreateDialog ==> r == p
    ensures Dispatch(id).ShowList? ==>
      r.activeListId == Some(Dispatch(id).listId) &&
      r.rows == Database.GetListTranslations(s, Dispatch(id).listId)
    ensures Dispatch(id).ShowAll? ==>
      r.activeListId.None? && r.rows == Database.GetTranslations(s, HistoryLimit)
    ensures r.lists == p.lists && r.selector == p.selector
  {
    match Dispatch(id)
    case OpenCreateDialog => p
    case ShowList(listId) => ShowRows(p.(activeListId := Some(listId)), Database.GetListTranslations(s, listId))
    case ShowAll => ShowRows(p.(activeListId := None), Database.GetTranslations(s, HistoryLimit))
  }

  /** The reloaded panel is what the `changed` handler makes of it for its
      first entry: selecting "All Translations" again changes nothing. */
  lemma LoadListsSelectsFirstEntry(p: Panel, s: Database.Store)
    ensures var r := LoadLists(p, s); Select(r, s, r.selector[0].id) == r
  {
    var r := LoadLists(p, s);
    assert Dispatch(r.selector[0].id) == ShowAll;
  }

  // ---- refresh and search -----------------------------------------------

  /** `refresh_history`: the viewed list's translations, or the newest
      hundred of the whole history. */
  function Refresh(p: Panel, s: Database.Store): (r: Panel)
    ensures r.activeListId == p.activeListId && r.lists == p.lists && r.selector == p.selector
    ensures p.activeListId.Some? ==>
      forall t :: t in r.rows <==> Database.InList(s, p.activeListId.value, t)
    ensures p.activeListId.None? ==>
      |r.rows| <= HistoryLimit && forall t :: t in r.rows ==> t in s.translations
    ensures p.activeListId.None? && |s.translations| <= HistoryLimit ==>
      multiset(r.rows) == multiset(s.translations)
    ensures p.activeListId.Some? ==> r.rows == Database.GetListTranslations(s, p.activeListId.value)
    ensures p.activeListId.None? ==> r.rows == Database.GetTranslations(s, HistoryLimit)
  {
    match p.activeListId
    case Some(listId) => ShowRows(p, Database.GetListTranslations(s, listId))
    case None => ShowRows(p, Database.GetTranslations(s, HistoryLimit))
  }

  /** Refreshing shows what choosing the viewed entry in the selector again
      shows: the same list, or the whole history. */
  lemma RefreshAgreesWithSelect(p: Panel, s: Database.Store)
    requires p.activeListId.Some? ==> IntText.I64Min <= p.activeListId.value <= IntText.I64Max
    ensures var id := if p.activeListId.Some? then Some(IntText.ShowInt(p.activeListId.value)) else None;
      Refresh(p, s).rows == Select(p, s, id).rows &&
      Refresh(p, s).activeListId == Select(p, s, id).activeListId
  {
    if p.activeListId.Some? {
      IntText.ParseShowI64(p.activeListId.value);
      assert IntText.ShowInt(p.activeListId.value) != CreateNewListId by {
        assert CreateNewListId[0] == 'C';
      }
    }
  }

  /** `search_translations`: an empty query restores the normal view, any
      other shows every matching translation of the whole history. */
  function Search(p: Panel, s: Database.Store, query: string): (r: Panel)
    ensures r.activeListId == p.activeListId && r.lists == p.lists && r.selector == p.selector
    ensures query == "" ==> r.rows == Refresh(p, s).rows
    ensures query != "" ==> r.rows == Database.SearchTranslations(s, query)
  {
    if query == "" then Refresh(p, s)
    else ShowRows(p, Database.SearchTranslations(s, query))
  }

  /** A search ignores the list being viewed: for a query without `%` or
      `_` it shows exactly the translations of the whole history whose text
      contains the query, ignoring ASCII case. */
  lemma SearchShowsMatches(p: Panel, s: Database.Store, query: string, t: Database.Translation)
    requires query != "" && Like.NoWildcards(query)
    ensures t in Search(p, s, query).rows <==>
      t in s.translations &&
      (Text.Contains(Text.ToLower(t.sourceText), Text.ToLower(query)) ||
       Text.Contains(Text.ToLower(t.targetText), Text.ToLower(query)))
  {
    Database.SearchIsSubstringMatch(s, query, t);
  }

  /** Clearing the search after viewing a list shows the list again. */
  lemma EmptySearchRestoresList(p: Panel, s: Database.Store, listId: int, t: Database.Translation)
    requires p.activeListId == Some(listId)
    ensures t in Search(p, s, "").rows <==> Database.InList(s, listId, t)
  {
  }

  // ---- creating a list --------------------------------------------------

  datatype CreateError = EmptyName | DuplicateName | LookupFailed(detail: string)

  function CreateErrorMessage(e: CreateError, name: string): string {
    match e
    case EmptyName => "Please enter a list name"
    case DuplicateName => "A list named \"" + name + "\" already exists. Please choose a different name."
    case LookupFailed(detail) => "Database error: " + detail
  }

  /** After the create dialog answers: the panel, the store, the error it
      shows, and whether the dialog closes. */
  datatype CreateOutcome = CreateOutcome(
    panel: Panel, store: Database.Store, error: Option<CreateError>, closes: bool)

  /** The create dialog's response handler. `accepted` is whether Create
      was pressed, `lookupFailure` the error of `list_name_exists` if it
      failed, `createOk` whether `create_list` succeeded. A new list is
      reloaded into the selector and selected. */
  function CreateListResponse(p: Panel, s: Database.Store, accepted: bool, name: string,
                              lookupFailure: Option<string>, createOk: bool, now: string): (r: CreateOutcome)
    ensures !accepted ==> r == CreateOutcome(p, s, None, true)
    ensures accepted && name == "" ==> r == CreateOutcome(p, s, Some(EmptyName), false)
    ensures accepted && name != "" && lookupFailure.Some? ==>
      r == CreateOutcome(p, s, Some(LookupFailed(lookupFailure.value)), false)
    ensures accepted && name != "" && lookupFailure.None? && Database.ListNameExists(s, name) ==>
      r == CreateOutcome(p, s, Some(DuplicateName), false)
    ensures r.store != s ==>
      accepted && name != "" && !Database.ListNameExists(s, name) && r.error.None? && r.closes &&
      |r.store.lists| == |s.lists| + 1 && r.store.lists[|s.lists|].name == name &&
      r.store.translations == s.translations && r.store.entries == s.entries &&
      r.panel.lists == Database.GetLists(r.store)
    ensures r.store != s && IntText.I64Min <= r.store.lists[|s.lists|].id <= IntText.I64Max ==>
      r.panel.activeListId == Some(r.store.lists[|s.lists|].id)
    ensures accepted && name != "" && lookupFailure.None? && !Database.ListNameExists(s, name) ==>
      (r.store != s <==> createOk) && r.closes && r.error.None?
    ensures accepted && name != "" && lookupFailure.None? && !Database.ListNameExists(s, name) && !createOk ==>
      r == CreateOutcome(p, s, None, true)
    ensures Database.Valid(s) ==> Database.Valid(r.store)
  {
    if !accepted then CreateOutcome(p, s, None, true)
    else if name == "" then CreateOutcome(p, s, Some(EmptyName), false)
    else if lookupFailure.Some? then CreateOutcome(p, s, Some(LookupFailed(lookupFailure.value)), false)
    else if Database.ListNameExists(s, name) then CreateOutcome(p, s, Some(DuplicateName), false)
    else if !createOk then CreateOutcome(p, s, None, true)
    else
      var created := Database.CreateList(s, name, now);
      var loaded := LoadLists(p, created.store);
      assert created.store != s by {
        assert |created.store.lists| == |s.lists| + 1;
      }
      assert IntText.I64Min <= created.id <= IntText.I64Max ==>
        Dispatch(Some(IntText.ShowInt(created.id))) == ShowList(created.id) by {
        if IntText.I64Min <= created.id <= IntText.I64Max {
          IntText.ParseShowI64(created.id);
          assert CreateNewListId[0] == 'C';
        }
      }
      CreateOutcome(Select(loaded, created.store, Some(IntText.ShowInt(created.id))), created.store, None, true)
  }

  /** A successful create leaves a list of that name in the store and in the
      reloaded selector, so a second attempt with the name is refused. */
  lemma CreatedListIsOffered(p: Panel, s: Database.Store, name: string, now: string)
    requires name != "" && !Database.ListNameExists(s, name)
    ensures var r := CreateListResponse(p, s, true, name, None, true, now);
      Database.ListNameExists(r.store, name) &&
      (exists l :: l in r.panel.lists && l.name == name) &&
      CreateListResponse(r.panel, r.store, true, name, None, true, now).error == Some(DuplicateName)
  {
    var r := CreateListResponse(p, s, true, name, None, true, now);
    var l := r.store.lists[|s.lists|];
    assert l in r.store.lists;
    assert l in multiset(r.store.lists);
    assert l in r.panel.lists by {
      assert l in multiset(r.panel.lists);
    }
  }

  /** No two lists share a name. */
  ghost predicate UniqueNames(s: Database.Store) {
    forall name :: Database.CountNamed(s.lists, name) <= 1
  }

  /** The create dialog keeps list names unique. */
  lemma CreateKeepsNamesUnique(p: Panel, s: Database.Store, accepted: bool, name: string,
                               lookupFailure: Option<string>, createOk: bool, now: string)
    requires UniqueNames(s)
    ensures UniqueNames(CreateListResponse(p, s, accepted, name, lookupFailure, createOk, now).store)
  {
    var r := CreateListResponse(p, s, accepted, name, lookupFailure, createOk, now);
    if r.store != s {
      var l := r.store.lists[|s.lists|];
      assert r.store.lists == s.lists + [l];
      forall n ensures Database.CountNamed(r.store.lists, n) <= 1 {
        Database.CountNamedAppend(s.lists, l, n);
        if n == name {
          Database.NameCountPositive(s.lists, name);
        }
      }
    }
  }

  /** The main window's save popover, unlike the create dialog, does not
      look for an existing list of the same name. */
  lemma PopoverAllowsDuplicateNames(l: Database.TranslationList, translationId: int, now: string)
    requires l.name != ""
    ensures var s := Database.Store([], [l], []);
      UniqueNames(s) &&
      !UniqueNames(App.SaveToList(s, translationId, Some(App.NewListId), l.name, now, true).store) &&
      CreateListResponse(EmptyPanel, s, true, l.name, None, true, now).error == Some(DuplicateName)
  {
    var s := Database.Store([], [l], []);
    var r := App.SaveToList(s, translationId, Some(App.NewListId), l.name, now, true).store;
    assert r.lists == [l, r.lists[1]];
    assert Database.CountNamed(r.lists, l.name) == 2 by {
      var tail := r.lists[1..];
      assert tail == [r.lists[1]] && tail[1..] == [];
      assert Database.CountNamed(tail, l.name) == 1;
      assert r.lists[0] == l;
    }
    assert Database.ListNameExists(s, l.name) by {
      assert l in s.lists;
    }
    forall n ensures Database.CountNamed(s.lists, n) <= 1 {
      assert s.lists[1..] == [];
    }
  }

  // ---- export -----------------------------------------------------------

  const DefaultExportName := "translations"

  /** The name of the first cached list with the id. */
  function CachedName(ls: seq<Database.TranslationList>, listId: int): (r: Option<string>)
    ensures r.None? <==> forall l :: l in ls ==> l.id != listId
    ensures r.Some? ==> exists l :: l in ls && l.id == listId && l.name == r.value
    decreases |ls|
  {
    if |ls| == 0 then None
    else if ls[0].id == listId then Some(ls[0].name)
    else
      assert forall l :: l in ls <==> l == ls[0] || l in ls[1..];
      CachedName(ls[1..], listId)
  }

  /** The suggested file name: the list's name with spaces turned into
      underscores, or "translations" for a list not in the cache, plus
      ".csv". */
  function ExportFileName(ls: seq<Database.TranslationList>, listId: int): (r: string)
    ensures Text.EndsWith(r, ".csv")
    ensures ' ' !in r
    ensures var base := CachedName(ls, listId).GetOr(DefaultExportName);
      |r| == |base| + 4 &&
      forall k :: 0 <= k < |base| ==> r[k] == (if base[k] == ' ' then '_' else base[k])
  {
    var base := CachedName(ls, listId).GetOr(DefaultExportName);
    var r := Text.ReplaceChar(base, ' ', '_') + ".csv";
    assert r[|r| - 4..] == ".csv";
    Text.ReplaceCharRemoves(base, ' ', '_');
    r
  }

  lemma ExportFileNameExamples(l: Database.TranslationList)
    requires l.name == "My words"
    ensures ExportFileName([l], l.id) == "My_words.csv"
    ensures ExportFileName([l], l.id + 1) == "translations.csv"
  {
  }

  datatype ExportOutcome =
    | NoListSelected
    | ExportFailed(message: string)
    | ExportReady(fileName: string, csv: string)

  /** The export button up to the file chooser: with a list viewed, its
      cards and a suggested file name; `dbFailure` is the error of
      `export_list_for_anki` if it failed. */
  function ExportSelectedList(p: Panel, s: Database.Store, dbFailure: Option<string>): (r: ExportOutcome)
    ensures r.NoListSelected? <==> p.activeListId.None?
    ensures r.ExportFailed? <==> p.activeListId.Some? && dbFailure.Some?
    ensures r.ExportFailed? ==> r.message == "Error exporting data: " + dbFailure.value
    ensures r.ExportReady? ==>
      r.csv == Anki.ExportListForAnki(s, p.activeListId.value) &&
      r.fileName == ExportFileName(p.lists, p.activeListId.value)
  {
    match p.activeListId
    case None => NoListSelected
    case Some(listId) =>
      match dbFailure
      case Some(e) => ExportFailed("Error exporting data: " + e)
      case None => ExportReady(ExportFileName(p.lists, listId), Anki.ExportListForAnki(s, listId))
  }

  /** The exported file holds one card per translation of the viewed list
      and nothing else. */
  lemma ExportedFileHoldsTheList(p: Panel, s: Database.Store)
    requires p.activeListId.Some?
    requires forall t :: t in s.translations ==> Anki.PlainCodes(t)
    ensures var r := ExportSelectedList(p, s, None);
      var cards := Anki.ParseCsv(r.csv);
      r.ExportReady? && cards.Some? &&
      (forall c :: c in cards.value ==>
        exists t :: Database.InList(s, p.activeListId.value, t) && c == Anki.CardOf(t)) &&
      (forall t :: Database.InList(s, p.activeListId.value, t) ==> Anki.CardOf(t) in cards.value)
  {
    Anki.ExportListCards(s, p.activeListId.value);
  }

  // ---- deleting a list --------------------------------------------------

  const UnknownListName := "Unknown List"

  /** The delete-list button: the question asked, and after the answer the
      panel, the store and the message shown. `failure` is the error of
      `delete_list` if it failed. */
  datatype DeleteListOutcome = DeleteListOutcome(
    panel: Panel, store: Database.Store, question: Option<string>, message: Option<string>)

  function ConfirmQuestion(name: string): string {
    "Are you sure you want to delete the list \"" + name + "\"?\nThis action cannot be undone."
  }

  function DeleteCurrentList(p: Panel, s: Database.Store, confirmed: bool,
                             failure: Option<string>): (r: DeleteListOutcome)
    ensures p.activeListId.None? ==>
      r == DeleteListOutcome(p, s, None, Some("Please select a list to delete"))
    ensures p.activeListId.Some? ==>
      r.question == Some(ConfirmQuestion(CachedName(p.lists, p.activeListId.value).GetOr(UnknownListName)))
    ensures p.activeListId.Some? && (!confirmed || failure.Some?) ==> r.panel == p && r.store == s
    ensures p.activeListId.Some? && confirmed && failure.Some? ==>
      r.message == Some("Error deleting list: " + failure.value)
    ensures p.activeListId.Some? && confirmed && failure.None? ==>
      var listId := p.activeListId.value;
      r.store == Database.DeleteList(s, listId) &&
      r.panel.activeListId.None? &&
      r.panel.lists == Database.GetLists(r.store) &&
      (forall l :: l in r.panel.lists ==> l.id != listId) &&
      r.panel.rows == Database.GetTranslations(r.store, HistoryLimit) &&
      r.message == Some("List \"" + CachedName(p.lists, listId).GetOr(UnknownListName) + "\" deleted successfully")
    ensures Database.Valid(s) ==> Database.Valid(r.store)
  {
    match p.activeListId
    case None => DeleteListOutcome(p, s, None, Some("Please select a list to delete"))
    case Some(listId) =>
      var name := CachedName(p.lists, listId).GetOr(UnknownListName);
      var question := Some(ConfirmQuestion(name));
      if !confirmed then DeleteListOutcome(p, s, question, None)
      else
        match failure
        case Some(e) => DeleteListOutcome(p, s, question, Some("Error deleting list: " + e))
        case None =>
          var t := Database.DeleteList(s, listId);
          var loaded := LoadLists(p.(activeListId := None), t);
          assert forall l :: l in loaded.lists ==> l in multiset(t.lists);
          DeleteListOutcome(ShowRows(loaded, Database.GetTranslations(t, HistoryLimit)), t, question,
                            Some("List \"" + name + "\" deleted successfully"))
  }

  /** A list missing from the cache is asked about as "Unknown List". */
  lemma UncachedListIsUnknown(p: Panel, s: Database.Store, confirmed: bool, failure: Option<string>)
    requires p.activeListId.Some?
    requires forall l :: l in p.lists ==> l.id != p.activeListId.value
    ensures DeleteCurrentList(p, s, confirmed, failure).question == Some(ConfirmQuestion(UnknownListName))
  {
  }

  // ---- row actions ------------------------------------------------------

  /** The panel and store after a row action, and the error it shows. */
  datatype RowOutcome = RowOutcome(panel: Panel, store: Database.Store, error: Option<string>)

  const DeleteTranslationError := "Error deleting translation"

  /** The delete button as written: it deletes the translation the id map
      names and removes the selected row; `dbOk` is whether
      `delete_translation` succeeded. */
  function DeleteSelectedAsWritten(p: Panel, s: Database.Store, i: int, dbOk: bool): (r: RowOutcome)
    requires 0 <= i < |p.rows|
    ensures SelectedIdAsWritten(p, i).None? ==> r == RowOutcome(p, s, None)
    ensures SelectedIdAsWritten(p, i).Some? && !dbOk ==> r == RowOutcome(p, s, Some(DeleteTranslationError))
    ensures SelectedIdAsWritten(p, i).Some? && dbOk ==>
      r.store == Database.DeleteTranslation(s, SelectedIdAsWritten(p, i).value) &&
      r.panel.rows == p.rows[..i] + p.rows[i + 1..] &&
      r.panel.idMap == p.idMap - {RowKey(DefaultRowName)}
  {
    var key := RowKey(DefaultRowName);
    if key !in p.idMap then RowOutcome(p, s, None)
    else if !dbOk then RowOutcome(p, s, Some(DeleteTranslationError))
    else
      RowOutcome(p.(rows := p.rows[..i] + p.rows[i + 1..], idMap := p.idMap - {key}),
                 Database.DeleteTranslation(s, p.idMap[key]), None)
  }

  /** As written, deleting the first of several shown translations removes
      its row from the view but deletes the last one from the database. */
  lemma DeleteFirstRowDeletesLastAsWritten(p: Panel, s: Database.Store, ts: seq<Database.Translation>)
    requires |ts| >= 2 && ts[0].id != ts[|ts| - 1].id
    requires ts[0] in s.translations && ts[|ts| - 1] in s.translations
    ensures var r := DeleteSelectedAsWritten(ShowRows(p, ts), s, 0, true);
      r.panel.rows == ts[1..] &&
      ts[0] in r.store.translations && ts[|ts| - 1] !in r.store.translations
  {
    SelectionIgnoresRowAsWritten(p, ts, 0);
  }

  /** The delete button with the selected row's own id: on success that
      translation leaves the database (and every list) and its row leaves
      the view; on failure nothing changes. */
  function DeleteSelected(p: Panel, s: Database.Store, i: int, dbOk: bool): (r: RowOutcome)
    requires 0 <= i < |p.rows|
    ensures !dbOk ==> r == RowOutcome(p, s, Some(DeleteTranslationError))
    ensures dbOk ==> r.error.None?
    ensures dbOk ==> forall t :: t in r.store.translations <==> t in s.translations && t.id != p.rows[i].id
    ensures dbOk ==> forall e :: e in r.store.entries <==> e in s.entries && e.translationId != p.rows[i].id
    ensures dbOk ==> r.store.lists == s.lists
    ensures dbOk ==> |r.panel.rows| == |p.rows| - 1
    ensures dbOk ==> forall k :: 0 <= k < i ==> r.panel.rows[k] == p.rows[k]
    ensures dbOk ==> forall k :: i <= k < |r.panel.rows| ==> r.panel.rows[k] == p.rows[k + 1]
    ensures r.panel.activeListId == p.activeListId && r.panel.lists == p.lists
    ensures Database.Valid(s) ==> Database.Valid(r.store)
  {
    if !dbOk then RowOutcome(p, s, Some(DeleteTranslationError))
    else
      RowOutcome(p.(rows := p.rows[..i] + p.rows[i + 1..]), Database.DeleteTranslation(s, SelectedId(p, i)), None)
  }

  /** The first translation with the id in `ts`. */
  function FindById(ts: seq<Database.Translation>, id: int): (r: Option<Database.Translation>)
    ensures r.None? <==> forall t :: t in ts ==> t.id != id
    ensures r.Some? ==> r.value in ts && r.value.id == id
    decreases |ts|
  {
    if |ts| == 0 then None
    else if ts[0].id == id then Some(ts[0])
    else
      assert forall t :: t in ts <==> t == ts[0] || t in ts[1..];
      FindById(ts[1..], id)
  }

  /** Reusing the translation with `id`: looked up among the newest
      hundred, it fills both text buffers and selects its languages where
      the combos have them. `langIds` are the language combos' ids. */
  function ReuseTranslation(s: Database.Store, id: int, ui: App.Ui, langIds: set<string>): (r: App.Ui)
    ensures (forall t :: t in Database.GetTranslations(s, HistoryLimit) ==> t.id != id) ==> r == ui
    ensures r.status == ui.status
    ensures r != ui ==>
      exists t :: t in s.translations && t.id == id &&
        r.input == t.sourceText && r.output == t.targetText &&
        r.sourceLangId == (if t.sourceLang in langIds then Some(t.sourceLang) else ui.sourceLangId) &&
        r.targetLangId == (if t.targetLang in langIds then Some(t.targetLang) else ui.targetLangId)
  {
    match FindById(Database.GetTranslations(s, HistoryLimit), id)
    case None => ui
    case Some(t) =>
      ui.(input := t.sourceText, output := t.targetText,
          sourceLangId := if t.sourceLang in langIds then Some(t.sourceLang) else ui.sourceLangId,
          targetLangId := if t.targetLang in langIds then Some(t.targetLang) else ui.targetLangId)
  }

  /** In a valid store, reusing a translation among the newest hundred puts
      exactly its texts back. */
  lemma ReuseRestoresTranslation(s: Database.Store, t: Database.Translation, ui: App.Ui, langIds: set<string>)
    requires Database.Valid(s) && t in Database.GetTranslations(s, HistoryLimit)
    ensures var r := ReuseTranslation(s, t.id, ui, langIds);
      r.input == t.sourceText && r.output == t.targetText
  {
    var found := FindById(Database.GetTranslations(s, HistoryLimit), t.id);
    Database.GetTranslationByIdUnique(s, t);
    Database.GetTranslationByIdUnique(s, found.value);
  }

  /** The reuse button as written: it reuses the translation the id map
      names, and does nothing when the map has no entry under the row's
      key. */
  function ReuseSelectedAsWritten(p: Panel, s: Database.Store, i: int, ui: App.Ui, langIds: set<string>): (r: App.Ui)
    requires 0 <= i < |p.rows|
    ensures SelectedIdAsWritten(p, i).None? ==> r == ui
    ensures r.status == ui.status
    ensures r != ui ==>
      exists t :: t in s.translations && Some(t.id) == SelectedIdAsWritten(p, i) &&
        r.input == t.sourceText && r.output == t.targetText
  {
    match SelectedIdAsWritten(p, i)
    case None => ui
    case Some(id) => ReuseTranslation(s, id, ui, langIds)
  }

  /** As written, reusing the first of several shown translations puts the
      LAST one's texts back. */
  lemma ReuseFirstRowRestoresLastAsWritten(p: Panel, s: Database.Store, ts: seq<Database.Translation>,
                                           ui: App.Ui, langIds: set<string>)
    requires |ts| >= 1 && Database.Valid(s)
    requires ts[|ts| - 1] in Database.GetTranslations(s, HistoryLimit)
    ensures var r := ReuseSelectedAsWritten(ShowRows(p, ts), s, 0, ui, langIds);
      r.input == ts[|ts| - 1].sourceText && r.output == ts[|ts| - 1].targetText
  {
    SelectionIgnoresRowAsWritten(p, ts, 0);
    ReuseRestoresTranslation(s, ts[|ts| - 1], ui, langIds);
  }

  /** The reuse button with the selected row's own id. */
  function ReuseSelected(p: Panel, s: Database.Store, i: int, ui: App.Ui, langIds: set<string>): (r: App.Ui)
    requires 0 <= i < |p.rows|
    ensures (forall t :: t in Database.GetTranslations(s, HistoryLimit) ==> t.id != p.rows[i].id) ==> r == ui
    ensures r.status == ui.status
    ensures r != ui ==>
      exists t :: t in s.translations && t.id == p.rows[i].id &&
        r.input == t.sourceText && r.output == t.targetText
  {
    ReuseTranslation(s, SelectedId(p, i), ui, langIds)
  }

  /** In a valid store, reusing a row among the newest hundred with its own
      id puts exactly that row's texts back. */
  lemma ReuseRestoresRow(p: Panel, s: Database.Store, i: int, ui: App.Ui, langIds: set<string>)
    requires 0 <= i < |p.rows| && Database.Valid(s)
    requires p.rows[i] in Database.GetTranslations(s, HistoryLimit)
    ensures var r := ReuseSelected(p, s, i, ui, langIds);
      r.input == p.rows[i].sourceText && r.output == p.rows[i].targetText
  {
    ReuseRestoresTranslation(s, p.rows[i], ui, langIds);
  }

  /** The add-to-list popover's Add button for the translation with `id`: a
      chosen id that parses links the translation to that list, and the
      view is reloaded when it shows that list. */
  function AddToChosenList(p: Panel, s: Database.Store, id: int, choice: Option<string>): (r: RowOutcome)
    ensures choice.None? || IntText.ParseI64(choice.value).None? ==> r == RowOutcome(p, s, None)
    ensures choice.Some? && IntText.ParseI64(choice.value).Some? ==>
      var listId := IntText.ParseI64(choice.value).value;
      Database.Linked(r.store, listId, id) &&
      r.store.translations == s.translations && r.store.lists == s.lists &&
      (p.activeListId == Some(listId) ==> r.panel.rows == Database.GetListTranslations(r.store, listId)) &&
      (p.activeListId != Some(listId) ==> r.panel == p)
    ensures r.error.None?
    ensures Database.Valid(s) ==> Database.Valid(r.store)
  {
    if choice.None? then RowOutcome(p, s, None)
    else
      match IntText.ParseI64(choice.value)
      case None => RowOutcome(p, s, None)
      case Some(listId) =>
        var t := Database.AddToList(s, listId, id).store;
        var q := if p.activeListId == Some(listId) then ShowRows(p, Database.GetListTranslations(t, listId)) else p;
        RowOutcome(q, t, None)
  }

  /** The add-to-list button as written: the popover opens only when the id
      map has an entry under the row's key, and then adds that entry's
      translation. */
  function AddSelectedToListAsWritten(p: Panel, s: Database.Store, i: int, choice: Option<string>): (r: RowOutcome)
    requires 0 <= i < |p.rows|
    ensures SelectedIdAsWritten(p, i).None? ==> r == RowOutcome(p, s, None)
    ensures SelectedIdAsWritten(p, i).Some? && choice.Some? && IntText.ParseI64(choice.value).Some? ==>
      Database.Linked(r.store, IntText.ParseI64(choice.value).value, SelectedIdAsWritten(p, i).value) &&
      r.store.translations == s.translations && r.store.lists == s.lists
    ensures r.error.None?
    ensures Database.Valid(s) ==> Database.Valid(r.store)
  {
    match SelectedIdAsWritten(p, i)
    case None => RowOutcome(p, s, None)
    case Some(id) => AddToChosenList(p, s, id, choice)
  }

  /** As written, adding the first of several shown translations to a list
      links the LAST one to it. */
  lemma AddFirstRowLinksLastAsWritten(p: Panel, s: Database.Store, ts: seq<Database.Translation>,
                                      l: Database.TranslationList)
    requires |ts| >= 1 && IntText.I64Min <= l.id <= IntText.I64Max
    ensures Database.Linked(AddSelectedToListAsWritten(ShowRows(p, ts), s, 0, Some(IntText.ShowInt(l.id))).store,
                            l.id, ts[|ts| - 1].id)
  {
    SelectionIgnoresRowAsWritten(p, ts, 0);
    IntText.ParseShowI64(l.id);
  }

  /** The add-to-list button with the selected row's own id. */
  function AddSelectedToList(p: Panel, s: Database.Store, i: int, choice: Option<string>): (r: RowOutcome)
    requires 0 <= i < |p.rows|
    ensures choice.None? || IntText.ParseI64(choice.value).None? ==> r == RowOutcome(p, s, None)
    ensures choice.Some? && IntText.ParseI64(choice.value).Some? ==>
      Database.Linked(r.store, IntText.ParseI64(choice.value).value, p.rows[i].id) &&
      r.store.translations == s.translations && r.store.lists == s.lists
    ensures r.error.None?
    ensures Database.Valid(s) ==> Database.Valid(r.store)
  {
    AddToChosenList(p, s, SelectedId(p, i), choice)
  }

  /** Adding a stored row, by its own id, to the list being viewed makes it
      appear there. */
  lemma AddedRowAppearsInViewedList(p: Panel, s: Database.Store, i: int, l: Database.TranslationList)
    requires 0 <= i < |p.rows| && p.rows[i] in s.translations
    requires p.activeListId == Some(l.id) && IntText.I64Min <= l.id <= IntText.I64Max
    ensures p.rows[i] in AddSelectedToList(p, s, i, Some(IntText.ShowInt(l.id))).panel.rows
  {
    IntText.ParseShowI64(l.id);
  }
}
