/** The history and list store of `src/database.rs` as three relations held
    in rowid (insertion) order. Foreign keys are not enforced by the
    connection the source opens, so nothing here checks that a referenced
    list or translation exists and deletes do their own clean-up. */
module Database {
  import opened Wrappers
  import Query
  import Like
  import Text

  datatype Translation = Translation(
    id: int, timestamp: string,
    sourceText: string, sourceLang: string,
    targetText: string, targetLang: string)

  datatype TranslationList = TranslationList(id: int, name: string, createdAt: string)

  datatype ListEntry = ListEntry(id: int, listId: int, translationId: int)

  datatype Store = Store(
    translations: seq<Translation>,
    lists: seq<TranslationList>,
    entries: seq<ListEntry>)

  /** The store after a fresh schema initialisation. */
  const EmptyStore := Store([], [], [])

  /** A row inserted into `store` under `id`. */
  datatype Inserted = Inserted(store: Store, id: int)

  // ---- invariant -------------------------------------------------------

  function TranslationIdsDiffer(a: Translation, b: Translation): bool { a.id != b.id }
  function ListIdsDiffer(a: TranslationList, b: TranslationList): bool { a.id != b.id }

  /** Two entries have different rowids and link different pairs. */
  function EntriesDiffer(a: ListEntry, b: ListEntry): bool {
    a.id != b.id && (a.listId, a.translationId) != (b.listId, b.translationId)
  }

  /** Rowids are unique in every table and no (list, translation) pair is
      linked twice. */
  ghost predicate Valid(s: Store) {
    Query.Pairwise(s.translations, TranslationIdsDiffer) &&
    Query.Pairwise(s.lists, ListIdsDiffer) &&
    Query.Pairwise(s.entries, EntriesDiffer)
  }

  lemma EmptyStoreValid()
    ensures Valid(EmptyStore)
  {
  }

  // ---- rowids ----------------------------------------------------------

  /** The rowid SQLite gives a row inserted without one into a table with
      `INTEGER PRIMARY KEY`: one more than the largest rowid, or 1 when the
      table is empty. */
  function NextRowId(ids: seq<int>): (r: int)
    ensures forall i :: 0 <= i < |ids| ==> ids[i] < r
    ensures |ids| == 0 ==> r == 1
    ensures |ids| > 0 ==> exists i :: 0 <= i < |ids| && r == ids[i] + 1
    decreases |ids|
  {
    if |ids| == 0 then 1
    else if |ids| == 1 then ids[0] + 1
    else
      var rest := NextRowId(ids[1..]);
      if ids[0] + 1 > rest then ids[0] + 1 else rest
  }

  /** The id column of a table. */
  function Ids<T>(rows: seq<T>, id: T -> int): (r: seq<int>)
    ensures |r| == |rows| && forall i :: 0 <= i < |rows| ==> r[i] == id(rows[i])
  {
    seq(|rows|, i requires 0 <= i < |rows| => id(rows[i]))
  }

  // ---- inserts ---------------------------------------------------------

  /** `add_translation`: appends a row stamped `now` under a fresh rowid. */
  function AddTranslation(s: Store, now: string, sourceText: string, sourceLang: string,
                          targetText: string, targetLang: string): (r: Inserted)
    ensures r.store.translations ==
      s.translations + [Translation(r.id, now, sourceText, sourceLang, targetText, targetLang)]
    ensures r.store.lists == s.lists && r.store.entries == s.entries
    ensures forall t :: t in s.translations ==> t.id < r.id
    ensures r.id >= 1 || |s.translations| > 0
    ensures Valid(s) ==> Valid(r.store)
  {
    var id := NextRowId(Ids(s.translations, (t: Translation) => t.id));
    var row := Translation(id, now, sourceText, sourceLang, targetText, targetLang);
    assert forall i :: 0 <= i < |s.translations| ==> s.translations[i].id < id;
    var ts := s.translations + [row];
    assert Valid(s) ==> Query.Pairwise(ts, TranslationIdsDiffer) by {
      if Valid(s) {
        forall i, j | 0 <= i < j < |ts| ensures TranslationIdsDiffer(ts[i], ts[j]) {
          if j == |s.translations| {
            assert ts[i] == s.translations[i];
          } else {
            assert ts[i] == s.translations[i] && ts[j] == s.translations[j];
          }
        }
      }
    }
    Inserted(s.(translations := ts), id)
  }

  /** `create_list`: appends a list stamped `now` under a fresh rowid; the
      name is not checked for uniqueness here. */
  function CreateList(s: Store, name: string, now: string): (r: Inserted)
    ensures r.store.lists == s.lists + [TranslationList(r.id, name, now)]
    ensures r.store.translations == s.translations && r.store.entries == s.entries
    ensures forall l :: l in s.lists ==> l.id < r.id
    ensures Valid(s) ==> Valid(r.store)
  {
    var id := NextRowId(Ids(s.lists, (l: TranslationList) => l.id));
    assert forall i :: 0 <= i < |s.lists| ==> s.lists[i].id < id;
    var ls := s.lists + [TranslationList(id, name, now)];
    assert Valid(s) ==> Query.Pairwise(ls, ListIdsDiffer) by {
      if Valid(s) {
        forall i, j | 0 <= i < j < |ls| ensures ListIdsDiffer(ls[i], ls[j]) {
          assert ls[i] == s.lists[i];
          if j < |s.lists| {
            assert ls[j] == s.lists[j];
          }
        }
      }
    }
    Inserted(s.(lists := ls), id)
  }

  predicate Links(e: ListEntry, listId: int, translationId: int) {
    e.listId == listId && e.translationId == translationId
  }

  /** `es[i]` is the first entry in rowid order linking the pair. */
  predicate FirstLinkAt(es: seq<ListEntry>, i: int, listId: int, translationId: int) {
    0 <= i < |es| && Links(es[i], listId, translationId) &&
    forall k :: 0 <= k < i ==> !Links(es[k], listId, translationId)
  }

  /** The first entry in rowid order linking the pair, as `query_row` on
      `SELECT id FROM list_entries WHERE ...` yields it. */
  function FindEntry(es: seq<ListEntry>, listId: int, translationId: int): (r: Option<ListEntry>)
    ensures r.None? <==> forall e :: e in es ==> !Links(e, listId, translationId)
    ensures r.Some? ==> exists i :: FirstLinkAt(es, i, listId, translationId) && es[i] == r.value
    decreases |es|
  {
    if |es| == 0 then None
    else if Links(es[0], listId, translationId) then Some(es[0])
    else
      var r := FindEntry(es[1..], listId, translationId);
      assert forall e :: e in es ==> e == es[0] || e in es[1..];
      if r.Some? then
        var i :| FirstLinkAt(es[1..], i, listId, translationId) && es[1..][i] == r.value;
        assert es[i + 1] == r.value;
        assert forall k :: 0 < k < i + 1 ==> es[k] == es[1..][k - 1];
        assert FirstLinkAt(es, i + 1, listId, translationId);
        r
      else r
  }

  predicate Linked(s: Store, listId: int, translationId: int) {
    exists e :: e in s.entries && Links(e, listId, translationId)
  }

  /** `add_to_list`: returns the id of the entry already linking the pair,
      leaving the store unchanged, or else links the pair under a fresh
      rowid. */
  function AddToList(s: Store, listId: int, translationId: int): (r: Inserted)
    ensures Linked(s, listId, translationId) ==>
      r.store == s && exists e :: e in s.entries && Links(e, listId, translationId) && e.id == r.id
    ensures !Linked(s, listId, translationId) ==>
      r.store == s.(entries := s.entries + [ListEntry(r.id, listId, translationId)]) &&
      forall e :: e in s.entries ==> e.id < r.id
    ensures Linked(r.store, listId, translationId)
    ensures Valid(s) ==> Valid(r.store)
  {
    match FindEntry(s.entries, listId, translationId)
    case Some(e) => Inserted(s, e.id)
    case None =>
      var id := NextRowId(Ids(s.entries, (e: ListEntry) => e.id));
      var e := ListEntry(id, listId, translationId);
      assert forall i :: 0 <= i < |s.entries| ==> s.entries[i].id < id;
      var es := s.entries + [e];
      assert Valid(s) ==> Query.Pairwise(es, EntriesDiffer) by {
        if Valid(s) {
          forall i, j | 0 <= i < j < |es| ensures EntriesDiffer(es[i], es[j]) {
            assert es[i] == s.entries[i];
            if j < |s.entries| {
              assert es[j] == s.entries[j];
            } else {
              assert !Links(s.entries[i], listId, translationId);
            }
          }
        }
      }
      assert e in es;
      Inserted(s.(entries := es), id)
  }

  /** Adding a pair twice is the same as adding it once: the second call
      returns the same entry id and changes nothing. */
  lemma AddToListIdempotent(s: Store, listId: int, translationId: int)
    ensures var r := AddToList(s, listId, translationId);
            AddToList(r.store, listId, translationId) == r
  {
    var r := AddToList(s, listId, translationId);
    if !Linked(s, listId, translationId) {
      var es := r.store.entries;
      var last := ListEntry(r.id, listId, translationId);
      assert es == s.entries + [last];
      var f := FindEntry(es, listId, translationId);
      assert es[|es| - 1] == last;
      var i :| FirstLinkAt(es, i, listId, translationId) && es[i] == f.value;
      assert i == |es| - 1;
    }
  }

  /** `count` links of a pair in a valid store: after `add_to_list` the pair
      is linked by exactly one entry. */
  function CountLinks(es: seq<ListEntry>, listId: int, translationId: int): nat
    decreases |es|
  {
    if |es| == 0 then 0
    else (if Links(es[0], listId, translationId) then 1 else 0) + CountLinks(es[1..], listId, translationId)
  }

  lemma {:induction false} PairwiseDistinctCountsAtMostOne(es: seq<ListEntry>, listId: int, translationId: int)
    requires Query.Pairwise(es, EntriesDiffer)
    ensures CountLinks(es, listId, translationId) <= 1
    ensures CountLinks(es, listId, translationId) == 1 <==> exists e :: e in es && Links(e, listId, translationId)
    decreases |es|
  {
    if |es| > 0 {
      assert Query.Pairwise(es[1..], EntriesDiffer) by {
        forall i, j | 0 <= i < j < |es[1..]| ensures EntriesDiffer(es[1..][i], es[1..][j]) {
          assert es[1..][i] == es[i + 1] && es[1..][j] == es[j + 1];
        }
      }
      PairwiseDistinctCountsAtMostOne(es[1..], listId, translationId);
      if Links(es[0], listId, translationId) {
        forall e | e in es[1..] ensures !Links(e, listId, translationId) {
          var k :| 0 <= k < |es[1..]| && es[1..][k] == e;
          assert EntriesDiffer(es[0], es[k + 1]);
        }
      }
      assert forall e :: e in es <==> e == es[0] || e in es[1..];
    }
  }

  lemma AddToListLinksOnce(s: Store, listId: int, translationId: int)
    requires Valid(s)
    ensures CountLinks(AddToList(s, listId, translationId).store.entries, listId, translationId) == 1
  {
    var r := AddToList(s, listId, translationId);
    PairwiseDistinctCountsAtMostOne(r.store.entries, listId, translationId);
  }

  // ---- updates and deletes ---------------------------------------------

  /** `rename_list`: only the named list's name changes. */
  function RenameList(s: Store, listId: int, newName: string): (r: Store)
    ensures r.translations == s.translations && r.entries == s.entries
    ensures |r.lists| == |s.lists|
    ensures forall i :: 0 <= i < |s.lists| ==>
      r.lists[i].id == s.lists[i].id && r.lists[i].createdAt == s.lists[i].createdAt &&
      (s.lists[i].id != listId ==> r.lists[i] == s.lists[i])
    ensures forall i :: 0 <= i < |s.lists| && s.lists[i].id == listId ==> r.lists[i].name == newName
    ensures Valid(s) ==> Valid(r)
  {
    var ls := seq(|s.lists|, i requires 0 <= i < |s.lists| =>
      if s.lists[i].id == listId then s.lists[i].(name := newName) else s.lists[i]);
    assert Valid(s) ==> Query.Pairwise(ls, ListIdsDiffer) by {
      if Valid(s) {
        forall i, j | 0 <= i < j < |ls| ensures ListIdsDiffer(ls[i], ls[j]) {
          assert ListIdsDiffer(s.lists[i], s.lists[j]);
        }
      }
    }
    s.(lists := ls)
  }

  /** The number of lists called `name`, as `SELECT COUNT(*)` counts them. */
  function CountNamed(ls: seq<TranslationList>, name: string): nat
    decreases |ls|
  {
    if |ls| == 0 then 0
    else (if ls[0].name == name then 1 else 0) + CountNamed(ls[1..], name)
  }

  /** Appending a list adds one to the count of its own name only. */
  lemma {:induction false} CountNamedAppend(ls: seq<TranslationList>, l: TranslationList, name: string)
    ensures CountNamed(ls + [l], name) == CountNamed(ls, name) + (if l.name == name then 1 else 0)
    decreases |ls|
  {
    if |ls| > 0 {
      assert (ls + [l])[1..] == ls[1..] + [l];
      CountNamedAppend(ls[1..], l, name);
    }
  }

  /** `list_name_exists`: the count of lists with exactly this name is
      positive. */
  function ListNameExists(s: Store, name: string): (r: bool)
    ensures r <==> exists l :: l in s.lists && l.name == name
  {
    NameCountPositive(s.lists, name);
    CountNamed(s.lists, name) > 0
  }

  lemma {:induction false} NameCountPositive(ls: seq<TranslationList>, name: string)
    ensures CountNamed(ls, name) > 0 <==> exists l :: l in ls && l.name == name
    decreases |ls|
  {
    if |ls| > 0 {
      NameCountPositive(ls[1..], name);
      assert forall l :: l in ls <==> l == ls[0] || l in ls[1..];
    }
  }

  /** After renaming an existing list, the list with that id carries the
      new name, so the name exists. */
  lemma RenamedNameExists(s: Store, listId: int, newName: string)
    requires exists l :: l in s.lists && l.id == listId
    ensures exists l :: l in RenameList(s, listId, newName).lists && l.id == listId && l.name == newName
    ensures ListNameExists(RenameList(s, listId, newName), newName)
  {
    var l :| l in s.lists && l.id == listId;
    var i :| 0 <= i < |s.lists| && s.lists[i] == l;
    assert RenameList(s, listId, newName).lists[i].name == newName;
  }

  /** `delete_list`: removes the list's entries, then the list row. */
  function DeleteList(s: Store, listId: int): (r: Store)
    ensures r.translations == s.translations
    ensures forall l :: l in r.lists <==> l in s.lists && l.id != listId
    ensures forall e :: e in r.entries <==> e in s.entries && e.listId != listId
    ensures Valid(s) ==> Valid(r)
  {
    var keepEntry := (e: ListEntry) => e.listId != listId;
    var keepList := (l: TranslationList) => l.id != listId;
    var r := Store(s.translations, Query.Filter(s.lists, keepList), Query.Filter(s.entries, keepEntry));
    assert Valid(s) ==> Valid(r) by {
      if Valid(s) {
        Query.FilterPairwise(s.entries, keepEntry, EntriesDiffer);
        Query.FilterPairwise(s.lists, keepList, ListIdsDiffer);
      }
    }
    r
  }

  /** `remove_from_list`: removes only the entries linking both ids. */
  function RemoveFromList(s: Store, listId: int, translationId: int): (r: Store)
    ensures r.translations == s.translations && r.lists == s.lists
    ensures forall e :: e in r.entries <==> e in s.entries && !Links(e, listId, translationId)
    ensures !Linked(r, listId, translationId)
    ensures Valid(s) ==> Valid(r)
  {
    var keep := (e: ListEntry) => !Links(e, listId, translationId);
    var r := s.(entries := Query.Filter(s.entries, keep));
    assert Valid(s) ==> Valid(r) by {
      if Valid(s) {
        Query.FilterPairwise(s.entries, keep, EntriesDiffer);
      }
    }
    r
  }

  /** `delete_translation`: removes every entry referencing the translation,
      then its row; lists are untouched. */
  function DeleteTranslation(s: Store, translationId: int): (r: Store)
    ensures r.lists == s.lists
    ensures forall t :: t in r.translations <==> t in s.translations && t.id != translationId
    ensures forall e :: e in r.entries <==> e in s.entries && e.translationId != translationId
    ensures Valid(s) ==> Valid(r)
  {
    var keepEntry := (e: ListEntry) => e.translationId != translationId;
    var keepRow := (t: Translation) => t.id != translationId;
    var r := Store(Query.Filter(s.translations, keepRow), s.lists, Query.Filter(s.entries, keepEntry));
    assert Valid(s) ==> Valid(r) by {
      if Valid(s) {
        Query.FilterPairwise(s.entries, keepEntry, EntriesDiffer);
        Query.FilterPairwise(s.translations, keepRow, TranslationIdsDiffer);
      }
    }
    r
  }

  // ---- queries ---------------------------------------------------------

  function TimestampOf(t: Translation): string { t.timestamp }
  function NameOf(l: TranslationList): string { l.name }

  /** `get_translations`: the `limit` newest rows (all of them for a
      negative limit), newest timestamp first. Every row left out is no
      newer than every row returned. */
  function GetTranslations(s: Store, limit: int): (r: seq<Translation>)
    ensures |r| == if 0 <= limit < |s.translations| then limit else |s.translations|
    ensures Query.SortedBy(r, TimestampOf, true)
    ensures multiset(r) <= multiset(s.translations)
    ensures forall t :: t in r ==> t in s.translations
    ensures forall t, u :: t in multiset(s.translations) - multiset(r) && u in r ==>
      Query.LexLe(t.timestamp, u.timestamp)
    ensures limit < 0 || limit >= |s.translations| ==> multiset(r) == multiset(s.translations)
  {
    var sorted := Query.SortBy(s.translations, TimestampOf, true);
    Query.LimitKeepsFront(sorted, limit, TimestampOf, true);
    var r := Query.Limit(sorted, limit);
    assert forall t :: t in r ==> t in multiset(r);
    forall t, u | t in multiset(s.translations) - multiset(r) && u in r
      ensures Query.LexLe(t.timestamp, u.timestamp)
    {
      assert Query.Before(TimestampOf, true, u, t);
    }
    r
  }

  /** `get_lists`: every list, ordered by name. */
  function GetLists(s: Store): (r: seq<TranslationList>)
    ensures Query.SortedBy(r, NameOf, false)
    ensures multiset(r) == multiset(s.lists)
  {
    Query.SortBy(s.lists, NameOf, false)
  }

  /** The rows of `translations JOIN list_entries ON t.id = le.translation_id
      WHERE le.list_id = listId`, one per matching entry. */
  function Join(ts: seq<Translation>, es: seq<ListEntry>, listId: int): (r: seq<Translation>)
    ensures forall t :: t in r <==>
      t in ts && exists e :: e in es && Links(e, listId, t.id)
    decreases |es|
  {
    if |es| == 0 then []
    else
      var e := es[0];
      var here := if e.listId == listId
        then Query.Filter(ts, (t: Translation) => t.id == e.translationId) else [];
      assert forall t :: t in here <==> t in ts && Links(e, listId, t.id);
      var rest := Join(ts, es[1..], listId);
      assert forall x :: x in es <==> x == e || x in es[1..];
      here + rest
  }

  /** The join of a table with distinct ids over entries that never repeat a
      link yields no two rows with the same id. */
  lemma {:induction false} JoinHasDistinctIds(ts: seq<Translation>, es: seq<ListEntry>, listId: int)
    requires Query.Pairwise(ts, TranslationIdsDiffer)
    requires Query.Pairwise(es, EntriesDiffer)
    ensures Query.Pairwise(Join(ts, es, listId), TranslationIdsDiffer)
    decreases |es|
  {
    if |es| > 0 {
      var e := es[0];
      var keep := (t: Translation) => t.id == e.translationId;
      var here := if e.listId == listId then Query.Filter(ts, keep) else [];
      var rest := Join(ts, es[1..], listId);
      assert Query.Pairwise(es[1..], EntriesDiffer) by {
        forall i, j | 0 <= i < j < |es[1..]| ensures EntriesDiffer(es[1..][i], es[1..][j]) {
          assert es[1..][i] == es[i + 1] && es[1..][j] == es[j + 1];
        }
      }
      JoinHasDistinctIds(ts, es[1..], listId);
      Query.FilterPairwise(ts, keep, TranslationIdsDiffer);
      forall x, y | x in here && y in rest ensures TranslationIdsDiffer(x, y) {
        var e' :| e' in es[1..] && Links(e', listId, y.id);
        var k :| 0 <= k < |es[1..]| && es[1..][k] == e';
        assert EntriesDiffer(es[0], es[k + 1]);
      }
      Query.AppendPairwise(here, rest, TranslationIdsDiffer);
      assert Join(ts, es, listId) == here + rest;
    }
  }

  /** Rows with pairwise distinct ids occur once each. */
  lemma {:induction false} DistinctIdsOccurOnce(ts: seq<Translation>)
    requires Query.Pairwise(ts, TranslationIdsDiffer)
    ensures forall t :: multiset(ts)[t] <= 1
    decreases |ts|
  {
    if |ts| > 0 {
      assert Query.Pairwise(ts[1..], TranslationIdsDiffer) by {
        forall i, j | 0 <= i < j < |ts[1..]| ensures TranslationIdsDiffer(ts[1..][i], ts[1..][j]) {
          assert ts[1..][i] == ts[i + 1] && ts[1..][j] == ts[j + 1];
        }
      }
      DistinctIdsOccurOnce(ts[1..]);
      assert ts == [ts[0]] + ts[1..];
      assert multiset(ts) == multiset{ts[0]} + multiset(ts[1..]);
      assert ts[0] !in ts[1..] by {
        forall k | 0 <= k < |ts[1..]| ensures ts[1..][k] != ts[0] {
          assert TranslationIdsDiffer(ts[0], ts[k + 1]);
        }
      }
    }
  }

  /** Membership of a translation in a list. */
  predicate InList(s: Store, listId: int, t: Translation) {
    t in s.translations && Linked(s, listId, t.id)
  }

  /** `get_list_translations`: exactly the translations linked to the list,
      newest first. */
  function GetListTranslations(s: Store, listId: int): (r: seq<Translation>)
    ensures forall t :: t in r <==> InList(s, listId, t)
    ensures Query.SortedBy(r, TimestampOf, true)
    ensures Valid(s) ==> forall t :: multiset(r)[t] <= 1
  {
    var j := Join(s.translations, s.entries, listId);
    var r := Query.SortBy(j, TimestampOf, true);
    ListRowsOccurOnce(s, listId);
    assert forall t :: t in r <==> t in j by {
      forall t ensures t in r <==> t in j {
        assert t in r <==> t in multiset(r);
        assert t in j <==> t in multiset(j);
      }
    }
    r
  }

  lemma ListRowsOccurOnce(s: Store, listId: int)
    ensures Valid(s) ==> forall t :: multiset(Join(s.translations, s.entries, listId))[t] <= 1
  {
    if Valid(s) {
      JoinHasDistinctIds(s.translations, s.entries, listId);
      DistinctIdsOccurOnce(Join(s.translations, s.entries, listId));
    }
  }

  /** The pattern `search_translations` binds: the query between two `%`. */
  function SearchPattern(query: string): string {
    "%" + query + "%"
  }

  /** The `WHERE` clause of `search_translations`. */
  predicate MatchesSearch(pattern: string, t: Translation) {
    Like.Like(pattern, t.sourceText) || Like.Like(pattern, t.targetText)
  }

  /** `search_translations`: every translation whose source or target text
      is `LIKE '%query%'`, newest first. */
  function SearchTranslations(s: Store, query: string): (r: seq<Translation>)
    ensures forall t :: t in r <==> t in s.translations && MatchesSearch(SearchPattern(query), t)
    ensures forall t :: multiset(r)[t] ==
                        if MatchesSearch(SearchPattern(query), t) then multiset(s.translations)[t] else 0
    ensures Query.SortedBy(r, TimestampOf, true)
  {
    var pattern := SearchPattern(query);
    var hits := Query.Filter(s.translations, (t: Translation) => MatchesSearch(pattern, t));
    assert forall t :: t in hits <==> t in s.translations && MatchesSearch(pattern, t);
    var r := Query.SortBy(hits, TimestampOf, true);
    assert forall t :: t in r <==> t in hits by {
      forall t ensures t in r <==> t in hits {
        assert t in r <==> t in multiset(r);
        assert t in hits <==> t in multiset(hits);
      }
    }
    r
  }

  /** `get_translation_by_id`: the row with that rowid, if any. */
  function GetTranslationById(s: Store, id: int): (r: Option<Translation>)
    ensures r.Some? ==> r.value in s.translations && r.value.id == id
    ensures r.None? <==> forall t :: t in s.translations ==> t.id != id
  {
    var hits := Query.Filter(s.translations, (t: Translation) => t.id == id);
    if |hits| == 0 then None
    else
      assert hits[0] in hits;
      Some(hits[0])
  }

  /** In a valid store the row found by id is the one that was stored. */
  lemma GetTranslationByIdUnique(s: Store, t: Translation)
    requires Valid(s) && t in s.translations
    ensures GetTranslationById(s, t.id) == Some(t)
  {
    var r := GetTranslationById(s, t.id);
    var i :| 0 <= i < |s.translations| && s.translations[i] == t;
    var j :| 0 <= j < |s.translations| && s.translations[j] == r.value;
  }

  /** A newly added translation is found by the id `add_translation`
      returns. */
  lemma AddedTranslationFound(s: Store, now: string, sourceText: string, sourceLang: string,
                              targetText: string, targetLang: string)
    requires Valid(s)
    ensures var r := AddTranslation(s, now, sourceText, sourceLang, targetText, targetLang);
      GetTranslationById(r.store, r.id) ==
        Some(Translation(r.id, now, sourceText, sourceLang, targetText, targetLang))
  {
    var r := AddTranslation(s, now, sourceText, sourceLang, targetText, targetLang);
    var t := Translation(r.id, now, sourceText, sourceLang, targetText, targetLang);
    assert r.store.translations[|s.translations|] == t;
    GetTranslationByIdUnique(r.store, t);
  }

  /** After `delete_translation` the translation is in no list's view. */
  lemma DeletedTranslationLeavesLists(s: Store, translationId: int, listId: int)
    ensures forall t :: t in GetListTranslations(DeleteTranslation(s, translationId), listId) ==>
      t.id != translationId
  {
  }

  /** Entries of other lists contribute no rows to a list's join. */
  lemma {:induction false} JoinOtherLists(ts: seq<Translation>, es: seq<ListEntry>, listId: int)
    requires forall e :: e in es ==> e.listId != listId
    ensures Join(ts, es, listId) == []
    decreases |es|
  {
    if |es| > 0 {
      assert es[0] in es;
      assert forall e :: e in es[1..] ==> e in es;
      JoinOtherLists(ts, es[1..], listId);
    }
  }

  /** After `delete_list` the list's view is empty. */
  lemma DeletedListIsEmpty(s: Store, listId: int)
    ensures GetListTranslations(DeleteList(s, listId), listId) == []
  {
    var d := DeleteList(s, listId);
    JoinOtherLists(d.translations, d.entries, listId);
  }

  /** For a query without `%` or `_`, the search finds exactly the
      translations whose source or target text contains the query, ignoring
      ASCII case. */
  lemma SearchIsSubstringMatch(s: Store, query: string, t: Translation)
    requires Like.NoWildcards(query)
    ensures t in SearchTranslations(s, query) <==>
      t in s.translations &&
      (Text.Contains(Text.ToLower(t.sourceText), Text.ToLower(query)) ||
       Text.Contains(Text.ToLower(t.targetText), Text.ToLower(query)))
  {
    assert SearchPattern(query) == "%" + query + "%";
    Like.SubstringSearch(query, t.sourceText);
    Like.SubstringSearch(query, t.targetText);
  }
}
