/** The Anki export of `export_list_for_anki`: a header line, then one
    `;`-separated line per translation of the list, in the order the list
    view returns them. The two free-text fields are made safe for the format
    (`;` becomes `,` and a line break becomes a space); the language codes
    are written as they are. A reader of the format is defined alongside so
    that the export can be shown to be read back field by field. */
module Anki {
  import opened Wrappers
  import Text
  import Database

  const HeaderLine := "source;target;source_lang;target_lang"
  const Header := HeaderLine + "\n"

  /** One card as a reader of the export sees it. */
  datatype Card = Card(front: string, back: string, frontLang: string, backLang: string)

  /** `;` becomes `,`, then a line break becomes a space. */
  function Sanitize(s: string): (r: string)
    ensures |r| == |s|
    ensures ';' !in r && '\n' !in r
    ensures forall i :: 0 <= i < |s| && s[i] != ';' && s[i] != '\n' ==> r[i] == s[i]
  {
    Text.ReplaceChar(Text.ReplaceChar(s, ';', ','), '\n', ' ')
  }

  /** Text that passes through `Sanitize` unchanged. */
  lemma SanitizeKeepsCleanText(s: string)
    requires ';' !in s && '\n' !in s
    ensures Sanitize(s) == s
  {
  }

  /** The export line of a translation, without its line break. */
  function LineText(t: Database.Translation): string {
    Sanitize(t.sourceText) + ";" + Sanitize(t.targetText) + ";" + t.sourceLang + ";" + t.targetLang
  }

  function Lines(ts: seq<Database.Translation>): string
    decreases |ts|
  {
    if |ts| == 0 then "" else LineText(ts[0]) + "\n" + Lines(ts[1..])
  }

  /** The whole CSV text for a sequence of translations. */
  function ExportCsv(ts: seq<Database.Translation>): (r: string)
    ensures |r| >= |Header| && r[..|Header|] == Header
  {
    Header + Lines(ts)
  }

  /** `export_list_for_anki`. */
  function ExportListForAnki(s: Database.Store, listId: int): (r: string)
    ensures |r| >= |Header| && r[..|Header|] == Header
  {
    ExportCsv(Database.GetListTranslations(s, listId))
  }

  // ---- reading the format back -----------------------------------------

  /** Splits at every `sep`; the result always has at least one part. */
  function SplitOn(s: string, sep: char): (r: seq<string>)
    ensures |r| >= 1
    decreases |s|
  {
    if |s| == 0 then [""]
    else if s[0] == sep then [""] + SplitOn(s[1..], sep)
    else
      var rest := SplitOn(s[1..], sep);
      [[s[0]] + rest[0]] + rest[1..]
  }

  lemma {:induction false} SplitOnWithoutSep(a: string, sep: char)
    requires sep !in a
    ensures SplitOn(a, sep) == [a]
    decreases |a|
  {
    if |a| > 0 {
      SplitOnWithoutSep(a[1..], sep);
      assert [a[0]] + a[1..] == a;
    }
  }

  lemma {:induction false} SplitOnAfterPart(a: string, sep: char, b: string)
    requires sep !in a
    ensures SplitOn(a + [sep] + b, sep) == [a] + SplitOn(b, sep)
    decreases |a|
  {
    var s := a + [sep] + b;
    if |a| == 0 {
      assert s[0] == sep && s[1..] == b;
    } else {
      SplitOnAfterPart(a[1..], sep, b);
      assert s[0] == a[0];
      assert s[1..] == a[1..] + [sep] + b;
      assert [a[0]] + a[1..] == a;
    }
  }

  /** The text fields of a translation as the export leaves them. */
  function CardOf(t: Database.Translation): Card {
    Card(Sanitize(t.sourceText), Sanitize(t.targetText), t.sourceLang, t.targetLang)
  }

  function ParseRow(row: string): Option<Card> {
    var f := SplitOn(row, ';');
    if |f| == 4 then Some(Card(f[0], f[1], f[2], f[3])) else None
  }

  function ParseRows(rows: seq<string>): Option<seq<Card>>
    decreases |rows|
  {
    if |rows| == 0 then Some([])
    else match (ParseRow(rows[0]), ParseRows(rows[1..]))
      case (Some(c), Some(cs)) => Some([c] + cs)
      case _ => None
  }

  /** Reads an export: the header line, one row of four fields per card,
      and nothing after the final line break. */
  function ParseCsv(csv: string): Option<seq<Card>> {
    var rows := SplitOn(csv, '\n');
    if |rows| < 2 || rows[0] != HeaderLine || rows[|rows| - 1] != "" then None
    else ParseRows(rows[1..|rows| - 1])
  }

  /** Language codes the format can carry unchanged. */
  predicate PlainCode(code: string) {
    ';' !in code && '\n' !in code
  }

  predicate PlainCodes(t: Database.Translation) {
    PlainCode(t.sourceLang) && PlainCode(t.targetLang)
  }

  lemma LineFields(t: Database.Translation)
    requires PlainCodes(t)
    ensures '\n' !in LineText(t)
    ensures ParseRow(LineText(t)) == Some(CardOf(t))
  {
    var a, b := Sanitize(t.sourceText), Sanitize(t.targetText);
    var c, d := t.sourceLang, t.targetLang;
    assert LineText(t) == a + [';'] + (b + [';'] + (c + [';'] + d));
    SplitOnAfterPart(a, ';', b + [';'] + (c + [';'] + d));
    SplitOnAfterPart(b, ';', c + [';'] + d);
    SplitOnAfterPart(c, ';', d);
    SplitOnWithoutSep(d, ';');
  }

  function CardsOf(ts: seq<Database.Translation>): (r: seq<Card>)
    ensures |r| == |ts| && forall i :: 0 <= i < |ts| ==> r[i] == CardOf(ts[i])
  {
    seq(|ts|, i requires 0 <= i < |ts| => CardOf(ts[i]))
  }

  function LineTexts(ts: seq<Database.Translation>): (r: seq<string>)
    ensures |r| == |ts| && forall i :: 0 <= i < |ts| ==> r[i] == LineText(ts[i])
  {
    seq(|ts|, i requires 0 <= i < |ts| => LineText(ts[i]))
  }

  lemma {:induction false} LinesSplit(ts: seq<Database.Translation>)
    requires forall i :: 0 <= i < |ts| ==> PlainCodes(ts[i])
    ensures SplitOn(Lines(ts), '\n') == LineTexts(ts) + [""]
    decreases |ts|
  {
    if |ts| > 0 {
      LineFields(ts[0]);
      LinesSplit(ts[1..]);
      SplitOnAfterPart(LineText(ts[0]), '\n', Lines(ts[1..]));
      assert LineText(ts[0]) + "\n" + Lines(ts[1..]) == LineText(ts[0]) + ['\n'] + Lines(ts[1..]);
      assert LineTexts(ts) == [LineText(ts[0])] + LineTexts(ts[1..]);
    }
  }

  lemma {:induction false} RowsParse(ts: seq<Database.Translation>)
    requires forall i :: 0 <= i < |ts| ==> PlainCodes(ts[i])
    ensures ParseRows(LineTexts(ts)) == Some(CardsOf(ts))
    decreases |ts|
  {
    if |ts| > 0 {
      LineFields(ts[0]);
      RowsParse(ts[1..]);
      assert LineTexts(ts)[1..] == LineTexts(ts[1..]);
      assert CardsOf(ts) == [CardOf(ts[0])] + CardsOf(ts[1..]);
    }
  }

  /** Reading an export back yields one card per translation, in order, with
      the sanitized texts and the language codes as stored, provided the
      codes themselves hold no separator. */
  lemma ExportRoundTrip(ts: seq<Database.Translation>)
    requires forall i :: 0 <= i < |ts| ==> PlainCodes(ts[i])
    ensures ParseCsv(ExportCsv(ts)) == Some(CardsOf(ts))
  {
    var csv := ExportCsv(ts);
    LinesSplit(ts);
    assert HeaderLine + "\n" + Lines(ts) == HeaderLine + ['\n'] + Lines(ts);
    assert csv == HeaderLine + ['\n'] + Lines(ts);
    SplitOnAfterPart(HeaderLine, '\n', Lines(ts));
    var rows := SplitOn(csv, '\n');
    assert rows == [HeaderLine] + LineTexts(ts) + [""];
    assert rows[1..|rows| - 1] == LineTexts(ts);
    RowsParse(ts);
  }

  /** Exporting a list yields exactly one card for each translation in the
      list, and nothing else. */
  lemma ExportListCards(s: Database.Store, listId: int)
    requires forall t :: t in s.translations ==> PlainCodes(t)
    ensures var cards := ParseCsv(ExportListForAnki(s, listId));
      cards.Some? &&
      (forall c :: c in cards.value ==>
        exists t :: Database.InList(s, listId, t) && c == CardOf(t)) &&
      (forall t :: Database.InList(s, listId, t) ==> CardOf(t) in cards.value)
  {
    var ts := Database.GetListTranslations(s, listId);
    assert forall i :: 0 <= i < |ts| ==> Database.InList(s, listId, ts[i]);
    ExportRoundTrip(ts);
    var cards := CardsOf(ts);
    forall c | c in cards
      ensures exists t :: Database.InList(s, listId, t) && c == CardOf(t)
    {
      var i :| 0 <= i < |cards| && cards[i] == c;
      assert ts[i] in ts;
    }
    forall t | Database.InList(s, listId, t) ensures CardOf(t) in cards {
      var i :| 0 <= i < |ts| && ts[i] == t;
      assert cards[i] == CardOf(t);
    }
  }
}
