/** `LocalizeDocument.parseDocument`: turns the rows of a CSV table into a document.
    The first row names the languages (its first cell heads the key column); each later
    row is skipped when it has no cells, becomes a blank line when its trimmed key is
    empty, a comment when the key matches the comment pattern, and otherwise a
    translation for every language column of the header. */
module LocalizeDocument {
  import opened Wrappers
  import opened Strings
  import opened Entries
  import opened CommentPattern

  /** `LocalizeDocument.ParseError`. */
  datatype ParseError = NoLangTitle | CannotReadComment(line: int)

  /** The parser's input: the rows of the CSV table. */
  datatype LocalizeDocument = LocalizeDocument(csvLines: seq<seq<string>>)

  /** `dropFirst()`. */
  function Tail<T>(s: seq<T>): (r: seq<T>)
    ensures s == [] ==> r == []
    ensures s != [] ==> [s[0]] + r == s
  {
    if s == [] then [] else s[1..]
  }

  // ---------------------------------------------------------------------------
  // Header
  // ---------------------------------------------------------------------------

  /** The language a header cell names: trimmed, lowercased, then `Language(code:)`. */
  function HeaderLanguage(cell: string): (r: Option<Language>)
    ensures r.Some? <==> |Trim(cell)| == 2
  {
    NewLanguage(Lower(Trim(cell)))
  }

  /** A header cell names the language with code `c`. */
  predicate HasCode(cell: string, c: string) {
    HeaderLanguage(cell).Some? && HeaderLanguage(cell).value.code == c
  }

  /** What one header cell contributes to the `compactMap`: its language, if any. */
  function CellLanguage(cell: string): (r: seq<Language>)
    ensures |r| <= 1 && forall l | l in r :: WellFormed(l)
  {
    match HeaderLanguage(cell)
    case Some(l) =>
      NewLanguageWellFormed(Lower(Trim(cell)));
      [l]
    case None => []
  }

  /** The `compactMap` over the header cells after the key column. */
  function HeaderLanguages(cells: seq<string>): (r: seq<Language>)
    ensures |r| <= |cells|
    ensures forall l | l in r :: WellFormed(l)
  {
    if cells == [] then [] else CellLanguage(cells[0]) + HeaderLanguages(cells[1..])
  }

  /** The languages are exactly those some header cell names, in header order. */
  lemma {:induction false} HeaderLanguagesMembers(cells: seq<string>, l: Language)
    ensures l in HeaderLanguages(cells) <==> exists i | 0 <= i < |cells| :: HeaderLanguage(cells[i]) == Some(l)
  {
    if cells != [] {
      HeaderLanguagesMembers(cells[1..], l);
      assert l in CellLanguage(cells[0]) <==> HeaderLanguage(cells[0]) == Some(l);
      NamedByHeadOrTail(cells, l);
    }
  }

  /** A cell names `l` when the first does or one of the rest does. */
  lemma NamedByHeadOrTail(cells: seq<string>, l: Language)
    requires cells != []
    ensures (exists i | 0 <= i < |cells| :: HeaderLanguage(cells[i]) == Some(l))
        <==> HeaderLanguage(cells[0]) == Some(l)
             || exists i | 0 <= i < |cells[1..]| :: HeaderLanguage(cells[1..][i]) == Some(l)
  {
    forall i | 1 <= i < |cells| ensures cells[1..][i - 1] == cells[i] {}
  }

  /** Header order is kept: the languages of two runs of cells are the two lists joined. */
  lemma {:induction false} HeaderLanguagesAppend(a: seq<string>, b: seq<string>)
    ensures HeaderLanguages(a + b) == HeaderLanguages(a) + HeaderLanguages(b)
  {
    if a == [] {
      assert a + b == b;
    } else {
      assert (a + b)[0] == a[0] && (a + b)[1..] == a[1..] + b;
      HeaderLanguagesAppend(a[1..], b);
    }
  }

  /** Trimming before the lookup changes nothing: `Language(code:)` lowercases anyway. */
  lemma HeaderLanguageOfTrimmed(cell: string)
    ensures HeaderLanguage(cell) == NewLanguage(Trim(cell))
  {
    NewLanguageIgnoresCase(Trim(cell));
  }

  // ---------------------------------------------------------------------------
  // Entry lists
  // ---------------------------------------------------------------------------

  /** How many of the languages have code `c`. */
  function Occurrences(ls: seq<Language>, c: string): (n: nat)
    ensures n <= |ls|
    ensures n == 0 <==> c !in Codes(ls)
  {
    if ls == [] then 0
    else
      assert ls == [ls[0]] + ls[1..];
      (if ls[0].code == c then 1 else 0) + Occurrences(ls[1..], c)
  }

  function Repeat(e: Entry, n: nat): (r: seq<Entry>)
    ensures |r| == n && forall i | 0 <= i < n :: r[i] == e
  {
    seq(n, _ => e)
  }

  /** The dictionary built by `reduce(into:)`: an empty list per language code. */
  function InitEntries(ls: seq<Language>): (m: map<string, seq<Entry>>)
    ensures m.Keys == Codes(ls)
    ensures forall c | c in m :: m[c] == []
  {
    map c | c in Codes(ls) :: []
  }

  /** `entries[lang]?.append(e)`: nothing happens when the code has no list. */
  function AppendTo(m: map<string, seq<Entry>>, l: Language, e: Entry): (r: map<string, seq<Entry>>)
    ensures r.Keys == m.Keys
  {
    if l.code in m then m[l.code := m[l.code] + [e]] else m
  }

  lemma RepeatSucc(e: Entry, n: nat)
    ensures [e] + Repeat(e, n) == Repeat(e, n + 1)
  {
  }

  /** `languages.forEach { entries[$0]?.append(e) }`: every code gets `e` once per
      language carrying it. */
  function AppendToAll(m: map<string, seq<Entry>>, ls: seq<Language>, e: Entry): (r: map<string, seq<Entry>>)
    ensures r.Keys == m.Keys
  {
    if ls == [] then m else AppendToAll(AppendTo(m, ls[0], e), ls[1..], e)
  }

  /** Seen from one code, `AppendToAll` appends `e` once per language carrying it. */
  lemma {:induction false} AppendToAllAt(m: map<string, seq<Entry>>, ls: seq<Language>, e: Entry, c: string)
    requires c in m
    ensures AppendToAll(m, ls, e)[c] == m[c] + Repeat(e, Occurrences(ls, c))
  {
    if ls != [] {
      var m' := AppendTo(m, ls[0], e);
      AppendToAt(m, ls[0], e, c);
      AppendToAllAt(m', ls[1..], e, c);
      var k := Occurrences(ls[1..], c);
      if c == ls[0].code {
        RepeatSucc(e, k);
        assert m[c] + [e] + Repeat(e, k) == m[c] + ([e] + Repeat(e, k));
      } else {
        assert m'[c] == m[c];
      }
    }
  }

  /** Seen from one code, `AppendTo` appends `e` exactly when the language carries it. */
  lemma AppendToAt(m: map<string, seq<Entry>>, l: Language, e: Entry, c: string)
    requires c in m
    ensures AppendTo(m, l, e)[c] == if l.code == c then m[c] + [e] else m[c]
  {
  }

  /** The translations one row gives the code `c` through the zip of header cells
      `hs` and row cells `cs` (the shorter of the two bounds it). */
  function TranslationsFor(c: string, key: string, hs: seq<string>, cs: seq<string>): (r: seq<Entry>)
    ensures |r| <= |hs| && |r| <= |cs|
    ensures forall e | e in r :: e.Translation? && e.key == key
  {
    if hs == [] || cs == [] then []
    else
      var own := NewLanguage(hs[0]);
      (if own.Some? && own.value.code == c then [Translation(key, EscapeQuotes(cs[0]))] else [])
      + TranslationsFor(c, key, hs[1..], cs[1..])
  }

  /** The zip at LocalizeDocument.swift:60-64: each header cell is turned into a
      language as it stands, and the escaped cell is appended to that language's list. */
  function AppendTranslations(m: map<string, seq<Entry>>, key: string, hs: seq<string>, cs: seq<string>): (r: map<string, seq<Entry>>)
    ensures r.Keys == m.Keys
  {
    if hs == [] || cs == [] then m
    else
      var m' := match NewLanguage(hs[0])
        case Some(l) => AppendTo(m, l, Translation(key, EscapeQuotes(cs[0])))
        case None => m;
      AppendTranslations(m', key, hs[1..], cs[1..])
  }

  /** Seen from one code, the zip appends the translations of exactly the columns whose
      header cell names that code. */
  lemma {:induction false} AppendTranslationsAt(m: map<string, seq<Entry>>, key: string, hs: seq<string>, cs: seq<string>, c: string)
    requires c in m
    ensures AppendTranslations(m, key, hs, cs)[c] == m[c] + TranslationsFor(c, key, hs, cs)
  {
    if hs != [] && cs != [] {
      var own := NewLanguage(hs[0]);
      var t := [Translation(key, EscapeQuotes(cs[0]))];
      var m' := if own.Some? then AppendTo(m, own.value, t[0]) else m;
      assert AppendTranslations(m, key, hs, cs) == AppendTranslations(m', key, hs[1..], cs[1..]);
      AppendTranslationsAt(m', key, hs[1..], cs[1..], c);
      var rest := TranslationsFor(c, key, hs[1..], cs[1..]);
      assert TranslationsFor(c, key, hs, cs) == (if own.Some? && own.value.code == c then t else []) + rest;
      if own.Some? && own.value.code == c {
        assert m[c] + t + rest == m[c] + (t + rest);
      } else {
        var empty: seq<Entry> := [];
        assert empty + rest == rest;
      }
    }
  }

  /** The header cells as the translation lookup sees them, trimmed like the language
      list (see the finding in README.md). */
  function TrimCells(hs: seq<string>): (r: seq<string>)
    ensures |r| == |hs| && forall i | 0 <= i < |hs| :: r[i] == Trim(hs[i])
  {
    seq(|hs|, i requires 0 <= i < |hs| => Trim(hs[i]))
  }

  /** As written, a header cell with surrounding spaces names a language in the header
      yet receives no translation, because the zip looks the untrimmed cell up. The
      trimmed lookup records it. */
  lemma UntrimmedHeaderDropsTranslation(m: map<string, seq<Entry>>, key: string, cell: string, value: string)
    requires HeaderLanguage(cell).Some? && HeaderLanguage(cell).value.code in m
    requires |cell| != 2
    ensures HeaderLanguages([cell]) == [HeaderLanguage(cell).value]
    ensures AppendTranslations(m, key, [cell], [value]) == m
    ensures var c := HeaderLanguage(cell).value.code;
            AppendTranslations(m, key, TrimCells([cell]), [value]) == m[c := m[c] + [Translation(key, EscapeQuotes(value))]]
  {
    HeaderLanguageOfTrimmed(cell);
    var c := HeaderLanguage(cell).value.code;
    var l := NewLanguage(Trim(cell)).value;
    var t := Translation(key, EscapeQuotes(value));
    var cells := TrimCells([cell]);
    assert cells == [Trim(cell)];
    assert AppendTranslations(m, key, cells, [value]) == AppendTranslations(AppendTo(m, l, t), key, [], []);
  }

  // ---------------------------------------------------------------------------
  // Rows
  // ---------------------------------------------------------------------------

  /** A row that is neither skipped, blank nor a comment. */
  predicate IsTranslationRow(row: seq<string>) {
    row != [] && Trim(row[0]) != [] && CommentBody(Trim(row[0])).None?
  }

  /** What one row appends to the list of code `c`. */
  function RowEntries(ls: seq<Language>, cols: seq<string>, row: seq<string>, c: string): seq<Entry> {
    if row == [] then []
    else
      var key := Trim(row[0]);
      if key == [] then Repeat(BlankLine, Occurrences(ls, c))
      else match CommentBody(key)
        case Some(text) => Repeat(Comment(text), Occurrences(ls, c))
        case None => TranslationsFor(c, key, cols, row[1..])
  }

  /** The body of the `forEach` over the data rows. */
  function ApplyRow(ls: seq<Language>, cols: seq<string>, m: map<string, seq<Entry>>, row: seq<string>): (r: map<string, seq<Entry>>)
    ensures r.Keys == m.Keys
  {
    if row == [] then m
    else
      var key := Trim(row[0]);
      if key == [] then AppendToAll(m, ls, BlankLine)
      else match CommentBody(key)
        case Some(text) => AppendToAll(m, ls, Comment(text))
        case None => AppendTranslations(m, key, cols, row[1..])
  }

  /** Everything the rows append to the list of code `c`, in row order. */
  function AllRowEntries(ls: seq<Language>, cols: seq<string>, rows: seq<seq<string>>, c: string): seq<Entry> {
    if rows == [] then [] else RowEntries(ls, cols, rows[0], c) + AllRowEntries(ls, cols, rows[1..], c)
  }

  /** The `forEach` over the data rows. */
  function ApplyRows(ls: seq<Language>, cols: seq<string>, m: map<string, seq<Entry>>, rows: seq<seq<string>>): (r: map<string, seq<Entry>>)
    ensures r.Keys == m.Keys
  {
    if rows == [] then m else ApplyRows(ls, cols, ApplyRow(ls, cols, m, rows[0]), rows[1..])
  }

  lemma Associative(a: seq<Entry>, b: seq<Entry>, c: seq<Entry>)
    ensures a + b + c == a + (b + c)
  {
  }

  /** Seen from one code, a row appends what `RowEntries` says. */
  lemma ApplyRowAt(ls: seq<Language>, cols: seq<string>, m: map<string, seq<Entry>>, row: seq<string>, c: string)
    requires c in m
    ensures ApplyRow(ls, cols, m, row)[c] == m[c] + RowEntries(ls, cols, row, c)
  {
    if row != [] {
      var key := Trim(row[0]);
      if key == [] {
        AppendToAllAt(m, ls, BlankLine, c);
      } else if CommentBody(key).Some? {
        AppendToAllAt(m, ls, Comment(CommentBody(key).value), c);
      } else {
        AppendTranslationsAt(m, key, cols, row[1..], c);
      }
    }
  }

  /** Seen from one code, the rows append their entries in row order. */
  lemma {:induction false} ApplyRowsAt(ls: seq<Language>, cols: seq<string>, m: map<string, seq<Entry>>, rows: seq<seq<string>>, c: string)
    requires c in m
    ensures ApplyRows(ls, cols, m, rows)[c] == m[c] + AllRowEntries(ls, cols, rows, c)
  {
    if rows != [] {
      var m' := ApplyRow(ls, cols, m, rows[0]);
      assert ApplyRows(ls, cols, m, rows) == ApplyRows(ls, cols, m', rows[1..]);
      assert AllRowEntries(ls, cols, rows, c) == RowEntries(ls, cols, rows[0], c) + AllRowEntries(ls, cols, rows[1..], c);
      ApplyRowAt(ls, cols, m, rows[0], c);
      ApplyRowsAt(ls, cols, m', rows[1..], c);
      Associative(m[c], RowEntries(ls, cols, rows[0], c), AllRowEntries(ls, cols, rows[1..], c));
    }
  }

  // ---------------------------------------------------------------------------
  // The whole parse
  // ---------------------------------------------------------------------------

  /** The builder once the header row is known: the languages `hs` names, then the rows
      appended through a zip whose header cells are `cols`. */
  function BuildFromHeader(hs: seq<string>, cols: seq<string>, rows: seq<seq<string>>): (r: Result<Document, ParseError>)
    ensures r.Err? <==> HeaderLanguages(hs) == []
    ensures r.Err? ==> r.error == NoLangTitle
    ensures r.Ok? ==> r.value.languages == HeaderLanguages(hs) && r.value.entries.Keys == Codes(r.value.languages)
    ensures r.Ok? ==> forall c | c in r.value.entries :: r.value.entries[c] == AllRowEntries(r.value.languages, cols, rows, c)
  {
    var ls := HeaderLanguages(hs);
    if ls == [] then Err(NoLangTitle)
    else
      var m := InitEntries(ls);
      var entries := ApplyRows(ls, cols, m, rows);
      assert forall c | c in entries :: entries[c] == AllRowEntries(ls, cols, rows, c) by {
        forall c | c in entries
          ensures entries[c] == AllRowEntries(ls, cols, rows, c)
        {
          ApplyRowsAt(ls, cols, m, rows, c);
        }
      }
      Ok(Document(ls, entries))
  }

  /** `parseDocument()` as written, with the thrown error as `Err`: the zip pairs each
      row with the header cells as they stand. */
  function BuildDocument(csvLines: seq<seq<string>>): (r: Result<Document, ParseError>)
    ensures csvLines == [] ==> r == Ok(EmptyDocument)
    ensures csvLines != [] ==> (r.Err? <==> HeaderLanguages(Tail(csvLines[0])) == [])
    ensures r.Err? ==> r.error == NoLangTitle
    ensures r.Ok? ==> r.value.entries.Keys == Codes(r.value.languages)
    ensures r.Ok? ==> forall l | l in r.value.languages :: WellFormed(l)
    ensures r.Ok? && csvLines != [] ==>
      var hs := Tail(csvLines[0]);
      && r.value.languages == HeaderLanguages(hs)
      && forall c | c in r.value.entries ::
           r.value.entries[c] == AllRowEntries(r.value.languages, hs, csvLines[1..], c)
  {
    if csvLines == [] then Ok(EmptyDocument)
    else BuildFromHeader(Tail(csvLines[0]), Tail(csvLines[0]), csvLines[1..])
  }

  /** The corrected `parseDocument()`: the zip looks up the header cells trimmed, as the
      language list does (see the finding in README.md). */
  function BuildTrimmedDocument(csvLines: seq<seq<string>>): (r: Result<Document, ParseError>)
    ensures csvLines == [] ==> r == Ok(EmptyDocument)
    ensures csvLines != [] ==> (r.Err? <==> HeaderLanguages(Tail(csvLines[0])) == [])
    ensures r.Err? ==> r.error == NoLangTitle
    ensures r.Ok? ==> r.value.entries.Keys == Codes(r.value.languages)
    ensures r.Ok? ==> forall l | l in r.value.languages :: WellFormed(l)
    ensures r.Ok? && csvLines != [] ==>
      var hs := Tail(csvLines[0]);
      && r.value.languages == HeaderLanguages(hs)
      && forall c | c in r.value.entries ::
           r.value.entries[c] == AllRowEntries(r.value.languages, TrimCells(hs), csvLines[1..], c)
  {
    if csvLines == [] then Ok(EmptyDocument)
    else BuildFromHeader(Tail(csvLines[0]), TrimCells(Tail(csvLines[0])), csvLines[1..])
  }

  /** Every header cell is already free of surrounding spaces. */
  predicate TrimmedCells(hs: seq<string>) {
    forall k | 0 <= k < |hs| :: Trim(hs[k]) == hs[k]
  }

  lemma TrimCellsOfTrimmed(hs: seq<string>)
    requires TrimmedCells(hs)
    ensures TrimCells(hs) == hs
  {
  }

  /** With a header whose cells carry no surrounding spaces, the code as written and the
      corrected builder agree. */
  lemma BuildersAgree(csvLines: seq<seq<string>>)
    requires csvLines != [] ==> TrimmedCells(Tail(csvLines[0]))
    ensures BuildDocument(csvLines) == BuildTrimmedDocument(csvLines)
  {
    if csvLines != [] {
      TrimCellsOfTrimmed(Tail(csvLines[0]));
    }
  }

  lemma CodesOfOne(l: Language)
    ensures Codes([l]) == {l.code}
  {
  }

  lemma SingleKey(m: map<string, seq<Entry>>, c: string, es: seq<Entry>)
    requires m.Keys == {c} && m[c] == es
    ensures m == map[c := es]
  {
  }

  /** A single translation row gives each code what the zip gives it. */
  lemma OneTranslationRow(ls: seq<Language>, cols: seq<string>, row: seq<string>, c: string)
    requires IsTranslationRow(row)
    ensures AllRowEntries(ls, cols, [row], c) == TranslationsFor(c, Trim(row[0]), cols, row[1..])
  {
    assert [row][1..] == [];
  }

  /** The zip of one header cell with one row cell. */
  lemma OneCellZip(c: string, key: string, h: string, cell: string)
    ensures TranslationsFor(c, key, [h], [cell])
         == if NewLanguage(h).Some? && NewLanguage(h).value.code == c then [Translation(key, EscapeQuotes(cell))] else []
  {
    assert [h][1..] == [] && [cell][1..] == [];
  }

  /** A header of one cell `h` builds a document of the one language `h` names. */
  lemma OneColumnBuild(h: string, cols: seq<string>, row: seq<string>, es: seq<Entry>)
    requires HeaderLanguage(h).Some?
    requires AllRowEntries([HeaderLanguage(h).value], cols, [row], HeaderLanguage(h).value.code) == es
    ensures BuildFromHeader([h], cols, [row])
         == Ok(Document([HeaderLanguage(h).value], map[HeaderLanguage(h).value.code := es]))
  {
    var l := HeaderLanguage(h).value;
    assert HeaderLanguages([h]) == [l];
    CodesOfOne(l);
    var d := BuildFromHeader([h], cols, [row]).value;
    SingleKey(d.entries, l.code, es);
  }

  /** As written, a header cell `h` that names a language only once trimmed leaves that
      language's list empty under a translation row. */
  lemma UntrimmedCellDocument(head: string, h: string, l: Language, row: seq<string>)
    requires HeaderLanguage(h) == Some(l) && NewLanguage(h).None?
    requires IsTranslationRow(row) && |row| == 2
    ensures BuildDocument([[head, h], row]) == Ok(Document([l], map[l.code := []]))
  {
    var table := [[head, h], row];
    assert Tail(table[0]) == [h] && table[1..] == [row];
    assert row[1..] == [row[1]];
    OneTranslationRow([l], [h], row, l.code);
    OneCellZip(l.code, Trim(row[0]), h, row[1]);
    OneColumnBuild(h, [h], row, []);
  }

  /** The corrected builder gives the language of such a cell the row's translation. */
  lemma TrimmedCellDocument(head: string, h: string, l: Language, row: seq<string>)
    requires HeaderLanguage(h) == Some(l)
    requires IsTranslationRow(row) && |row| == 2
    ensures BuildTrimmedDocument([[head, h], row])
         == Ok(Document([l], map[l.code := [Translation(Trim(row[0]), EscapeQuotes(row[1]))]]))
  {
    var table := [[head, h], row];
    assert Tail(table[0]) == [h] && table[1..] == [row];
    assert row[1..] == [row[1]];
    var t := Translation(Trim(row[0]), EscapeQuotes(row[1]));
    HeaderLanguageOfTrimmed(h);
    assert TrimCells([h]) == [Trim(h)];
    OneTranslationRow([l], [Trim(h)], row, l.code);
    OneCellZip(l.code, Trim(row[0]), Trim(h), row[1]);
    OneColumnBuild(h, [Trim(h)], row, [t]);
  }

  /** The header cell `" en"` names `en`, yet as it stands it is no language. */
  lemma UntrimmedHeaderCell()
    ensures HeaderLanguage(" en") == Some(Language("en", "EN")) && NewLanguage(" en").None?
  {
    TrimAt(" en", 1, 3);
    assert " en"[1..3] == "en";
    assert Lower("en") == "en";
    assert Upper("en") == "EN";
    HeaderLanguageOfTrimmed(" en");
  }

  /** The data row of the finding is a translation row with nothing to trim. */
  lemma UntrimmedTableRow(row: seq<string>)
    requires row == ["hello", "Hello"]
    ensures IsTranslationRow(row) && Trim(row[0]) == "hello" && EscapeQuotes(row[1]) == "Hello"
  {
    PlainKey("hello");
    EscapeQuotesWithoutQuotes("Hello");
  }

  /** A key that neither starts with a slash nor is surrounded by whitespace is a
      translation key as it stands. */
  lemma PlainKey(key: string)
    requires key != [] && key[0] != '/' && !IsTrimSpace(key[0]) && !IsTrimSpace(key[|key| - 1])
    ensures Trim(key) == key && CommentBody(key).None?
  {
    TrimUnchanged(key);
  }

  /** As written, the header `" en"` lists the language `en` and yet its list stays empty. */
  lemma UntrimmedHeaderDocument()
    ensures BuildDocument([["key", " en"], ["hello", "Hello"]])
         == Ok(Document([Language("en", "EN")], map["en" := []]))
  {
    UntrimmedHeaderCell();
    UntrimmedTableRow(["hello", "Hello"]);
    UntrimmedCellDocument("key", " en", Language("en", "EN"), ["hello", "Hello"]);
  }

  /** The corrected builder gives `en` the row's translation for the same table. */
  lemma TrimmedHeaderDocument()
    ensures BuildTrimmedDocument([["key", " en"], ["hello", "Hello"]])
         == Ok(Document([Language("en", "EN")], map["en" := [Translation("hello", "Hello")]]))
  {
    UntrimmedHeaderCell();
    UntrimmedTableRow(["hello", "Hello"]);
    TrimmedCellDocument("key", " en", Language("en", "EN"), ["hello", "Hello"]);
  }

  /** A parsed document survives the keyed-record encoding unchanged. */
  lemma ParsedDocumentRoundTrip(csvLines: seq<seq<string>>)
    requires BuildDocument(csvLines).Ok?
    ensures DecodeDocument(EncodeDocument(BuildDocument(csvLines).value)) == Ok(BuildDocument(csvLines).value)
  {
    DocumentRoundTripExact(BuildDocument(csvLines).value);
  }

  // ---------------------------------------------------------------------------
  // Alignment of the language lists
  // ---------------------------------------------------------------------------

  /** No two header cells name the same code. */
  predicate DistinctCodes(hs: seq<string>) {
    forall i, j | 0 <= i < j < |hs| && HeaderLanguage(hs[i]).Some? && HeaderLanguage(hs[j]).Some? ::
      HeaderLanguage(hs[i]).value.code != HeaderLanguage(hs[j]).value.code
  }

  /** Every translation row has a cell for every column of a header `width` cells wide. */
  predicate WideEnough(rows: seq<seq<string>>, width: nat) {
    forall row | row in rows && IsTranslationRow(row) :: |row| >= width
  }

  /** The entry a non-empty row gives the language of column `col`. */
  function RowLine(row: seq<string>, col: nat): Entry
    requires row != [] && (IsTranslationRow(row) ==> col < |row|)
  {
    var key := Trim(row[0]);
    if key == [] then BlankLine
    else match CommentBody(key)
      case Some(text) => Comment(text)
      case None => Translation(key, EscapeQuotes(row[col]))
  }

  /** The entries of column `col`, one per non-empty row. */
  function Lines(rows: seq<seq<string>>, col: nat): (r: seq<Entry>)
    requires WideEnough(rows, col + 1)
    ensures |r| <= |rows|
  {
    if rows == [] then []
    else
      assert rows[0] in rows;
      (if rows[0] == [] then [] else [RowLine(rows[0], col)]) + Lines(rows[1..], col)
  }

  /** Two entries at the same position of two languages: the same blank line, the same
      comment, or translations of the same key. */
  predicate SameLine(a: Entry, b: Entry) {
    (a.BlankLine? && b.BlankLine?) || (a.Comment? && a == b)
    || (a.Translation? && b.Translation? && a.key == b.key)
  }

  lemma OccurrencesOfHeader(hs: seq<string>, c: string)
    requires hs != []
    ensures Occurrences(HeaderLanguages(hs), c)
         == (if HasCode(hs[0], c) then 1 else 0) + Occurrences(HeaderLanguages(hs[1..]), c)
  {
    var own := CellLanguage(hs[0]);
    var rest := HeaderLanguages(hs[1..]);
    if own == [] {
      assert own + rest == rest;
    } else {
      assert (own + rest)[1..] == rest;
    }
  }

  lemma {:induction false} NoOccurrencesWithoutCode(hs: seq<string>, c: string)
    requires forall k | 0 <= k < |hs| :: !HasCode(hs[k], c)
    ensures Occurrences(HeaderLanguages(hs), c) == 0
  {
    if hs != [] {
      OccurrencesOfHeader(hs, c);
      forall k | 0 <= k < |hs[1..]| ensures !HasCode(hs[1..][k], c) {
        assert hs[1..][k] == hs[k + 1];
      }
      NoOccurrencesWithoutCode(hs[1..], c);
    }
  }

  /** No header cell but the one in column `i` names code `c`. */
  predicate OnlyAt(hs: seq<string>, i: nat, c: string) {
    forall k | 0 <= k < |hs| && k != i :: !HasCode(hs[k], c)
  }

  lemma OnlyAtOfDistinct(hs: seq<string>, i: nat, c: string)
    requires DistinctCodes(hs) && i < |hs| && HasCode(hs[i], c)
    ensures OnlyAt(hs, i, c)
  {
    forall k | 0 <= k < |hs| && k != i
      ensures !HasCode(hs[k], c)
    {
      if k < i {
        assert HeaderLanguage(hs[k]).Some? ==> HeaderLanguage(hs[k]).value.code != HeaderLanguage(hs[i]).value.code;
      } else {
        assert HeaderLanguage(hs[k]).Some? ==> HeaderLanguage(hs[i]).value.code != HeaderLanguage(hs[k]).value.code;
      }
    }
  }

  /** Dropping the first cell moves the only column one place to the left. */
  lemma OnlyAtTail(hs: seq<string>, i: nat, c: string)
    requires i < |hs| && OnlyAt(hs, i, c)
    ensures i == 0 ==> forall k | 0 <= k < |hs[1..]| :: !HasCode(hs[1..][k], c)
    ensures i > 0 ==> !HasCode(hs[0], c) && OnlyAt(hs[1..], i - 1, c)
  {
    forall k | 0 <= k < |hs[1..]|
      ensures hs[1..][k] == hs[k + 1]
    {
    }
  }

  lemma {:induction false} OccurrencesOfColumn(hs: seq<string>, i: nat, c: string)
    requires i < |hs| && OnlyAt(hs, i, c) && HasCode(hs[i], c)
    ensures Occurrences(HeaderLanguages(hs), c) == 1
  {
    OccurrencesOfHeader(hs, c);
    OnlyAtTail(hs, i, c);
    if i == 0 {
      NoOccurrencesWithoutCode(hs[1..], c);
    } else {
      assert hs[1..][i - 1] == hs[i];
      OccurrencesOfColumn(hs[1..], i - 1, c);
    }
  }

  /** One step of the zip over trimmed header cells. */
  lemma TranslationsForCons(c: string, key: string, hs: seq<string>, cs: seq<string>)
    requires hs != [] && cs != []
    ensures TranslationsFor(c, key, TrimCells(hs), cs)
         == (if HasCode(hs[0], c) then [Translation(key, EscapeQuotes(cs[0]))] else [])
            + TranslationsFor(c, key, TrimCells(hs[1..]), cs[1..])
  {
    HeaderLanguageOfTrimmed(hs[0]);
    assert TrimCells(hs)[1..] == TrimCells(hs[1..]);
  }

  lemma {:induction false} NoTranslationsWithoutCode(c: string, key: string, hs: seq<string>, cs: seq<string>)
    requires forall k | 0 <= k < |hs| :: !HasCode(hs[k], c)
    ensures TranslationsFor(c, key, TrimCells(hs), cs) == []
  {
    if hs != [] && cs != [] {
      TranslationsForCons(c, key, hs, cs);
      assert forall k | 0 <= k < |hs[1..]| :: hs[1..][k] == hs[k + 1];
      NoTranslationsWithoutCode(c, key, hs[1..], cs[1..]);
    }
  }

  /** With no other column naming `c`, the zip over the trimmed header cells gives `c`
      exactly the cell below column `i`. */
  lemma {:induction false} TrimmedTranslationsOfColumn(c: string, key: string, hs: seq<string>, cs: seq<string>, i: nat)
    requires i < |hs| <= |cs| && OnlyAt(hs, i, c) && HasCode(hs[i], c)
    ensures TranslationsFor(c, key, TrimCells(hs), cs) == [Translation(key, EscapeQuotes(cs[i]))]
  {
    TranslationsForCons(c, key, hs, cs);
    OnlyAtTail(hs, i, c);
    if i == 0 {
      NoTranslationsWithoutCode(c, key, hs[1..], cs[1..]);
    } else {
      assert hs[1..][i - 1] == hs[i];
      TrimmedTranslationsOfColumn(c, key, hs[1..], cs[1..], i - 1);
      assert cs[1..][i - 1] == cs[i];
    }
  }

  /** Column `col` of a row (column 0 being the key) is the only one the zip gives code `c`. */
  ghost predicate OnlyColumn(cols: seq<string>, c: string, col: nat) {
    1 <= col <= |cols|
    && forall key: string, cs: seq<string> | |cs| >= |cols| ::
         TranslationsFor(c, key, cols, cs) == [Translation(key, EscapeQuotes(cs[col - 1]))]
  }

  lemma RowEntriesOfColumn(ls: seq<Language>, cols: seq<string>, row: seq<string>, col: nat, c: string)
    requires Occurrences(ls, c) == 1 && OnlyColumn(cols, c, col)
    requires row != [] && (IsTranslationRow(row) ==> |row| >= |cols| + 1)
    ensures RowEntries(ls, cols, row, c) == [RowLine(row, col)]
  {
    var key := Trim(row[0]);
    if IsTranslationRow(row) {
      assert row[1..][col - 1] == row[col];
      assert TranslationsFor(c, key, cols, row[1..]) == [Translation(key, EscapeQuotes(row[col]))];
    } else if key == [] {
      RepeatOne(BlankLine);
    } else {
      RepeatOne(Comment(CommentBody(key).value));
    }
  }

  lemma RepeatOne(e: Entry)
    ensures Repeat(e, 1) == [e]
  {
  }

  lemma {:induction false} AllRowEntriesOfColumn(ls: seq<Language>, cols: seq<string>, rows: seq<seq<string>>, col: nat, c: string)
    requires Occurrences(ls, c) == 1 && OnlyColumn(cols, c, col)
    requires WideEnough(rows, |cols| + 1)
    ensures AllRowEntries(ls, cols, rows, c) == Lines(rows, col)
  {
    if rows != [] {
      var row := rows[0];
      assert row in rows;
      if row != [] {
        RowEntriesOfColumn(ls, cols, row, col, c);
      }
      assert WideEnough(rows[1..], |cols| + 1) by {
        forall row | row in rows[1..] ensures row in rows { }
      }
      AllRowEntriesOfColumn(ls, cols, rows[1..], col, c);
    }
  }

  lemma HeaderColumn(hs: seq<string>, i: nat, c: string)
    requires DistinctCodes(hs) && i < |hs| && HasCode(hs[i], c)
    ensures Occurrences(HeaderLanguages(hs), c) == 1
    ensures OnlyColumn(TrimCells(hs), c, i + 1)
  {
    OnlyAtOfDistinct(hs, i, c);
    OccurrencesOfColumn(hs, i, c);
    forall key: string, cs: seq<string> | |cs| >= |TrimCells(hs)|
      ensures TranslationsFor(c, key, TrimCells(hs), cs) == [Translation(key, EscapeQuotes(cs[i]))]
    {
      TrimmedTranslationsOfColumn(c, key, hs, cs, i);
    }
  }

  /** For the corrected builder: with header cells naming distinct codes and translation
      rows as wide as the header, the list of the language named in header column `i + 1`
      holds, row by row, the blank lines, the comments, and the escaped cells of that
      column. */
  lemma TrimmedEntriesFollowColumns(csvLines: seq<seq<string>>, i: nat)
    requires csvLines != [] && DistinctCodes(Tail(csvLines[0]))
    requires WideEnough(csvLines[1..], |csvLines[0]|)
    requires i < |Tail(csvLines[0])| && HeaderLanguage(Tail(csvLines[0])[i]).Some?
    ensures BuildTrimmedDocument(csvLines).Ok?
    ensures var d := BuildTrimmedDocument(csvLines).value;
            var c := HeaderLanguage(Tail(csvLines[0])[i]).value.code;
            c in d.entries && d.entries[c] == Lines(csvLines[1..], i + 1)
  {
    var hs := Tail(csvLines[0]);
    var l := HeaderLanguage(hs[i]).value;
    HeaderLanguagesMembers(hs, l);
    assert l in HeaderLanguages(hs);
    HeaderColumn(hs, i, l.code);
    AllRowEntriesOfColumn(HeaderLanguages(hs), TrimCells(hs), csvLines[1..], i + 1, l.code);
  }

  /** Two columns of the same rows line up entry by entry. */
  lemma {:induction false} LinesAligned(rows: seq<seq<string>>, i: nat, j: nat)
    requires WideEnough(rows, i + 1) && WideEnough(rows, j + 1)
    ensures |Lines(rows, i)| == |Lines(rows, j)|
    ensures forall p | 0 <= p < |Lines(rows, i)| :: SameLine(Lines(rows, i)[p], Lines(rows, j)[p])
  {
    if rows != [] {
      assert WideEnough(rows[1..], i + 1) && WideEnough(rows[1..], j + 1) by {
        forall row | row in rows[1..] ensures row in rows { }
      }
      LinesAligned(rows[1..], i, j);
      if rows[0] != [] {
        assert rows[0] in rows;
        var a := Lines(rows, i);
        var b := Lines(rows, j);
        assert a == [RowLine(rows[0], i)] + Lines(rows[1..], i);
        assert b == [RowLine(rows[0], j)] + Lines(rows[1..], j);
        forall p | 0 <= p < |a|
          ensures SameLine(a[p], b[p])
        {
          if p > 0 {
            assert a[p] == Lines(rows[1..], i)[p - 1];
            assert b[p] == Lines(rows[1..], j)[p - 1];
          }
        }
      }
    }
  }

  /** For the corrected builder: every language of such a document has one entry per
      non-empty data row, and the languages agree on blank lines, comments and keys at
      every position. */
  lemma TrimmedDocumentAligned(csvLines: seq<seq<string>>)
    requires csvLines != [] && DistinctCodes(Tail(csvLines[0]))
    requires WideEnough(csvLines[1..], |csvLines[0]|)
    requires BuildTrimmedDocument(csvLines).Ok?
    ensures var d := BuildTrimmedDocument(csvLines).value;
            forall c1, c2 | c1 in d.entries && c2 in d.entries ::
              |d.entries[c1]| == |d.entries[c2]|
              && forall p | 0 <= p < |d.entries[c1]| :: SameLine(d.entries[c1][p], d.entries[c2][p])
  {
    var d := BuildTrimmedDocument(csvLines).value;
    forall c1, c2 | c1 in d.entries && c2 in d.entries
      ensures |d.entries[c1]| == |d.entries[c2]|
      ensures forall p | 0 <= p < |d.entries[c1]| :: SameLine(d.entries[c1][p], d.entries[c2][p])
    {
      var i := TrimmedLinesOfCode(csvLines, c1);
      var j := TrimmedLinesOfCode(csvLines, c2);
      LinesAligned(csvLines[1..], i, j);
    }
  }

  /** Every code of such a document holds the lines of some column. */
  lemma TrimmedLinesOfCode(csvLines: seq<seq<string>>, c: string) returns (col: nat)
    requires csvLines != [] && DistinctCodes(Tail(csvLines[0]))
    requires WideEnough(csvLines[1..], |csvLines[0]|)
    requires BuildTrimmedDocument(csvLines).Ok? && c in BuildTrimmedDocument(csvLines).value.entries
    ensures WideEnough(csvLines[1..], col + 1)
    ensures BuildTrimmedDocument(csvLines).value.entries[c] == Lines(csvLines[1..], col)
  {
    var hs := Tail(csvLines[0]);
    var d := BuildTrimmedDocument(csvLines).value;
    assert d.languages == HeaderLanguages(hs) && c in Codes(d.languages);
    var i := ColumnOf(hs, d.languages, c);
    TrimmedEntriesFollowColumns(csvLines, i);
    col := i + 1;
    WideEnoughNarrower(csvLines[1..], |csvLines[0]|, col + 1);
  }

  lemma WideEnoughNarrower(rows: seq<seq<string>>, width: nat, narrower: nat)
    requires WideEnough(rows, width) && narrower <= width
    ensures WideEnough(rows, narrower)
  {
  }

  /** A header column naming a code of the document. */
  lemma ColumnOf(hs: seq<string>, ls: seq<Language>, c: string) returns (i: nat)
    requires ls == HeaderLanguages(hs) && c in Codes(ls)
    ensures i < |hs| && HeaderLanguage(hs[i]).Some? && HeaderLanguage(hs[i]).value.code == c
  {
    var l :| l in ls && l.code == c;
    HeaderLanguagesMembers(hs, l);
    i :| 0 <= i < |hs| && HeaderLanguage(hs[i]) == Some(l);
  }

  /** As written, with a header whose cells carry no surrounding spaces: with no other
      column naming `c`, the zip gives `c` exactly the cell below column `i`. */
  lemma TranslationsOfColumn(c: string, key: string, hs: seq<string>, cs: seq<string>, i: nat)
    requires TrimmedCells(hs)
    requires i < |hs| <= |cs| && OnlyAt(hs, i, c) && HasCode(hs[i], c)
    ensures TranslationsFor(c, key, hs, cs) == [Translation(key, EscapeQuotes(cs[i]))]
  {
    TrimCellsOfTrimmed(hs);
    TrimmedTranslationsOfColumn(c, key, hs, cs, i);
  }

  /** As written, with a header whose cells carry no surrounding spaces, naming distinct
      codes, and translation rows as wide as the header: the list of the language named
      in header column `i + 1` holds, row by row, the blank lines, the comments, and the
      escaped cells of that column. */
  lemma EntriesFollowColumns(csvLines: seq<seq<string>>, i: nat)
    requires csvLines != [] && TrimmedCells(Tail(csvLines[0])) && DistinctCodes(Tail(csvLines[0]))
    requires WideEnough(csvLines[1..], |csvLines[0]|)
    requires i < |Tail(csvLines[0])| && HeaderLanguage(Tail(csvLines[0])[i]).Some?
    ensures BuildDocument(csvLines).Ok?
    ensures var d := BuildDocument(csvLines).value;
            var c := HeaderLanguage(Tail(csvLines[0])[i]).value.code;
            c in d.entries && d.entries[c] == Lines(csvLines[1..], i + 1)
  {
    BuildersAgree(csvLines);
    TrimmedEntriesFollowColumns(csvLines, i);
  }

  /** As written, for such a header whose cells carry no surrounding spaces: every
      language has one entry per non-empty data row, and the languages agree on blank
      lines, comments and keys at every position. */
  lemma DocumentAligned(csvLines: seq<seq<string>>)
    requires csvLines != [] && TrimmedCells(Tail(csvLines[0])) && DistinctCodes(Tail(csvLines[0]))
    requires WideEnough(csvLines[1..], |csvLines[0]|)
    requires BuildDocument(csvLines).Ok?
    ensures var d := BuildDocument(csvLines).value;
            forall c1, c2 | c1 in d.entries && c2 in d.entries ::
              |d.entries[c1]| == |d.entries[c2]|
              && forall p | 0 <= p < |d.entries[c1]| :: SameLine(d.entries[c1][p], d.entries[c2][p])
  {
    BuildersAgree(csvLines);
    TrimmedDocumentAligned(csvLines);
  }

  // ---------------------------------------------------------------------------
  // The parse as the source performs it
  // ---------------------------------------------------------------------------

  /** `languages.forEach { entries[$0]?.append(e) }`. */
  method AppendToEach(entries: map<string, seq<Entry>>, languages: seq<Language>, e: Entry)
    returns (r: map<string, seq<Entry>>)
    ensures r == AppendToAll(entries, languages, e)
  {
    r := entries;
    var k := 0;
    while k < |languages|
      invariant 0 <= k <= |languages|
      invariant AppendToAll(r, languages[k..], e) == AppendToAll(entries, languages, e)
    {
      assert languages[k..][1..] == languages[k + 1..];
      r := AppendTo(r, languages[k], e);
      k := k + 1;
    }
    assert languages[k..] == [];
  }

  /** `zip(header, cells).forEach { … }` for one translation row. */
  method AppendRowTranslations(entries: map<string, seq<Entry>>, key: string, header: seq<string>, cells: seq<string>)
    returns (r: map<string, seq<Entry>>)
    ensures r == AppendTranslations(entries, key, header, cells)
  {
    r := entries;
    var k := 0;
    while k < |header| && k < |cells|
      invariant 0 <= k <= |header| && k <= |cells|
      invariant AppendTranslations(r, key, header[k..], cells[k..]) == AppendTranslations(entries, key, header, cells)
    {
      assert header[k..][1..] == header[k + 1..];
      assert cells[k..][1..] == cells[k + 1..];
      var language := NewLanguage(header[k]);
      if language.Some? {
        r := AppendTo(r, language.value, Translation(key, EscapeQuotes(cells[k])));
      }
      k := k + 1;
    }
    assert header[k..] == [] || cells[k..] == [];
  }

  /** The `compactMap` of the header cells into languages. */
  method ReadLanguages(header: seq<string>) returns (languages: seq<Language>)
    ensures languages == HeaderLanguages(header)
  {
    languages := [];
    var i := 0;
    while i < |header|
      invariant 0 <= i <= |header|
      invariant languages == HeaderLanguages(header[..i])
    {
      HeaderLanguagesSnoc(header, i);
      languages := languages + CellLanguage(header[i]);
      i := i + 1;
    }
    assert header[..i] == header;
  }

  /** One more header cell adds what that cell names. */
  lemma HeaderLanguagesSnoc(cells: seq<string>, i: nat)
    requires i < |cells|
    ensures HeaderLanguages(cells[..i + 1]) == HeaderLanguages(cells[..i]) + CellLanguage(cells[i])
  {
    assert cells[..i + 1] == cells[..i] + [cells[i]];
    HeaderLanguagesAppend(cells[..i], [cells[i]]);
    HeaderLanguagesOne(cells[i]);
  }

  lemma HeaderLanguagesOne(cell: string)
    ensures HeaderLanguages([cell]) == CellLanguage(cell)
  {
    assert [cell][1..] == [];
  }

  /** The `reduce(into:)` giving every language an empty list. */
  method EmptyLists(languages: seq<Language>) returns (entries: map<string, seq<Entry>>)
    ensures entries == InitEntries(languages)
  {
    entries := map[];
    var i := 0;
    while i < |languages|
      invariant 0 <= i <= |languages|
      invariant entries == InitEntries(languages[..i])
    {
      InitEntriesSnoc(languages[..i], languages[i]);
      assert languages[..i + 1] == languages[..i] + [languages[i]];
      entries := entries[languages[i].code := []];
      i := i + 1;
    }
    assert languages[..i] == languages;
  }

  /** One more language adds its code with an empty list. */
  lemma InitEntriesSnoc(ls: seq<Language>, l: Language)
    ensures InitEntries(ls + [l]) == InitEntries(ls)[l.code := []]
  {
    assert Codes(ls + [l]) == Codes(ls) + {l.code};
  }

  /** `parseDocument()`: the header, the dictionary of empty lists, then the rows. */
  method ParseDocument(doc: LocalizeDocument) returns (r: Result<Document, ParseError>)
    ensures r == BuildDocument(doc.csvLines)
  {
    var csvLines := doc.csvLines;
    if |csvLines| == 0 {
      return Ok(EmptyDocument);
    }
    var header := Tail(csvLines[0]);
    var languages := ReadLanguages(header);
    if |languages| == 0 {
      return Err(NoLangTitle);
    }
    var entries := EmptyLists(languages);

    var columns := header;
    var rows := csvLines[1..];
    var i := 0;
    while i < |rows|
      invariant 0 <= i <= |rows|
      invariant ApplyRows(languages, columns, entries, rows[i..]) == ApplyRows(languages, columns, InitEntries(languages), rows)
    {
      assert rows[i..][1..] == rows[i + 1..];
      var row := rows[i];
      if |row| > 0 {
        var key := Trim(row[0]);
        if |key| == 0 {
          entries := AppendToEach(entries, languages, BlankLine);
        } else {
          var comment := CommentBody(key);
          if comment.Some? {
            entries := AppendToEach(entries, languages, Comment(comment.value));
          } else {
            entries := AppendRowTranslations(entries, key, columns, row[1..]);
          }
        }
      }
      i := i + 1;
    }
    assert rows[i..] == [];
    return Ok(Document(languages, entries));
  }
}
