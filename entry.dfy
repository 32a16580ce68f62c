/** The shared value types of Entry.swift: languages, entries, documents, and the
    keyed-record encoding of entries and documents. */
module Entries {
  import opened Wrappers
  import opened Strings

  /** A translation language. `localized` is for display only: equality and
      hashing look at `code` alone. */
  datatype Language = Language(code: string, localized: string)

  /** `Language.init?(code:)`: exactly two characters, stored lowercased, shown uppercased. */
  function NewLanguage(code: string): (r: Option<Language>)
    ensures r.Some? <==> |code| == 2
    ensures r.Some? ==> r.value.code == Lower(code) && r.value.localized == Upper(code)
  {
    if |code| != 2 then None else Some(Language(Lower(code), Upper(code)))
  }

  /** `Language.==`: compares codes only, so languages it deems equal hash alike. */
  predicate SameLanguage(a: Language, b: Language)
    ensures SameLanguage(a, b) ==> HashInput(a) == HashInput(b)
  {
    a.code == b.code
  }

  /** What `hash(into:)` feeds to the hasher: the code only, which for a constructed
      language is two characters that lowercasing leaves unchanged. */
  function HashInput(l: Language): (r: string)
    ensures WellFormed(l) ==> |r| == 2 && Lower(r) == r
  {
    l.code
  }

  /** The invariant every constructed language satisfies. */
  predicate WellFormed(l: Language) {
    |l.code| == 2 && l.code == Lower(l.code) && l.localized == Upper(l.code)
  }

  lemma NewLanguageWellFormed(code: string)
    requires NewLanguage(code).Some?
    ensures WellFormed(NewLanguage(code).value)
  {
    LowerOfLower(code);
    UpperOfLower(code);
  }

  /** Equal languages hash alike, and for constructed languages the code-only
      equality coincides with equality of the whole value. */
  lemma EqualityIsByCode(a: Language, b: Language)
    requires WellFormed(a) && WellFormed(b)
    ensures SameLanguage(a, b) ==> HashInput(a) == HashInput(b)
    ensures SameLanguage(a, b) <==> a == b
  {
  }

  /** The constructor ignores the case of its argument. */
  lemma NewLanguageIgnoresCase(code: string)
    ensures NewLanguage(Lower(code)) == NewLanguage(code)
  {
    LowerOfLower(code);
    UpperOfLower(code);
  }

  /** One line of a language's content. */
  datatype Entry =
    | BlankLine
    | Comment(text: string)
    | Translation(key: string, value: string)

  /** `Entry.description`. */
  function Description(e: Entry): (r: string)
    ensures r == "blank" <==> e.BlankLine?
  {
    match e
    case BlankLine => "blank"
    case Comment(c) => "comment: " + c
    case Translation(k, v) =>
      var r := k + " - " + v;
      assert r[|k| + 1] == '-';
      r
  }

  /** The description of a comment determines the comment. */
  lemma DescriptionOfCommentInjective(a: string, b: string)
    requires Description(Comment(a)) == Description(Comment(b))
    ensures a == b
  {
    var p := "comment: ";
    assert a == (p + a)[|p|..];
    assert b == (p + b)[|p|..];
  }

  /** A document: languages in header order, and each language's entries keyed by
      its code (the dictionary's keys compare by code, as `Language.==` does). */
  datatype Document = Document(languages: seq<Language>, entries: map<string, seq<Entry>>)

  /** `Document.empty`. */
  const EmptyDocument: Document := Document([], map[])

  /** `Document.empty` lists no language and survives encoding and decoding. */
  lemma EmptyDocumentRoundTrip()
    ensures Elements(EmptyDocument) == [] && EncodeDocument(EmptyDocument) == []
    ensures DecodeDocument(EncodeDocument(EmptyDocument)) == Ok(EmptyDocument)
  {
    assert DecodeElements([]) == Ok([]);
  }

  /** The codes of a list of languages. */
  function Codes(ls: seq<Language>): (r: set<string>)
    ensures forall l | l in ls :: l.code in r
    ensures forall c | c in r :: exists l | l in ls :: l.code == c
  {
    set l | l in ls :: l.code
  }

  /** `entries[lang] ?? []`. */
  function EntriesOf(entries: map<string, seq<Entry>>, l: Language): seq<Entry> {
    if l.code in entries then entries[l.code] else []
  }

  // ---------------------------------------------------------------------------
  // Keyed-record encoding
  // ---------------------------------------------------------------------------

  /** A keyed container whose values are strings. */
  type Record = map<string, string>

  datatype DecodingError = KeyNotFound(key: string) | DataCorrupted(key: string)

  /** The raw values of the private `EntryType` enumeration. */
  function TypeName(e: Entry): string {
    match e
    case BlankLine => "blank"
    case Comment(_) => "comment"
    case Translation(_, _) => "translation"
  }

  /** `Entry.encode(to:)`: `type` always, `value` for comments and translations,
      `key` for translations only. */
  function EncodeEntry(e: Entry): (r: Record)
    ensures r.Keys == match e
                      case BlankLine => {"type"}
                      case Comment(_) => {"type", "value"}
                      case Translation(_, _) => {"type", "key", "value"}
    ensures DecodeEntry(r) == Ok(e)
  {
    match e
    case BlankLine => map["type" := "blank"]
    case Comment(c) => map["type" := "comment", "value" := c]
    case Translation(k, v) => map["type" := "translation", "key" := k, "value" := v]
  }

  /** `Entry.init(from:)`: the type first, then `value` for a comment, then `key`
      and `value` in that order for a translation. Extra keys are ignored. */
  function DecodeEntry(r: Record): (res: Result<Entry, DecodingError>)
    ensures res.Err? <==>
      || "type" !in r
      || r["type"] !in {"blank", "comment", "translation"}
      || (r["type"] == "comment" && "value" !in r)
      || (r["type"] == "translation" && ("key" !in r || "value" !in r))
    ensures res.Ok? ==> TypeName(res.value) == r["type"]
  {
    if "type" !in r then Err(KeyNotFound("type"))
    else if r["type"] == "blank" then Ok(BlankLine)
    else if r["type"] == "comment" then
      if "value" !in r then Err(KeyNotFound("value")) else Ok(Comment(r["value"]))
    else if r["type"] == "translation" then
      if "key" !in r then Err(KeyNotFound("key"))
      else if "value" !in r then Err(KeyNotFound("value"))
      else Ok(Translation(r["key"], r["value"]))
    else Err(DataCorrupted("type"))
  }

  /** Whatever decodes to `e` holds the encoding of `e` (and possibly more keys). */
  lemma DecodedRecordContainsEncoding(r: Record, e: Entry)
    requires DecodeEntry(r) == Ok(e)
    ensures forall k | k in EncodeEntry(e) :: k in r && r[k] == EncodeEntry(e)[k]
  {
  }

  /** The private `Document.Element`. */
  datatype Element = Element(language: Language, entries: seq<Entry>)

  /** An element as written: the language as is, the entries as records. */
  datatype EncodedElement = EncodedElement(language: Language, entries: seq<Record>)

  /** `Document.elements`: one element per listed language, in order, with
      `entries[lang] ?? []`. */
  function Elements(d: Document): (r: seq<Element>)
    ensures |r| == |d.languages|
    ensures forall i | 0 <= i < |r| :: r[i] == Element(d.languages[i], EntriesOf(d.entries, d.languages[i]))
  {
    seq(|d.languages|, i requires 0 <= i < |d.languages| =>
      Element(d.languages[i], EntriesOf(d.entries, d.languages[i])))
  }

  function EncodeEntries(es: seq<Entry>): (r: seq<Record>)
    ensures |r| == |es|
    ensures DecodeEntries(r) == Ok(es)
  {
    if es == [] then []
    else
      var r := [EncodeEntry(es[0])] + EncodeEntries(es[1..]);
      assert r[0] == EncodeEntry(es[0]) && r[1..] == EncodeEntries(es[1..]);
      assert [es[0]] + es[1..] == es;
      r
  }

  /** Decodes an array of entries, failing on the first entry that fails. */
  function DecodeEntries(rs: seq<Record>): (res: Result<seq<Entry>, DecodingError>)
    ensures res.Ok? <==> forall i | 0 <= i < |rs| :: DecodeEntry(rs[i]).Ok?
    ensures res.Ok? ==> |res.value| == |rs| && forall i | 0 <= i < |rs| :: DecodeEntry(rs[i]) == Ok(res.value[i])
  {
    if rs == [] then Ok([])
    else match DecodeEntry(rs[0])
      case Err(e) => Err(e)
      case Ok(e) =>
        match DecodeEntries(rs[1..])
        case Err(err) => Err(err)
        case Ok(es) => Ok([e] + es)
  }

  /** `Document.encode(to:)`: the `elements` array. */
  function EncodeDocument(d: Document): (r: seq<EncodedElement>)
    ensures |r| == |d.languages|
    ensures forall i | 0 <= i < |r| ::
      r[i].language == d.languages[i] && DecodeEntries(r[i].entries) == Ok(EntriesOf(d.entries, d.languages[i]))
  {
    EncodeElements(Elements(d))
  }

  /** Each element written with its entries as records. */
  function EncodeElements(els: seq<Element>): (r: seq<EncodedElement>)
    ensures |r| == |els|
  {
    seq(|els|, i requires 0 <= i < |els| =>
      EncodedElement(els[i].language, EncodeEntries(els[i].entries)))
  }

  function DecodeElements(enc: seq<EncodedElement>): (res: Result<seq<Element>, DecodingError>)
    ensures res.Ok? <==> forall i | 0 <= i < |enc| :: DecodeEntries(enc[i].entries).Ok?
    ensures res.Ok? ==> |res.value| == |enc|
    ensures res.Ok? ==> forall i | 0 <= i < |enc| :: res.value[i].language == enc[i].language
  {
    if enc == [] then Ok([])
    else match DecodeEntries(enc[0].entries)
      case Err(e) => Err(e)
      case Ok(es) =>
        match DecodeElements(enc[1..])
        case Err(e) => Err(e)
        case Ok(rest) => Ok([Element(enc[0].language, es)] + rest)
  }

  /** The `reduce(into:)` of `Document.init(from:)`: elements are stored in order,
      so a later element for the same language replaces an earlier one. */
  function CollectEntries(els: seq<Element>): (r: map<string, seq<Entry>>)
    ensures forall e | e in els :: e.language.code in r
  {
    if els == [] then map[]
    else
      var last := els[|els| - 1];
      CollectEntries(els[..|els| - 1])[last.language.code := last.entries]
  }

  /** `Document.init(from:)`. */
  function DecodeDocument(enc: seq<EncodedElement>): (res: Result<Document, DecodingError>)
    ensures res.Ok? <==> DecodeElements(enc).Ok?
    ensures res.Ok? ==> |res.value.languages| == |enc|
    ensures res.Ok? ==> forall i | 0 <= i < |enc| :: res.value.languages[i] == enc[i].language
    ensures res.Ok? ==> forall l | l in res.value.languages :: l.code in res.value.entries
  {
    match DecodeElements(enc)
    case Err(e) => Err(e)
    case Ok(els) =>
      Ok(Document(seq(|els|, i requires 0 <= i < |els| => els[i].language), CollectEntries(els)))
  }

  /** Collecting ignores the last element for every other code. */
  lemma CollectOther(els: seq<Element>, c: string)
    requires els != [] && els[|els| - 1].language.code != c
    ensures c in CollectEntries(els) <==> c in CollectEntries(els[..|els| - 1])
    ensures c in CollectEntries(els) ==> CollectEntries(els)[c] == CollectEntries(els[..|els| - 1])[c]
  {
  }

  /** The collected dictionary holds exactly the elements' codes. */
  lemma {:induction false} CollectKeys(els: seq<Element>, c: string)
    ensures c in CollectEntries(els) <==> exists i | 0 <= i < |els| :: els[i].language.code == c
  {
    if els != [] {
      var n := |els| - 1;
      CollectKeys(els[..n], c);
      if els[n].language.code != c {
        CollectOther(els, c);
        if exists i | 0 <= i < |els| :: els[i].language.code == c {
          var i :| 0 <= i < |els| && els[i].language.code == c;
          assert els[..n][i] == els[i];
        }
        if exists i | 0 <= i < n :: els[..n][i].language.code == c {
          var i :| 0 <= i < n && els[..n][i].language.code == c;
          assert els[..n][i] == els[i];
        }
      }
    }
  }

  /** For each collected code, the dictionary holds the entries of the LAST element
      carrying it. */
  lemma {:induction false} CollectLaterWins(els: seq<Element>, c: string)
    requires c in CollectEntries(els)
    ensures exists i | 0 <= i < |els| ::
        && els[i].language.code == c
        && CollectEntries(els)[c] == els[i].entries
        && forall j | i < j < |els| :: els[j].language.code != c
  {
    var n := |els| - 1;
    if els[n].language.code != c {
      CollectOther(els, c);
      CollectLaterWins(els[..n], c);
      var i :| 0 <= i < n && els[..n][i].language.code == c
               && CollectEntries(els[..n])[c] == els[..n][i].entries
               && forall j | i < j < n :: els[..n][j].language.code != c;
      assert els[i] == els[..n][i];
      forall j | i < j < |els| ensures els[j].language.code != c {
        if j < n {
          assert els[j] == els[..n][j];
        }
      }
    }
  }

  /** Decoding the encoding keeps the languages, and maps each listed language's
      code to `entries[lang] ?? []`. */
  lemma DocumentRoundTrip(d: Document)
    ensures DecodeDocument(EncodeDocument(d)).Ok?
    ensures DecodeDocument(EncodeDocument(d)).value.languages == d.languages
    ensures DecodeDocument(EncodeDocument(d)).value.entries
         == map c | c in Codes(d.languages) :: if c in d.entries then d.entries[c] else []
  {
    DecodedDocument(d);
    CollectedDocument(d);
  }

  lemma DecodedDocument(d: Document)
    ensures DecodeDocument(EncodeDocument(d)) == Ok(Document(d.languages, CollectEntries(Elements(d))))
  {
    var els := Elements(d);
    DecodeDocumentOfEncoding(els);
    assert seq(|els|, i requires 0 <= i < |els| => els[i].language) == d.languages;
  }

  lemma CollectedDocument(d: Document)
    ensures CollectEntries(Elements(d))
         == map c | c in Codes(d.languages) :: if c in d.entries then d.entries[c] else []
  {
    var collected := CollectEntries(Elements(d));
    var want := map c | c in Codes(d.languages) :: if c in d.entries then d.entries[c] else [];
    forall c ensures c in collected <==> c in want {
      CollectedKeys(d, c);
    }
    forall c | c in collected ensures collected[c] == want[c] {
      CollectedAt(d, c);
    }
  }

  lemma CollectedKeys(d: Document, c: string)
    ensures c in CollectEntries(Elements(d)) <==> c in Codes(d.languages)
  {
    var els := Elements(d);
    CollectKeys(els, c);
    if c in Codes(d.languages) {
      var l :| l in d.languages && l.code == c;
      var i :| 0 <= i < |d.languages| && d.languages[i] == l;
      assert els[i].language.code == c;
    }
  }

  lemma CollectedAt(d: Document, c: string)
    requires c in CollectEntries(Elements(d))
    ensures CollectEntries(Elements(d))[c] == if c in d.entries then d.entries[c] else []
  {
    CollectLaterWins(Elements(d), c);
  }

  lemma EncodeElementsTail(els: seq<Element>)
    requires els != []
    ensures EncodeElements(els)[0] == EncodedElement(els[0].language, EncodeEntries(els[0].entries))
    ensures EncodeElements(els)[1..] == EncodeElements(els[1..])
  {
  }

  lemma {:induction false} DecodeElementsOfEncoding(els: seq<Element>)
    ensures DecodeElements(EncodeElements(els)) == Ok(els)
  {
    if els != [] {
      DecodeElementsOfEncoding(els[1..]);
      EncodeElementsTail(els);
      assert [els[0]] + els[1..] == els;
    }
  }

  lemma DecodeDocumentOfEncoding(els: seq<Element>)
    ensures DecodeDocument(EncodeElements(els))
         == Ok(Document(seq(|els|, i requires 0 <= i < |els| => els[i].language), CollectEntries(els)))
  {
    DecodeElementsOfEncoding(els);
  }

  /** A document whose dictionary holds exactly its languages' codes survives
      encoding and decoding unchanged. */
  lemma DocumentRoundTripExact(d: Document)
    requires d.entries.Keys == Codes(d.languages)
    ensures DecodeDocument(EncodeDocument(d)) == Ok(d)
  {
    DecodedDocument(d);
    CollectedDocument(d);
    FullDictionary(d.entries, Codes(d.languages));
  }

  lemma FullDictionary(m: map<string, seq<Entry>>, codes: set<string>)
    requires m.Keys == codes
    ensures (map c | c in codes :: if c in m then m[c] else []) == m
  {
  }
}
