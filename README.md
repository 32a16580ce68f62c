# Localizable — a verified model of the CSV-to-document core

Localizable turns a spreadsheet of translations, exported as CSV, into a document with
one list of entries per language. This project models the three files that do the work:

- `CSVParser.swift` is a four-state tokenizer.
  - It reads the text character by character. Its states are: at the start of a word,
    in an unquoted word, inside quotes, and just after a quote.
  - It emits rows of fields, or fails with one of three parsing errors.
- `LocalizeDocument.swift` builds the document from the rows.
  - The first row is the header: after the key column, each cell that trims and
    lowercases to a two-character code names a language. Only the length is checked:
    any two characters are accepted, letters or not.
  - Each later row is one of three kinds. A blank key gives a blank line to every
    language. A key matching the comment pattern gives a comment to every language.
    Any other key gives each language the escaped cell of its column.
- `Entry.swift` holds the data model and its keyed encoding and decoding. The data model
  is `Language`, `Entry` and `Document`; `Document.elements` is the encoded form.

Modules:

- `Csv` (csv_parser.dfy): the specification of the tokenizer and its imperative loop.
  - `Tokenize` is the specification: a fold of the per-character `Step`, then the
    end-of-input flush `Finish`.
  - `Parse` keeps the source's four local variables in a `while` loop. It is proved to
    return exactly `Tokenize`.
- `CsvProperties` (csv_properties.dfy) proves the tokenizer's behaviour:
  - the state table and the row count;
  - the first failing character, and an if-and-only-if for each error;
  - quote-free input reads as a plain split on newlines, then on the separator;
  - a writer of quoted fields that the tokenizer inverts.
- `CommentPattern` (comment_pattern.dfy) is the comment regular expression of
  `LocalizeDocument.swift:17`, written as a backtracking scanner.
  - `CommentBody` is proved to succeed exactly when the pattern matches the key.
  - It returns the text of capture group 1, the lazily matched body.
- `Entries` (entry.dfy): languages, entries and documents, and the keyed-record
  encoding with its round trips.
- `LocalizeDocument` (localize_document.dfy): `parseDocument()` in two forms.
  - `BuildDocument` is the specification, as functions.
  - `ParseDocument` is the method with the source's loops, proved equal to it.
  - `BuildTrimmedDocument` is the corrected builder of the finding below. It looks up
    the trimmed header cells; `BuildersAgree` shows the two agree when no header cell
    carries surrounding whitespace.
  - Lemmas follow each language column of the CSV into that language's list.
- `Strings` (strings.dfy): character classes, trimming, ASCII case mapping and quote
  escaping (see "Left out").
- `Wrappers` (wrappers.dfy): `Option` and `Result`.

A thrown Swift error becomes the `Err` case of a `Result`.

## Model

| member | source | states |
|---|---|---|
| Csv.NewParser | Sources/App/Models/CSVParser.swift:34-41 | The separator is the first character of the given string. The data is kept as given. An empty separator string is excluded, as the source stops with a fatal error. |
| Csv.Step | Sources/App/Models/CSVParser.swift:51-121 | One character: on success the rows read so far stay a prefix and at most one row is added. A failure needs a character that is neither a line terminator nor the separator, read in an unquoted word or just after a closing quote. |
| Csv.Run | Sources/App/Models/CSVParser.swift:49-122 | Reading a text keeps the rows already read as a prefix, and adds at most one row per character read. |
| Csv.Finish | Sources/App/Models/CSVParser.swift:124-130 | The end of input throws `eofInQuotedWord` exactly when a quote is still open. Otherwise it keeps the rows read and adds exactly one last row. |
| Csv.Tokenize | Sources/App/Models/CSVParser.swift:43-133 | A successful parse has at least one row and at most one row more than the text has characters. |
| Csv.Parse | Sources/App/Models/CSVParser.swift:43-133 | The character loop returns exactly `Tokenize(csvData, separator)`. On success there is at least one row and no row is empty. |
| Csv.RunKeepsInv | Sources/App/Models/CSVParser.swift:44-122 | While reading, the word buffer is empty whenever a word starts, and every row emitted so far has at least one field. |
| Csv.TokenizeShape | Sources/App/Models/CSVParser.swift:124-132 | A successful parse has at least one row and no empty row. The empty text parses to one row holding one empty field. |
| CsvProperties.RunAppend | Sources/App/Models/CSVParser.swift:49-122 | Reading a concatenation means reading each part in turn. An error in the first part is final, as a throw ends the `forEach`. |
| CsvProperties.StepFollowsTable | Sources/App/Models/CSVParser.swift:51-121 | Every successful step moves to the state given by the transition table. It ends a row exactly when it reads a newline outside quotes. |
| CsvProperties.RowCount | Sources/App/Models/CSVParser.swift:51-73 | A successful parse has one row more than the newlines read outside quotes. |
| CsvProperties.StepErrors | Sources/App/Models/CSVParser.swift:87-120 | A quote inside an unquoted word throws `quoteInNotQuotedWord`. Any other non-separator, non-newline character after a closing quote throws `letterOutsideQuotedWord`. No single character throws `eofInQuotedWord`. |
| CsvProperties.RunFailsAt | Sources/App/Models/CSVParser.swift:49-122 | A failing run fails at one character: the prefix before it reads successfully, and that character's step gives the error. |
| CsvProperties.FailureFromPrefix | Sources/App/Models/CSVParser.swift:49-130 | When a character fails after a successful prefix, the whole parse throws that character's error. |
| CsvProperties.TokenizeErrors | Sources/App/Models/CSVParser.swift:49-130 | For each of the three errors, an if-and-only-if. The first two hold exactly when some position is reached in the named state and holds the offending character. `eofInQuotedWord` holds exactly when the whole text reads while still inside quotes. |
| CsvProperties.TokenizeUnquoted | Sources/App/Models/CSVParser.swift:43-133 | Text without quote characters never fails. It parses to its lines, each split on the separator, compared with an independent split definition. |
| CsvProperties.RunUnquoted | Sources/App/Models/CSVParser.swift:75-97 | Without quotes the tokenizer stays in the two unquoted states. The rows it finishes are the split of what it read. |
| CsvProperties.RunEscaped | Sources/App/Models/CSVParser.swift:99-120 | Inside quotes, separators and newlines are kept literally, a doubled quote stands for one quote, and a lone quote closes the field. |
| CsvProperties.RunQuoteField | Sources/App/Models/CSVParser.swift:76-81 | A field written between quotes, with its quotes doubled, reads back to exactly that field, ending just after the closing quote. |
| CsvProperties.SeparatorAfterQuote | Sources/App/Models/CSVParser.swift:109-114 | A separator after a closing quote ends the field and starts a new word. |
| CsvProperties.NewlineAfterQuote | Sources/App/Models/CSVParser.swift:65-70 | Any line terminator after a closing quote ends the field and the row. |
| CsvProperties.RunWriteRow | Sources/App/Models/CSVParser.swift:99-114 | A row written as quoted fields joined by the separator reads back field by field. |
| CsvProperties.RunWriteTable | Sources/App/Models/CSVParser.swift:43-133 | Rows written one per line, then finished, read back to the same rows. |
| CsvProperties.TokenizeWritten | Sources/App/Models/CSVParser.swift:43-133 | Round trip: parsing the written table gives back every row, whatever separators, newlines and quotes its fields hold. |
| CsvProperties.QuotedFieldReadsBack | Sources/App/Models/CSVParser.swift:124-127 | A single quoted field parses to one row holding that field. |
| CommentPattern.CommentBody | Sources/App/Models/LocalizeDocument.swift:17 | Gives a result if and only if the pattern matches the key. The result is capture group 1 of the split the engine returns: the longest opener that leads to a match, then the longest run of spaces, then the shortest body. It is non-empty, free of line terminators, in a key that starts with `//` or `/*`. |
| CommentPattern.FindComment | Sources/App/Models/LocalizeDocument.swift:17 | A span found is group 1 of the engine's first split: no longer opener leads to a match, no longer run of spaces after that opener does, and no shorter body ends one. |
| CommentPattern.FirstSplitUnique | Sources/App/Models/LocalizeDocument.swift:17 | The split the engine returns is unique, so the captured text is determined by the key. |
| CommentPattern.FindCommentComplete | Sources/App/Models/LocalizeDocument.swift:17 | The backtracking scanner finds a match exactly when one exists. That means some opener, some run of spaces and some body followed by the trailer. |
| CommentPattern.TrailerIff | Sources/App/Models/LocalizeDocument.swift:17 | The trailer matches when the body is followed by optional spaces, then optionally stars and a slash, then the end of the key. |
| CommentPattern.BodyEnd | Sources/App/Models/LocalizeDocument.swift:17 | The lazy `.+?` stops at the shortest body followed by a trailer, and finds none only when no end works. |
| CommentPattern.ShortestBody | Sources/App/Models/LocalizeDocument.swift:17 | When a body end has no trailer before it, the lazy search stops exactly there. |
| CommentPattern.StarSearch | Sources/App/Models/LocalizeDocument.swift:17 | Backtracking over the number of stars of a `/*` opener finds a split exactly when one exists. The opener it uses is the longest that leads to a match, and the split after it is the first the engine reaches. |
| CommentPattern.SpaceSearch | Sources/App/Models/LocalizeDocument.swift:17 | Greedy `\s*`: the body starts after as many spaces as possible, since no later start in the run has a body, and the body found is the shortest. None found means no start in the run has a body. |
| CommentPattern.SpacesAfter | Sources/App/Models/LocalizeDocument.swift:17 | After an opener, either every split of the following spaces fails, or the split found is the first the engine reaches. |
| CommentPattern.FirstAfterIsFirst | Sources/App/Models/LocalizeDocument.swift:17 | The greedy `\s*` is the longest run of spaces after the opener that leads to a match. |
| CommentPattern.BlockOpenerLongest | Sources/App/Models/LocalizeDocument.swift:17 | When every longer star run fails, no split of the key uses a longer opener. |
| CommentPattern.LineCommentBody | Sources/App/Models/LocalizeDocument.swift:17 | `//`, spaces, then a body on one line whose first character is not a space and whose last character is neither a space, `*` nor `/`: the comment is the body. |
| CommentPattern.BlockCommentBody | Sources/App/Models/LocalizeDocument.swift:17 | `/*`, spaces, a body, spaces, then `*/`. The body is on one line, its first character is neither a space nor `*`, and its last is neither a space, `*` nor `/`. Then the comment is the body, without the closer. |
| CommentPattern.LineCommentAt | Sources/App/Models/LocalizeDocument.swift:49-51 | For a `//` key whose body runs to the end, the comment is everything after the spaces. |
| CommentPattern.BlockCommentAt | Sources/App/Models/LocalizeDocument.swift:49-51 | For a `/*` key, the comment is the text between the spaces and the trailer. |
| Entries.NewLanguage | Sources/App/Models/Entry.swift:23-27 | A language exists exactly for two-character codes. Its code is lowercased and its display name uppercased. |
| Entries.NewLanguageWellFormed | Sources/App/Models/Entry.swift:23-27 | Every constructed language has a two-character code that lowercasing leaves unchanged, and its display name is the uppercase of that code. The characters need not be letters. |
| Entries.EqualityIsByCode | Sources/App/Models/Entry.swift:11-17 | Two languages are equal when their codes are equal, and then they hash alike. For constructed languages this is plain value equality. |
| Entries.SameLanguage | Sources/App/Models/Entry.swift:15-17 | Languages that `==` deems equal feed the same input to the hasher. |
| Entries.HashInput | Sources/App/Models/Entry.swift:11-13 | The hasher is fed the code, which for a constructed language is two characters that lowercasing leaves unchanged. |
| Entries.NewLanguageIgnoresCase | Sources/App/Models/Entry.swift:23-26 | Lowercasing a code before construction changes nothing. |
| Entries.Description | Sources/App/Models/Entry.swift:37-46 | The description is "blank" exactly for a blank line. |
| Entries.DescriptionOfCommentInjective | Sources/App/Models/Entry.swift:41-42 | Different comments have different descriptions. |
| Entries.EncodeEntry | Sources/App/Models/Entry.swift:116-129 | Each case writes its own set of keys: `type` always, `value` for comments and translations, `key` for translations. Decoding the record gives back the entry. |
| Entries.DecodeEntry | Sources/App/Models/Entry.swift:99-114 | Decoding fails exactly when `type` is missing or unknown, or when the case's `key` or `value` is missing. On success, the entry's case is the one `type` names. |
| Entries.DecodedRecordContainsEncoding | Sources/App/Models/Entry.swift:99-129 | A record that decodes to an entry holds every key of that entry's encoding, with the same values. |
| Entries.Elements | Sources/App/Models/Entry.swift:68-70 | One element per listed language, in order, with `entries[lang] ?? []`. |
| Entries.EmptyDocumentRoundTrip | Sources/App/Models/Entry.swift:53-55 | `Document.empty` lists no language, encodes to no element, and decodes back to itself. |
| Entries.EncodeEntries | Sources/App/Models/Entry.swift:116-129 | An array of entries encodes to as many records, and decodes back to the same entries. |
| Entries.EncodeDocument | Sources/App/Models/Entry.swift:85-88 | One element per listed language, in order. Each carries its language and records that decode to `entries[lang] ?? []`. |
| Entries.DecodeEntries | Sources/App/Models/Entry.swift:76-78 | An array of records decodes exactly when every record does, and then to the entries decoded one by one, in order. |
| Entries.DecodeElements | Sources/App/Models/Entry.swift:78 | Decoding the `elements` array succeeds exactly when every element's entries decode. Then there is one element per encoded element, with the same language, in order. |
| Entries.DecodeElementsOfEncoding | Sources/App/Models/Entry.swift:76-88 | The encoded elements decode back to the same elements. |
| Entries.CollectEntries | Sources/App/Models/Entry.swift:80-82 | The code of every decoded element has a list in the dictionary. |
| Entries.DecodeDocument | Sources/App/Models/Entry.swift:76-83 | Decoding succeeds exactly when every element's entries decode. The languages are the elements' languages in order, and every language has a list in the dictionary. |
| Entries.CollectKeys | Sources/App/Models/Entry.swift:80-82 | The `reduce(into:)` dictionary holds exactly the codes of the decoded elements. |
| Entries.CollectLaterWins | Sources/App/Models/Entry.swift:80-82 | For each code, the dictionary holds the entries of the last element carrying that code. |
| Entries.DocumentRoundTrip | Sources/App/Models/Entry.swift:62-88 | Decoding an encoded document succeeds and keeps the languages. The dictionary becomes one list per listed code, `entries[lang] ?? []`, and drops codes of unlisted languages. |
| Entries.DocumentRoundTripExact | Sources/App/Models/Entry.swift:62-88 | A document whose dictionary holds exactly its languages' codes decodes back to itself. |
| LocalizeDocument.CellLanguage | Sources/App/Models/LocalizeDocument.swift:25-28 | A header cell gives at most one language, and a well-formed one. |
| LocalizeDocument.HeaderLanguages | Sources/App/Models/LocalizeDocument.swift:25-28 | The `compactMap` gives at most one well-formed language per header cell. |
| LocalizeDocument.HeaderLanguagesMembers | Sources/App/Models/LocalizeDocument.swift:25-28 | A language is in the list if and only if some header cell, trimmed and lowercased, constructs it. |
| LocalizeDocument.HeaderLanguagesAppend | Sources/App/Models/LocalizeDocument.swift:25-28 | The language list of two runs of cells is the two lists joined. |
| LocalizeDocument.HeaderLanguageOfTrimmed | Sources/App/Models/LocalizeDocument.swift:26-27 | Lowercasing before `Language(code:)` is redundant. Only the trimming changes which cells name a language. |
| LocalizeDocument.HeaderLanguage | Sources/App/Models/LocalizeDocument.swift:25-28 | A header cell names a language exactly when its trimmed text has two characters. |
| LocalizeDocument.ReadLanguages | Sources/App/Models/LocalizeDocument.swift:25-28 | The loop over header cells returns exactly `HeaderLanguages` of the header. |
| LocalizeDocument.InitEntries | Sources/App/Models/LocalizeDocument.swift:34-36 | The starting dictionary holds exactly the header's codes, each with an empty list. |
| LocalizeDocument.EmptyLists | Sources/App/Models/LocalizeDocument.swift:34-36 | The `reduce(into:)` loop returns exactly `InitEntries` of the languages. |
| LocalizeDocument.Occurrences | Sources/App/Models/LocalizeDocument.swift:46 | Counts the languages of a code. The count is zero exactly when the code is absent. |
| LocalizeDocument.AppendTo | Sources/App/Models/LocalizeDocument.swift:63 | `entries[l]?.append(e)` never adds a code: the dictionary keeps its keys. What changes is stated by `AppendToAt`. |
| LocalizeDocument.AppendToAll | Sources/App/Models/LocalizeDocument.swift:46 | Appending for every language keeps the dictionary's keys. What each list receives is stated by `AppendToAllAt`. |
| LocalizeDocument.AppendToAllAt | Sources/App/Models/LocalizeDocument.swift:46 | `languages.forEach { entries[$0]?.append(e) }` appends `e` to a code's list once per listed language carrying that code. |
| LocalizeDocument.AppendToAt | Sources/App/Models/LocalizeDocument.swift:63 | `entries[l]?.append(e)` changes only the list of `l`'s code, and only when that code is present. |
| LocalizeDocument.AppendToEach | Sources/App/Models/LocalizeDocument.swift:46 | The loop over languages returns exactly `AppendToAll`. |
| LocalizeDocument.AppendTranslations | Sources/App/Models/LocalizeDocument.swift:60-64 | The zip keeps the dictionary's keys. What each list receives is stated by `AppendTranslationsAt`. |
| LocalizeDocument.AppendTranslationsAt | Sources/App/Models/LocalizeDocument.swift:60-64 | The zip of header cells and row cells appends to code `c` the escaped cells below the header cells naming `c`. |
| LocalizeDocument.AppendRowTranslations | Sources/App/Models/LocalizeDocument.swift:60-64 | The zip loop returns exactly `AppendTranslations`. |
| LocalizeDocument.UntrimmedHeaderDropsTranslation | Sources/App/Models/LocalizeDocument.swift:60-61 | As written, a header cell with surrounding spaces names a language, but the zip over that raw cell appends nothing. The trimmed lookup appends the translation. |
| LocalizeDocument.UntrimmedCellDocument | Sources/App/Models/LocalizeDocument.swift:39-66 | As written, a header cell that names a language only once trimmed leaves that language's list empty under a translation row. |
| LocalizeDocument.TrimmedCellDocument | Sources/App/Models/LocalizeDocument.swift:39-66 | Corrected: with such a header cell and one translation row, that language's list is the row's trimmed key with its escaped cell. |
| LocalizeDocument.UntrimmedHeaderCell | Sources/App/Models/LocalizeDocument.swift:26-27 | The header cell `" en"` names the language `en` once trimmed, while `Language(code:)` of the raw cell gives none. |
| LocalizeDocument.UntrimmedHeaderDocument | Sources/App/Models/LocalizeDocument.swift:60-61 | As written, the rows `[["key", " en"], ["hello", "Hello"]]` give the languages `[en]` and leave the list of `en` empty (see Findings). |
| LocalizeDocument.TrimmedHeaderDocument | Sources/App/Models/LocalizeDocument.swift:60-63 | Corrected: the same rows give `en` the list `[hello - Hello]`. |
| LocalizeDocument.ApplyRow | Sources/App/Models/LocalizeDocument.swift:39-65 | One row keeps the dictionary's keys. What each list receives is stated by `ApplyRowAt`. |
| LocalizeDocument.ApplyRows | Sources/App/Models/LocalizeDocument.swift:39-66 | The `forEach` over the rows keeps the dictionary's keys. What each list receives is stated by `ApplyRowsAt`. |
| LocalizeDocument.ApplyRowAt | Sources/App/Models/LocalizeDocument.swift:39-65 | Each data row appends to one code's list: a blank line or the comment once per language of that code, or that code's translations. |
| LocalizeDocument.ApplyRowsAt | Sources/App/Models/LocalizeDocument.swift:39-66 | The rows' entries are appended in row order. |
| LocalizeDocument.BuildDocument | Sources/App/Models/LocalizeDocument.swift:21-68 | As written. No rows give the empty document. A header naming no language throws `noLangTitle`. Otherwise the languages are the header's and the dictionary holds exactly their codes. Each code's list is, row by row, what the rows append to it through the zip with the raw header cells. |
| LocalizeDocument.BuildFromHeader | Sources/App/Models/LocalizeDocument.swift:25-66 | Once the header is known: `noLangTitle` exactly when it names no language. Otherwise the languages are the header's, the dictionary holds exactly their codes, and each list is what the rows append to it through a zip with the given header cells. |
| LocalizeDocument.BuildTrimmedDocument | Sources/App/Models/LocalizeDocument.swift:21-68 | Corrected: the same as `BuildDocument`, except that the zip looks up the trimmed header cells, as the language list does. |
| LocalizeDocument.BuildersAgree | Sources/App/Models/LocalizeDocument.swift:25-64 | For a header whose cells carry no surrounding whitespace, the code as written and the corrected builder give the same result. |
| LocalizeDocument.ParseDocument | Sources/App/Models/LocalizeDocument.swift:21-68 | The method, with its loops over header and rows, returns exactly `BuildDocument`. |
| LocalizeDocument.ParsedDocumentRoundTrip | Sources/App/Models/LocalizeDocument.swift:67 | Every parsed document survives encoding and decoding unchanged. |
| LocalizeDocument.OccurrencesOfColumn | Sources/App/Models/LocalizeDocument.swift:25-28 | When only one header column names a code, the language list carries that code once. |
| LocalizeDocument.TranslationsOfColumn | Sources/App/Models/LocalizeDocument.swift:60-64 | As written, for header cells without surrounding whitespace: when only column `i` names `c`, the zip gives `c` exactly the escaped cell below column `i`. |
| LocalizeDocument.TrimmedTranslationsOfColumn | Sources/App/Models/LocalizeDocument.swift:60-64 | Corrected lookup, any header: when only column `i` names `c`, the zip over the trimmed cells gives `c` exactly the escaped cell below column `i`. |
| LocalizeDocument.EntriesFollowColumns | Sources/App/Models/LocalizeDocument.swift:39-66 | As written, for header cells without surrounding whitespace and with distinct codes, and translation rows as wide as the header. Then the list of column `i`'s language is, row by row, a blank line, the row's comment, or the escaped cell of column `i`. |
| LocalizeDocument.TrimmedEntriesFollowColumns | Sources/App/Models/LocalizeDocument.swift:39-66 | Corrected builder, any header with distinct codes and rows as wide as it: the list of column `i`'s language is, row by row, a blank line, the row's comment, or the escaped cell of column `i`. |
| LocalizeDocument.LinesAligned | Sources/App/Models/LocalizeDocument.swift:39-66 | Two columns of the same rows give lists of equal length that agree, position by position, on blank lines, comments and keys. |
| LocalizeDocument.DocumentAligned | Sources/App/Models/LocalizeDocument.swift:39-66 | As written, for such a header without surrounding whitespace: all languages' lists have the same length and line up entry by entry on blank lines, comments and keys. |
| LocalizeDocument.TrimmedDocumentAligned | Sources/App/Models/LocalizeDocument.swift:39-66 | Corrected builder, any header with distinct codes: all languages' lists have the same length and line up entry by entry. |
| LocalizeDocument.TrimmedLinesOfCode | Sources/App/Models/LocalizeDocument.swift:39-66 | Corrected builder: every code of the document holds the lines of some header column. |
| LocalizeDocument.ColumnOf | Sources/App/Models/LocalizeDocument.swift:25-28 | Every code of the language list comes from some header column. |
| Strings.Trim | Sources/App/Models/LocalizeDocument.swift:41 | The trimmed key is an infix of the key that only whitespace surrounds. It neither starts nor ends with whitespace, and it is empty exactly when the key is all whitespace. |
| Strings.TrimAt | Sources/App/Models/LocalizeDocument.swift:41 | The trim is exactly the infix that only whitespace surrounds and that neither starts nor ends with whitespace. |
| Strings.TrimUnchanged | Sources/App/Models/LocalizeDocument.swift:41 | A key that neither starts nor ends with whitespace is its own trim. |
| Strings.Lower | Sources/App/Models/Entry.swift:25 | Lowercasing maps every character and keeps the length. |
| Strings.Upper | Sources/App/Models/Entry.swift:26 | Uppercasing maps every character and keeps the length. |
| Strings.LowerOfLower | Sources/App/Models/LocalizeDocument.swift:26 | Lowercasing twice is lowercasing once. |
| Strings.EscapeQuotes | Sources/App/Models/LocalizeDocument.swift:62 | Escaping adds one character per quote and never starts with a quote. |
| Strings.EscapedQuotesPreceded | Sources/App/Models/LocalizeDocument.swift:62 | Every quote of an escaped cell has a backslash in front of it. |
| Strings.EscapeQuotesWithoutQuotes | Sources/App/Models/LocalizeDocument.swift:62 | A cell without quotes is left unchanged by the escaping. |
| Strings.UnescapeEscape | Sources/App/Models/LocalizeDocument.swift:62 | Escaping loses nothing: dropping the inserted backslashes gives back the cell. |

## Left out

- The web layer is not part of this model: the routes, the controller that reads the upload, and the JSON rendering. File reading and UTF-8 decoding are not modelled.
- Swift `Character`s are extended grapheme clusters. The model reads one `char` per character, so `\r\n` counts as two newlines in the model and as one character in Swift.
- `CharacterSet.newlines` and `.whitespacesAndNewlines` are modelled by explicit lists of code points. The regular expression's `\s` is modelled the same way.
- `lowercased()` and `uppercased()` are modelled as ASCII case mapping, so full Unicode case folding is not.
- `NSRegularExpression` with `.anchorsMatchLines` is not modelled: `CommentBody` matches the whole key. A key holding a line terminator could match on one of its inner lines in Swift; the model does not match it.
- The search range `NSRange(location: 0, length: key.count)` counts characters, while `NSString` counts UTF-16 units. For keys outside the Basic Multilingual Plane the Swift search may see only a prefix. This can also make `Range(_:in:)` fail and throw `cannotReadComment`. The model searches the whole key. `CannotReadComment` is declared, but no modelled path produces it.
- The `lineNumber` counter only feeds `cannotReadComment`, so it is not modelled.
- The synthesized `Codable` conformance of `Language` and the JSON text format are not modelled. A record is a map from keys to strings, and a language is encoded as is.
- `fatalError` in `CSVParser.init` becomes a precondition of `NewParser`.
- Rows shorter than the header are not padded. The zip stops at the shorter of the two, and so does the model; a language whose column is missing gets no entry for that row.
- CsvProperties.TokenizeWritten: stated for separators other than the quote and the newline characters. The source accepts any separator, and those two interact with its branch order.
- TranslationsOfColumn: stated only for header cells without surrounding whitespace. As written, a cell such as `" en"` names a language in the header but gets no translations (see Findings). The form without this hypothesis is `TrimmedTranslationsOfColumn`, about the corrected lookup.
- EntriesFollowColumns: stated only for header cells without surrounding whitespace, for the reason above, with distinct codes and rows as wide as the header. With a repeated code, the language list holds the language twice, so every blank line and comment is appended twice; that case is described by `BuildDocument` and `ApplyRowsAt` alone. The form without the whitespace hypothesis is `TrimmedEntriesFollowColumns`.
- DocumentAligned: stated only for header cells without surrounding whitespace. As written, a header `" EN"` beside `"FR"` gives lists of different lengths as soon as one translation row follows. The form without this hypothesis is `TrimmedDocumentAligned`.

## Findings

| source | as written | input that shows it | evidently intended | confidence | as-written member | corrected member |
|---|---|---|---|---|---|---|
| Sources/App/Models/LocalizeDocument.swift:60-61 | The zip pairs each row cell with the raw header cell, and `Language(code:)` is built from the untrimmed cell. The header, by contrast, trims each cell before building its language. | CSV rows `[["key", " en"], ["hello", "Hello"]]`: the languages are `[en]`, yet `entries[en]` stays empty, because `" en"` has three characters. | Look up the trimmed header cell, as the header does, so the list of `en` receives `hello - Hello`. | not executed | LocalizeDocument.UntrimmedHeaderDocument | LocalizeDocument.TrimmedHeaderDocument |
