/** CSVParser.swift: the four-state tokenizer that turns text into rows of fields.
    `Tokenize` is the specification (a fold of `Step` over the characters, then the
    end-of-input flush); `Parse` is the imperative loop of the source, proved equal to it. */
module Csv {
  import opened Wrappers
  import opened Strings

  /** `Defaults.quote`. */
  const Quote: char := '"'

  /** `Defaults.separator`. */
  const DefaultSeparator: string := ";"

  datatype ParsingError = QuoteInNotQuotedWord | LetterOutsideQuotedWord | EofInQuotedWord

  datatype State = WordStart | InWord | FirstQuote | SecondQuote

  /** The parser's stored configuration. */
  datatype CSVParser = CSVParser(csvData: string, separator: char)

  /** `CSVParser.init(csvData:separator:)`: the separator is the first character of
      the given string, which must not be empty (the source stops with a fatal error). */
  function NewParser(csvData: string, separator: string := DefaultSeparator): (p: CSVParser)
    requires |separator| > 0
    ensures p.csvData == csvData && p.separator == separator[0]
  {
    CSVParser(csvData, separator[0])
  }

  /** Everything `parse()` keeps between two characters. */
  datatype Tok = Tok(state: State, word: string, columns: seq<string>, lines: seq<seq<string>>)

  const Start: Tok := Tok(WordStart, [], [], [])

  /** One character of `parse()`: the newline branch first, then the per-state switch
      (separator tested before the quote). */
  function Step(t: Tok, c: char, sep: char): (r: Result<Tok, ParsingError>)
    ensures r.Ok? ==> t.lines <= r.value.lines && |r.value.lines| <= |t.lines| + 1
    ensures r.Err? ==> !IsNewline(c) && c != sep && (t.state == InWord || t.state == SecondQuote)
  {
    if IsNewline(c) then
      match t.state
      case WordStart => Ok(Tok(WordStart, t.word, [], t.lines + [t.columns + [""]]))
      case InWord => Ok(Tok(WordStart, [], [], t.lines + [t.columns + [t.word]]))
      case FirstQuote => Ok(t.(word := t.word + [c]))
      case SecondQuote => Ok(Tok(WordStart, [], [], t.lines + [t.columns + [t.word]]))
    else
      match t.state
      case WordStart =>
        if c == sep then Ok(t.(columns := t.columns + [""]))
        else if c == Quote then Ok(t.(state := FirstQuote))
        else Ok(t.(word := t.word + [c], state := InWord))
      case InWord =>
        if c == sep then Ok(Tok(WordStart, [], t.columns + [t.word], t.lines))
        else if c == Quote then Err(QuoteInNotQuotedWord)
        else Ok(t.(word := t.word + [c]))
      case FirstQuote =>
        if c == sep then Ok(t.(word := t.word + [c]))
        else if c == Quote then Ok(t.(state := SecondQuote))
        else Ok(t.(word := t.word + [c]))
      case SecondQuote =>
        if c == sep then Ok(Tok(WordStart, [], t.columns + [t.word], t.lines))
        else if c == Quote then Ok(t.(word := t.word + [c], state := FirstQuote))
        else Err(LetterOutsideQuotedWord)
  }

  /** Feeds the characters of `s` to `Step`, stopping at the first error. */
  function Run(t: Tok, s: string, sep: char): (r: Result<Tok, ParsingError>)
    ensures r.Ok? ==> t.lines <= r.value.lines && |r.value.lines| <= |t.lines| + |s|
    decreases |s|
  {
    if s == [] then Ok(t)
    else match Step(t, s[0], sep)
      case Err(e) => Err(e)
      case Ok(t') => Run(t', s[1..], sep)
  }

  /** The end-of-input switch: flush the word and the row, unless a quote is open. */
  function Finish(t: Tok): (r: Result<seq<seq<string>>, ParsingError>)
    ensures r.Ok? <==> t.state != FirstQuote
    ensures r.Err? ==> r.error == EofInQuotedWord
    ensures r.Ok? ==> t.lines <= r.value && |r.value| == |t.lines| + 1
  {
    if t.state == FirstQuote then Err(EofInQuotedWord)
    else Ok(t.lines + [t.columns + [t.word]])
  }

  /** What `parse()` returns or throws for `text`. */
  function Tokenize(text: string, sep: char): (r: Result<seq<seq<string>>, ParsingError>)
    ensures r.Ok? ==> 1 <= |r.value| <= |text| + 1
  {
    match Run(Start, text, sep)
    case Err(e) => Err(e)
    case Ok(t) => Finish(t)
  }

  /** `CSVParser.parse()`. */
  method Parse(p: CSVParser) returns (r: Result<seq<seq<string>>, ParsingError>)
    ensures r == Tokenize(p.csvData, p.separator)
    ensures r.Ok? ==> |r.value| >= 1 && forall row | row in r.value :: |row| >= 1
  {
    var text, separator := p.csvData, p.separator;
    var state := WordStart;
    var word: seq<char> := [];
    var columns: seq<string> := [];
    var lines: seq<seq<string>> := [];
    var i := 0;
    while i < |text|
      invariant 0 <= i <= |text|
      invariant state == WordStart ==> word == []
      invariant Run(Tok(state, word, columns, lines), text[i..], separator) == Run(Start, text, separator)
    {
      var c := text[i];
      assert text[i..][0] == c && text[i..][1..] == text[i + 1..];
      if IsNewline(c) {
        match state {
          case WordStart =>
            columns := columns + [""];
            lines := lines + [columns];
            columns := [];
          case InWord =>
            columns := columns + [word];
            word := [];
            lines := lines + [columns];
            columns := [];
            state := WordStart;
          case FirstQuote =>
            word := word + [c];
          case SecondQuote =>
            columns := columns + [word];
            word := [];
            lines := lines + [columns];
            columns := [];
            state := WordStart;
        }
      } else {
        match state {
          case WordStart =>
            if c == separator {
              columns := columns + [""];
            } else if c == Quote {
              state := FirstQuote;
            } else {
              word := word + [c];
              state := InWord;
            }
          case InWord =>
            if c == separator {
              columns := columns + [word];
              word := [];
              state := WordStart;
            } else if c == Quote {
              return Err(QuoteInNotQuotedWord);
            } else {
              word := word + [c];
            }
          case FirstQuote =>
            if c == separator {
              word := word + [c];
            } else if c == Quote {
              state := SecondQuote;
            } else {
              word := word + [c];
            }
          case SecondQuote =>
            if c == separator {
              columns := columns + [word];
              word := [];
              state := WordStart;
            } else if c == Quote {
              word := word + [c];
              state := FirstQuote;
            } else {
              return Err(LetterOutsideQuotedWord);
            }
        }
      }
      i := i + 1;
    }
    assert text[i..] == [];
    if state == FirstQuote {
      return Err(EofInQuotedWord);
    }
    columns := columns + [word];
    lines := lines + [columns];
    r := Ok(lines);
    TokenizeShape(text, separator);
  }

  // ---------------------------------------------------------------------------
  // Shape of the result
  // ---------------------------------------------------------------------------

  /** The invariant of the loop: an empty buffer at the start of a word, and only
      non-empty rows emitted so far. */
  predicate Inv(t: Tok) {
    && (t.state == WordStart ==> t.word == [])
    && forall row | row in t.lines :: |row| >= 1
  }

  lemma {:induction false} RunKeepsInv(t: Tok, s: string, sep: char)
    requires Inv(t) && Run(t, s, sep).Ok?
    ensures Inv(Run(t, s, sep).value)
    decreases |s|
  {
    if s != [] {
      var t' := Step(t, s[0], sep).value;
      assert Inv(t');
      RunKeepsInv(t', s[1..], sep);
    }
  }

  /** A successful parse has at least one row and no empty row; the empty text
      gives a single row holding one empty field. */
  lemma TokenizeShape(text: string, sep: char)
    ensures Tokenize(text, sep).Ok? ==>
      |Tokenize(text, sep).value| >= 1 && forall row | row in Tokenize(text, sep).value :: |row| >= 1
    ensures text == [] ==> Tokenize(text, sep) == Ok([[""]])
  {
    if Run(Start, text, sep).Ok? {
      RunKeepsInv(Start, text, sep);
    }
    if text == [] {
      assert Run(Start, text, sep) == Ok(Start);
      assert Start.lines == [] && Start.state == WordStart;
      assert Start.lines + [Start.columns + [Start.word]] == [Start.columns + [Start.word]];
      assert Start.columns + [Start.word] == [""];
    }
  }
}
