/** Properties of the tokenizer of CSVParser.swift, stated about `Csv.Tokenize`
    (and so, through `Csv.Parse`'s postcondition, about the loop itself). */
module CsvProperties {
  import opened Wrappers
  import opened Strings
  import opened Csv

  /** Running over a concatenation is running over each part in turn; an error in
      the first part is final. */
  lemma {:induction false} RunAppend(t: Tok, a: string, b: string, sep: char)
    ensures Run(t, a + b, sep)
         == if Run(t, a, sep).Err? then Run(t, a, sep) else Run(Run(t, a, sep).value, b, sep)
    decreases |a|
  {
    if a != [] {
      assert (a + b)[0] == a[0] && (a + b)[1..] == a[1..] + b;
      if Step(t, a[0], sep).Ok? {
        RunAppend(Step(t, a[0], sep).value, a[1..], b, sep);
      }
    } else {
      assert a + b == b;
    }
  }

  lemma RunCons(t: Tok, c: char, rest: string, sep: char)
    ensures Run(t, [c] + rest, sep)
         == if Step(t, c, sep).Err? then Step(t, c, sep) else Run(Step(t, c, sep).value, rest, sep)
  {
    assert ([c] + rest)[0] == c && ([c] + rest)[1..] == rest;
  }

  // ---------------------------------------------------------------------------
  // Row count
  // ---------------------------------------------------------------------------

  /** The state-transition table of the four-state machine (error cells keep the state). */
  function NextState(st: State, c: char, sep: char): State {
    if IsNewline(c) then (if st == FirstQuote then FirstQuote else WordStart)
    else match st
      case WordStart => if c == sep then WordStart else if c == Quote then FirstQuote else InWord
      case InWord => if c == sep then WordStart else InWord
      case FirstQuote => if c == sep then FirstQuote else if c == Quote then SecondQuote else FirstQuote
      case SecondQuote => if c == sep then WordStart else if c == Quote then FirstQuote else SecondQuote
  }

  /** How many newlines of `s` are read, starting in `st`, while not inside quotes. */
  function RowBreaks(st: State, s: string, sep: char): nat
    decreases |s|
  {
    if s == [] then 0
    else (if IsNewline(s[0]) && st != FirstQuote then 1 else 0) + RowBreaks(NextState(st, s[0], sep), s[1..], sep)
  }

  /** Each successful step follows the table and ends a row exactly on a newline
      read outside quotes. */
  lemma StepFollowsTable(t: Tok, c: char, sep: char)
    requires Step(t, c, sep).Ok?
    ensures Step(t, c, sep).value.state == NextState(t.state, c, sep)
    ensures |Step(t, c, sep).value.lines|
         == |t.lines| + if IsNewline(c) && t.state != FirstQuote then 1 else 0
  {
  }

  lemma {:induction false} RunRowCount(t: Tok, s: string, sep: char)
    requires Run(t, s, sep).Ok?
    ensures |Run(t, s, sep).value.lines| == |t.lines| + RowBreaks(t.state, s, sep)
    decreases |s|
  {
    if s != [] {
      StepFollowsTable(t, s[0], sep);
      RunRowCount(Step(t, s[0], sep).value, s[1..], sep);
    }
  }

  /** The rows are one more than the newlines read outside a quoted field. */
  lemma RowCount(text: string, sep: char)
    requires Tokenize(text, sep).Ok?
    ensures |Tokenize(text, sep).value| == 1 + RowBreaks(WordStart, text, sep)
  {
    RunRowCount(Start, text, sep);
  }

  // ---------------------------------------------------------------------------
  // Errors
  // ---------------------------------------------------------------------------

  /** The two errors a character can raise, and exactly when. */
  lemma StepErrors(t: Tok, c: char, sep: char)
    ensures Step(t, c, sep) == Err(QuoteInNotQuotedWord)
       <==> t.state == InWord && !IsNewline(c) && c != sep && c == Quote
    ensures Step(t, c, sep) == Err(LetterOutsideQuotedWord)
       <==> t.state == SecondQuote && !IsNewline(c) && c != sep && c != Quote
    ensures Step(t, c, sep) != Err(EofInQuotedWord)
  {
  }

  /** A failing run fails at one character, every character before it being accepted. */
  lemma {:induction false} RunFailsAt(t: Tok, s: string, sep: char)
    requires Run(t, s, sep).Err?
    ensures exists i | 0 <= i < |s| ::
      Run(t, s[..i], sep).Ok? && Step(Run(t, s[..i], sep).value, s[i], sep) == Run(t, s, sep)
    decreases |s|
  {
    assert s != [];
    assert s[..0] == [];
    if Step(t, s[0], sep).Ok? {
      var t' := Step(t, s[0], sep).value;
      RunFailsAt(t', s[1..], sep);
      var i :| 0 <= i < |s[1..]| && Run(t', s[1..][..i], sep).Ok?
        && Step(Run(t', s[1..][..i], sep).value, s[1..][i], sep) == Run(t', s[1..], sep);
      assert s[..i + 1] == [s[0]] + s[1..][..i];
      RunCons(t, s[0], s[1..][..i], sep);
    }
  }

  /** The parse fails at character `i` when the characters before it are accepted
      and leave the machine in `st`. */
  predicate FailsAt(text: string, sep: char, i: int, st: State) {
    && 0 <= i < |text|
    && Run(Start, text[..i], sep).Ok?
    && Run(Start, text[..i], sep).value.state == st
  }

  lemma FailureFromPrefix(text: string, sep: char, i: int)
    requires 0 <= i < |text| && Run(Start, text[..i], sep).Ok?
    requires Step(Run(Start, text[..i], sep).value, text[i], sep).Err?
    ensures Tokenize(text, sep) == Err(Step(Run(Start, text[..i], sep).value, text[i], sep).error)
  {
    assert text == text[..i] + ([text[i]] + text[i + 1..]);
    RunAppend(Start, text[..i], [text[i]] + text[i + 1..], sep);
    RunCons(Run(Start, text[..i], sep).value, text[i], text[i + 1..], sep);
  }

  /** The three ways `parse()` throws: a quote inside an unquoted word, a character
      other than separator, quote or newline after a closing quote, and the end of
      the text inside an open quote. No partial result is returned in any case. */
  lemma TokenizeErrors(text: string, sep: char)
    ensures Tokenize(text, sep) == Err(QuoteInNotQuotedWord) <==>
      exists i :: FailsAt(text, sep, i, InWord) && text[i] == Quote && text[i] != sep
    ensures Tokenize(text, sep) == Err(LetterOutsideQuotedWord) <==>
      exists i :: FailsAt(text, sep, i, SecondQuote) && !IsNewline(text[i])
                  && text[i] != sep && text[i] != Quote
    ensures Tokenize(text, sep) == Err(EofInQuotedWord) <==>
      Run(Start, text, sep).Ok? && Run(Start, text, sep).value.state == FirstQuote
  {
    if Run(Start, text, sep).Err? {
      RunFailsAt(Start, text, sep);
      var i :| 0 <= i < |text| && Run(Start, text[..i], sep).Ok?
        && Step(Run(Start, text[..i], sep).value, text[i], sep) == Run(Start, text, sep);
      StepErrors(Run(Start, text[..i], sep).value, text[i], sep);
    }
    if exists i :: FailsAt(text, sep, i, InWord) && text[i] == Quote && text[i] != sep {
      var i :| FailsAt(text, sep, i, InWord) && text[i] == Quote && text[i] != sep;
      FailureFromPrefix(text, sep, i);
    }
    if exists i :: FailsAt(text, sep, i, SecondQuote) && !IsNewline(text[i])
                   && text[i] != sep && text[i] != Quote {
      var i :| FailsAt(text, sep, i, SecondQuote) && !IsNewline(text[i])
               && text[i] != sep && text[i] != Quote;
      FailureFromPrefix(text, sep, i);
    }
  }

  // ---------------------------------------------------------------------------
  // Text without quotes: split on newlines, then on the separator
  // ---------------------------------------------------------------------------

  /** Splits `s` at every occurrence of `sep`. */
  function SplitOn(s: string, sep: char): (r: seq<string>)
    ensures |r| >= 1
    decreases |s|
  {
    if s == [] then [[]]
    else
      var rest := SplitOn(s[1..], sep);
      if s[0] == sep then [[]] + rest else [[s[0]] + rest[0]] + rest[1..]
  }

  /** Joins the parts with `sep` between them. */
  function Join(parts: seq<string>, sep: char): string
    requires |parts| >= 1
    decreases |parts|
  {
    if |parts| == 1 then parts[0] else parts[0] + [sep] + Join(parts[1..], sep)
  }

  /** Splitting loses nothing, and no part holds the separator. */
  lemma {:induction false} SplitJoin(s: string, sep: char)
    ensures Join(SplitOn(s, sep), sep) == s
    ensures forall p | p in SplitOn(s, sep) :: sep !in p
    decreases |s|
  {
    if s != [] {
      SplitJoin(s[1..], sep);
      var rest := SplitOn(s[1..], sep);
      if s[0] == sep {
        assert ([[]] + rest)[1..] == rest;
      } else {
        var r := [[s[0]] + rest[0]] + rest[1..];
        if |rest| == 1 {
          assert Join(r, sep) == [s[0]] + rest[0];
        } else {
          assert r[1..] == rest[1..];
          assert Join(rest, sep) == rest[0] + [sep] + Join(rest[1..], sep);
        }
        assert s == [s[0]] + s[1..];
        forall p | p in r ensures sep !in p {
          if p == r[0] {
            assert p == [s[0]] + rest[0];
          } else {
            assert p in rest;
          }
        }
      }
    }
  }

  /** Splits `s` at every line terminator. */
  function SplitLines(s: string): (r: seq<string>)
    ensures |r| >= 1
    decreases |s|
  {
    if s == [] then [[]]
    else
      var rest := SplitLines(s[1..]);
      if IsNewline(s[0]) then [[]] + rest else [[s[0]] + rest[0]] + rest[1..]
  }

  function SplitFields(lines: seq<string>, sep: char): (r: seq<seq<string>>)
    ensures |r| == |lines|
  {
    seq(|lines|, k requires 0 <= k < |lines| => SplitOn(lines[k], sep))
  }

  /** The rows still to come when the current row holds `cols` and the word `w`,
      and the rest of the text splits into `rows`. */
  function Continue(cols: seq<string>, w: string, rows: seq<seq<string>>): seq<seq<string>>
    requires |rows| >= 1 && |rows[0]| >= 1
  {
    [cols + [w + rows[0][0]] + rows[0][1..]] + rows[1..]
  }

  lemma ContinueEmptyWord(cols: seq<string>, rows: seq<seq<string>>)
    requires |rows| >= 1 && |rows[0]| >= 1
    ensures Continue(cols, [], rows) == [cols + rows[0]] + rows[1..]
  {
    var first: string := rows[0][0];
    var empty: string := [];
    assert empty + first == first;
    assert [first] + rows[0][1..] == rows[0];
    assert cols + [first] + rows[0][1..] == cols + rows[0];
  }

  lemma ContinueFresh(rows: seq<seq<string>>)
    requires |rows| >= 1 && |rows[0]| >= 1
    ensures Continue([], [], rows) == rows
  {
    ContinueEmptyWord([], rows);
    assert [] + rows[0] == rows[0];
    assert [rows[0]] + rows[1..] == rows;
  }

  /** The rows a quote-free rest `s` yields from the machine state `t`. */
  function Expected(t: Tok, s: string, sep: char): seq<seq<string>> {
    t.lines + Continue(t.columns, t.word, SplitFields(SplitLines(s), sep))
  }

  lemma ExpectedAtEnd(t: Tok, sep: char)
    ensures Expected(t, [], sep) == t.lines + [t.columns + [t.word]]
  {
    var rows := SplitFields(SplitLines([]), sep);
    assert rows == [[[]]];
    var empty: string := [];
    assert rows[0][0] == empty && rows[0][1..] == [] && rows[1..] == [];
    assert t.word + empty == t.word;
    assert t.columns + [t.word + empty] + [] == t.columns + [t.word];
    assert Continue(t.columns, t.word, rows) == [t.columns + [t.word + empty] + []] + [];
  }

  lemma ExpectedNewline(t: Tok, c: char, s: string, sep: char)
    requires IsNewline(c)
    ensures Expected(t, [c] + s, sep) == Expected(Tok(WordStart, [], [], t.lines + [t.columns + [t.word]]), s, sep)
  {
    assert ([c] + s)[0] == c && ([c] + s)[1..] == s;
    var rows' := SplitFields(SplitLines(s), sep);
    var rows := SplitFields(SplitLines([c] + s), sep);
    assert SplitLines([c] + s) == [[]] + SplitLines(s);
    assert rows == [[[]]] + rows';
    ContinueFresh(rows');
    var empty: string := [];
    assert rows[0][0] == empty && rows[0][1..] == [] && rows[1..] == rows';
    assert t.word + empty == t.word;
    assert t.columns + [t.word + empty] + [] == t.columns + [t.word];
  }

  lemma ExpectedSeparator(t: Tok, s: string, sep: char)
    requires !IsNewline(sep)
    ensures Expected(t, [sep] + s, sep) == Expected(Tok(WordStart, [], t.columns + [t.word], t.lines), s, sep)
  {
    var c := sep;
    assert ([c] + s)[0] == c && ([c] + s)[1..] == s;
    var lines' := SplitLines(s);
    var rows' := SplitFields(lines', sep);
    var rows := SplitFields(SplitLines([c] + s), sep);
    assert SplitLines([c] + s) == [[c] + lines'[0]] + lines'[1..];
    assert ([c] + lines'[0])[0] == c && ([c] + lines'[0])[1..] == lines'[0];
    assert rows[0] == [[]] + rows'[0];
    assert rows[1..] == rows'[1..];
    var empty: string := [];
    assert t.word + empty == t.word;
    ContinueEmptyWord(t.columns + [t.word], rows');
    assert [t.columns + [t.word + rows[0][0]] + rows[0][1..]] + rows[1..]
        == [t.columns + [t.word] + rows'[0]] + rows'[1..];
  }

  lemma ExpectedOther(t: Tok, c: char, s: string, sep: char)
    requires !IsNewline(c) && c != sep
    ensures Expected(t, [c] + s, sep) == Expected(Tok(InWord, t.word + [c], t.columns, t.lines), s, sep)
  {
    assert ([c] + s)[0] == c && ([c] + s)[1..] == s;
    var lines' := SplitLines(s);
    var rows' := SplitFields(lines', sep);
    var rows := SplitFields(SplitLines([c] + s), sep);
    assert SplitLines([c] + s) == [[c] + lines'[0]] + lines'[1..];
    assert ([c] + lines'[0])[0] == c && ([c] + lines'[0])[1..] == lines'[0];
    assert rows[0] == [[c] + rows'[0][0]] + rows'[0][1..];
    assert rows[1..] == rows'[1..];
    assert t.word + [c] + rows'[0][0] == t.word + ([c] + rows'[0][0]);
  }

  lemma {:induction false} RunUnquoted(t: Tok, s: string, sep: char)
    requires Quote !in s
    requires t.state == WordStart || t.state == InWord
    requires t.state == WordStart ==> t.word == []
    ensures Run(t, s, sep).Ok?
    ensures Run(t, s, sep).value.state == WordStart || Run(t, s, sep).value.state == InWord
    ensures Finish(Run(t, s, sep).value) == Ok(Expected(t, s, sep))
    decreases |s|
  {
    if s == [] {
      ExpectedAtEnd(t, sep);
    } else {
      var c, s' := s[0], s[1..];
      assert s == [c] + s';
      assert Quote !in s' by { assert forall k | 0 <= k < |s'| :: s'[k] == s[k + 1]; }
      RunCons(t, c, s', sep);
      var t' := Step(t, c, sep).value;
      if IsNewline(c) {
        assert t' == Tok(WordStart, [], [], t.lines + [t.columns + [t.word]]);
        ExpectedNewline(t, c, s', sep);
      } else if c == sep {
        assert t' == Tok(WordStart, [], t.columns + [t.word], t.lines);
        ExpectedSeparator(t, s', sep);
      } else {
        assert c != Quote;
        assert t' == Tok(InWord, t.word + [c], t.columns, t.lines);
        ExpectedOther(t, c, s', sep);
      }
      RunUnquoted(t', s', sep);
    }
  }

  /** Without quote characters the result is the text split into lines, each line
      split on the separator, and only the two unquoted states are ever entered. */
  lemma TokenizeUnquoted(text: string, sep: char)
    requires Quote !in text
    ensures Tokenize(text, sep) == Ok(SplitFields(SplitLines(text), sep))
    ensures forall i | 0 <= i <= |text| ::
      Run(Start, text[..i], sep).Ok? &&
      (Run(Start, text[..i], sep).value.state == WordStart || Run(Start, text[..i], sep).value.state == InWord)
  {
    RunUnquoted(Start, text, sep);
    var rows := SplitFields(SplitLines(text), sep);
    ContinueFresh(rows);
    assert Start.lines == [] && Start.columns == [] && Start.word == [];
    assert Expected(Start, text, sep) == rows;
    forall i | 0 <= i <= |text|
      ensures Run(Start, text[..i], sep).Ok? &&
        (Run(Start, text[..i], sep).value.state == WordStart || Run(Start, text[..i], sep).value.state == InWord)
    {
      assert Quote !in text[..i] by { assert forall k | 0 <= k < i :: text[..i][k] == text[k]; }
      RunUnquoted(Start, text[..i], sep);
    }
  }

  // ---------------------------------------------------------------------------
  // Quoted fields: a writer the tokenizer inverts
  // ---------------------------------------------------------------------------

  /** Doubles every quote character. */
  function EscapeField(f: string): string
    decreases |f|
  {
    if f == [] then []
    else (if f[0] == Quote then [Quote, Quote] else [f[0]]) + EscapeField(f[1..])
  }

  /** A field written between quotes. */
  function QuoteField(f: string): string {
    [Quote] + EscapeField(f) + [Quote]
  }

  /** A row written as quoted fields separated by `sep`. */
  function WriteRow(row: seq<string>, sep: char): string
    requires |row| >= 1
    decreases |row|
  {
    if |row| == 1 then QuoteField(row[0]) else QuoteField(row[0]) + [sep] + WriteRow(row[1..], sep)
  }

  /** Rows written one per line. */
  function WriteTable(rows: seq<seq<string>>, sep: char): string
    requires |rows| >= 1 && forall k | 0 <= k < |rows| :: |rows[k]| >= 1
    decreases |rows|
  {
    if |rows| == 1 then WriteRow(rows[0], sep) else WriteRow(rows[0], sep) + ['\n'] + WriteTable(rows[1..], sep)
  }

  /** Inside quotes every character is kept literally (separators and newlines
      included) and a doubled quote stands for one quote. */
  lemma {:induction false} RunEscaped(t: Tok, f: string, sep: char)
    requires t.state == FirstQuote && sep != Quote
    ensures Run(t, EscapeField(f) + [Quote], sep) == Ok(t.(state := SecondQuote, word := t.word + f))
    decreases |f|
  {
    if f == [] {
      assert EscapeField(f) + [Quote] == [Quote] + [];
      RunCons(t, Quote, [], sep);
      assert t.word + f == t.word;
    } else {
      var c, f' := f[0], f[1..];
      var rest := EscapeField(f') + [Quote];
      var t2 := t.(word := t.word + [c]);
      RunEscaped(t2, f', sep);
      assert t.word + f == t.word + [c] + f' by { assert f == [c] + f'; }
      EscapeFieldCons(f);
      if c == Quote {
        RunCons(t, Quote, [Quote] + rest, sep);
        RunCons(t.(state := SecondQuote), Quote, rest, sep);
      } else {
        RunCons(t, c, rest, sep);
      }
    }
  }

  lemma EscapeFieldCons(f: string)
    requires f != []
    ensures f[0] == Quote ==> EscapeField(f) + [Quote] == [Quote] + ([Quote] + (EscapeField(f[1..]) + [Quote]))
    ensures f[0] != Quote ==> EscapeField(f) + [Quote] == [f[0]] + (EscapeField(f[1..]) + [Quote])
  {
    var r := EscapeField(f[1..]);
    if f[0] == Quote {
      PairThen(Quote, r, Quote);
    } else {
      OneThen(f[0], r, Quote);
    }
  }

  lemma PairThen<T>(x: T, r: seq<T>, y: T)
    ensures [x, x] + r + [y] == [x] + ([x] + (r + [y]))
  {
    assert [x, x] == [x] + [x];
  }

  lemma OneThen<T>(x: T, r: seq<T>, y: T)
    ensures [x] + r + [y] == [x] + (r + [y])
  {
  }

  lemma RunQuoteField(t: Tok, f: string, sep: char)
    requires t.state == WordStart && t.word == [] && sep != Quote
    ensures Run(t, QuoteField(f), sep) == Ok(Tok(SecondQuote, f, t.columns, t.lines))
  {
    assert QuoteField(f) == [Quote] + (EscapeField(f) + [Quote]);
    RunCons(t, Quote, EscapeField(f) + [Quote], sep);
    RunEscaped(t.(state := FirstQuote), f, sep);
    assert t.word + f == f;
  }

  /** A closing quote followed by the separator ends the field. */
  lemma SeparatorAfterQuote(w: string, cols: seq<string>, lines: seq<seq<string>>, rest: string, sep: char)
    requires sep != Quote && !IsNewline(sep)
    ensures Run(Tok(SecondQuote, w, cols, lines), [sep] + rest, sep)
         == Run(Tok(WordStart, [], cols + [w], lines), rest, sep)
  {
    RunCons(Tok(SecondQuote, w, cols, lines), sep, rest, sep);
  }

  /** A closing quote followed by a line terminator ends the field and the row. */
  lemma NewlineAfterQuote(w: string, cols: seq<string>, lines: seq<seq<string>>, c: char, rest: string, sep: char)
    requires IsNewline(c)
    ensures Run(Tok(SecondQuote, w, cols, lines), [c] + rest, sep)
         == Run(Tok(WordStart, [], [], lines + [cols + [w]]), rest, sep)
  {
    RunCons(Tok(SecondQuote, w, cols, lines), c, rest, sep);
  }

  /** A quoted field followed by the separator leaves the field in the row. */
  lemma FieldThenSeparator(t: Tok, f: string, rest: string, sep: char)
    requires t.state == WordStart && t.word == [] && sep != Quote && !IsNewline(sep)
    ensures Run(t, QuoteField(f) + ([sep] + rest), sep) == Run(Tok(WordStart, [], t.columns + [f], t.lines), rest, sep)
  {
    RunQuoteField(t, f, sep);
    RunAppend(t, QuoteField(f), [sep] + rest, sep);
    SeparatorAfterQuote(f, t.columns, t.lines, rest, sep);
  }

  lemma {:induction false} RunWriteRow(t: Tok, row: seq<string>, sep: char)
    requires t.state == WordStart && t.word == [] && sep != Quote && !IsNewline(sep)
    requires |row| >= 1
    ensures Run(t, WriteRow(row, sep), sep)
         == Ok(Tok(SecondQuote, row[|row| - 1], t.columns + row[..|row| - 1], t.lines))
    decreases |row|
  {
    var f := row[0];
    if |row| == 1 {
      RunQuoteField(t, f, sep);
      assert t.columns + row[..0] == t.columns;
    } else {
      var tail := row[1..];
      var rest := WriteRow(tail, sep);
      assert WriteRow(row, sep) == QuoteField(f) + ([sep] + rest);
      FieldThenSeparator(t, f, rest, sep);
      var t2 := Tok(WordStart, [], t.columns + [f], t.lines);
      RunWriteRow(t2, tail, sep);
      InitOfTail(t.columns, row);
    }
  }

  lemma InitOfTail(cols: seq<string>, row: seq<string>)
    requires |row| >= 2
    ensures row[1..][|row| - 2] == row[|row| - 1]
    ensures cols + [row[0]] + row[1..][..|row| - 2] == cols + row[..|row| - 1]
  {
    assert row[..|row| - 1] == [row[0]] + row[1..][..|row| - 2];
  }

  lemma InitThenLast(row: seq<string>)
    requires |row| >= 1
    ensures row[..|row| - 1] + [row[|row| - 1]] == row
  {
  }

  /** A written row followed by a newline leaves the row in the table. */
  lemma RowThenNewline(t: Tok, row: seq<string>, rest: string, sep: char)
    requires t.state == WordStart && t.word == [] && t.columns == [] && sep != Quote && !IsNewline(sep)
    requires |row| >= 1
    ensures Run(t, WriteRow(row, sep) + (['\n'] + rest), sep) == Run(Tok(WordStart, [], [], t.lines + [row]), rest, sep)
  {
    var n := |row|;
    RunWriteRow(t, row, sep);
    RunAppend(t, WriteRow(row, sep), ['\n'] + rest, sep);
    NewlineAfterQuote(row[n - 1], row[..n - 1], t.lines, '\n', rest, sep);
    assert t.columns + row[..n - 1] == row[..n - 1];
    InitThenLast(row);
  }

  /** The last row, which no newline follows, is completed by `Finish`. */
  lemma LastRowFinishes(t: Tok, row: seq<string>, sep: char)
    requires t.state == WordStart && t.word == [] && t.columns == []
    requires sep != Quote && !IsNewline(sep)
    requires |row| >= 1
    ensures Run(t, WriteRow(row, sep), sep).Ok?
    ensures Finish(Run(t, WriteRow(row, sep), sep).value) == Ok(t.lines + [row])
  {
    var n := |row|;
    RunWriteRow(t, row, sep);
    var t1 := Tok(SecondQuote, row[n - 1], t.columns + row[..n - 1], t.lines);
    assert t1.columns + [t1.word] == row by {
      assert t.columns + row[..n - 1] == row[..n - 1];
      InitThenLast(row);
    }
  }

  lemma RowsOfTail(rows: seq<seq<string>>)
    requires |rows| >= 1 && forall k | 0 <= k < |rows| :: |rows[k]| >= 1
    ensures forall k | 0 <= k < |rows[1..]| :: |rows[1..][k]| >= 1
  {
    assert forall k | 0 <= k < |rows[1..]| :: rows[1..][k] == rows[k + 1];
  }

  lemma ConsTail<T>(a: seq<T>, xs: seq<T>)
    requires |xs| >= 1
    ensures a + [xs[0]] + xs[1..] == a + xs
  {
    assert xs == [xs[0]] + xs[1..];
  }

  /** The first row of a table of several rows is read up to its newline. */
  lemma TableStep(t: Tok, rows: seq<seq<string>>, sep: char)
    requires t.state == WordStart && t.word == [] && t.columns == []
    requires sep != Quote && !IsNewline(sep)
    requires |rows| >= 2 && forall k | 0 <= k < |rows| :: |rows[k]| >= 1
    ensures Run(t, WriteTable(rows, sep), sep)
         == Run(Tok(WordStart, [], [], t.lines + [rows[0]]), WriteTable(rows[1..], sep), sep)
  {
    var rest := WriteTable(rows[1..], sep);
    assert WriteTable(rows, sep) == WriteRow(rows[0], sep) + (['\n'] + rest);
    RowThenNewline(t, rows[0], rest, sep);
  }

  lemma {:induction false} RunWriteTable(t: Tok, rows: seq<seq<string>>, sep: char)
    requires t.state == WordStart && t.word == [] && t.columns == []
    requires sep != Quote && !IsNewline(sep)
    requires |rows| >= 1 && forall k | 0 <= k < |rows| :: |rows[k]| >= 1
    ensures Run(t, WriteTable(rows, sep), sep).Ok?
    ensures Finish(Run(t, WriteTable(rows, sep), sep).value) == Ok(t.lines + rows)
    decreases |rows|
  {
    var r0 := rows[0];
    if |rows| == 1 {
      LastRowFinishes(t, r0, sep);
      assert rows == [r0];
    } else {
      var tail := rows[1..];
      TableStep(t, rows, sep);
      RowsOfTail(rows);
      RunWriteTable(Tok(WordStart, [], [], t.lines + [r0]), tail, sep);
      ConsTail(t.lines, rows);
    }
  }

  /** Reading back what the writer produced gives the same rows: every field may
      hold separators, newlines and quotes. */
  lemma TokenizeWritten(rows: seq<seq<string>>, sep: char)
    requires sep != Quote && !IsNewline(sep)
    requires |rows| >= 1 && forall k | 0 <= k < |rows| :: |rows[k]| >= 1
    ensures Tokenize(WriteTable(rows, sep), sep) == Ok(rows)
  {
    RunWriteTable(Start, rows, sep);
    assert Start.lines + rows == rows;
  }

  /** One quoted field on its own reads back literally, e.g. `"Hey; you"` as
      `Hey; you`, a field holding a newline, or `"Dit ""Bonjour"""` as `Dit "Bonjour"`. */
  lemma QuotedFieldReadsBack(f: string, sep: char)
    requires sep != Quote && !IsNewline(sep)
    ensures Tokenize(QuoteField(f), sep) == Ok([[f]])
  {
    TokenizeWritten([[f]], sep);
  }
}
