/** Properties of the tokenizer of app/page.tsx: what each branch of the
    scanning loop does, that a table written with every field quoted is read
    back unchanged, that quote-free text is split at line feeds and then at
    the delimiter, and that the delimiter retry happens at most once. */
module TokenizerProps {
  import opened Text
  import opened Tokenizer

  // ---------------------------------------------------------------------
  // The branches of the scanning loop, one character (or pair) at a time.

  /** Inside quotes, `""` adds one literal quote and stays quoted. */
  lemma ScanEscapedQuote(s: string, delimiter: char, st: ScanState)
    requires st.inQuotes
    ensures Scan(['"', '"'] + s, delimiter, st) == Scan(s, delimiter, st.(field := st.field + ['"']))
  {
    assert (['"', '"'] + s)[2..] == s;
  }

  /** Inside quotes, a quote not followed by another leaves quoted mode and
      is not kept. */
  lemma ScanClosingQuote(s: string, delimiter: char, st: ScanState)
    requires st.inQuotes
    requires s == [] || s[0] != '"'
    ensures Scan(['"'] + s, delimiter, st) == Scan(s, delimiter, st.(inQuotes := false))
  {
    assert (['"'] + s)[1..] == s;
  }

  /** Inside quotes, every other character (the delimiter, line feed and
      carriage return included) is kept as it is. */
  lemma ScanQuotedCharacter(c: char, s: string, delimiter: char, st: ScanState)
    requires st.inQuotes && c != '"'
    ensures Scan([c] + s, delimiter, st) == Scan(s, delimiter, st.(field := st.field + [c]))
  {
    assert ([c] + s)[1..] == s;
  }

  /** Outside quotes, a quote (wherever it stands in the field) enters quoted
      mode and is not kept. */
  lemma ScanOpeningQuote(s: string, delimiter: char, st: ScanState)
    requires !st.inQuotes
    ensures Scan(['"'] + s, delimiter, st) == Scan(s, delimiter, st.(inQuotes := true))
  {
    assert (['"'] + s)[1..] == s;
  }

  /** Outside quotes, the delimiter closes the field. */
  lemma ScanDelimiter(s: string, delimiter: char, st: ScanState)
    requires !st.inQuotes && delimiter != '"'
    ensures Scan([delimiter] + s, delimiter, st) == Scan(s, delimiter, PushField(st))
  {
    assert ([delimiter] + s)[1..] == s;
  }

  /** Outside quotes, a line feed closes the field and the row, and swallows
      one carriage return right after it. */
  lemma ScanLineFeed(s: string, delimiter: char, st: ScanState)
    requires !st.inQuotes && delimiter != '\n'
    ensures Scan(['\n'] + s, delimiter, st)
            == Scan(if s != [] && s[0] == '\r' then s[1..] else s, delimiter, PushRow(PushField(st)))
  {
    assert (['\n'] + s)[1..] == s;
    assert s != [] ==> (['\n'] + s)[2..] == s[1..];
  }

  /** Outside quotes, a carriage return closes the field and the row and
      does not swallow a line feed after it. */
  lemma ScanCarriageReturn(s: string, delimiter: char, st: ScanState)
    requires !st.inQuotes && delimiter != '\r'
    ensures Scan(['\r'] + s, delimiter, st) == Scan(s, delimiter, PushRow(PushField(st)))
  {
    assert (['\r'] + s)[1..] == s;
  }

  /** Outside quotes, any other character is kept. */
  lemma ScanPlainCharacter(c: char, s: string, delimiter: char, st: ScanState)
    requires !st.inQuotes && c != '"' && c != delimiter && c != '\n' && c != '\r'
    ensures Scan([c] + s, delimiter, st) == Scan(s, delimiter, st.(field := st.field + [c]))
  {
    assert ([c] + s)[1..] == s;
  }

  /** Consequently `\r\n` is two line breaks, the second closing an empty
      row `[""]`, while `\n\r` is one. */
  lemma CarriageReturnLineFeed(s: string, delimiter: char, st: ScanState)
    requires !st.inQuotes && delimiter != '\r' && delimiter != '\n'
    requires s == [] || s[0] != '\r'
    ensures var closed := PushRow(PushField(st));
            Scan(['\r', '\n'] + s, delimiter, st)
            == Scan(s, delimiter, closed.(rows := closed.rows + [[[]]]))
  {
    var closed := PushRow(PushField(st));
    assert ['\r', '\n'] + s == ['\r'] + (['\n'] + s);
    ScanCarriageReturn(['\n'] + s, delimiter, st);
    ScanLineFeed(s, delimiter, closed);
    assert closed.row == [] && closed.field == [];
    assert PushField(closed).row == [[]];
    assert PushRow(PushField(closed)) == closed.(rows := closed.rows + [[[]]]);
  }

  lemma LineFeedCarriageReturn(s: string, delimiter: char, st: ScanState)
    requires !st.inQuotes && delimiter != '\r' && delimiter != '\n'
    ensures Scan(['\n', '\r'] + s, delimiter, st) == Scan(s, delimiter, PushRow(PushField(st)))
  {
    assert ['\n', '\r'] + s == ['\n'] + (['\r'] + s);
    ScanLineFeed(['\r'] + s, delimiter, st);
    assert (['\r'] + s)[1..] == s;
  }

  // ---------------------------------------------------------------------
  // Writing a table with every field quoted, and reading it back.

  /** Each quote doubled. */
  function Escape(f: string): string {
    if f == [] then [] else (if f[0] == '"' then ['"', '"'] else [f[0]]) + Escape(f[1..])
  }

  function Quote(f: string): string {
    ['"'] + Escape(f) + ['"']
  }

  /** A row as quoted fields separated by the delimiter. */
  function JoinFields(fields: Row, delimiter: char): (r: string)
    requires |fields| >= 1
    ensures |r| >= 2 && r[0] == '"'
  {
    if |fields| == 1 then Quote(fields[0])
    else Quote(fields[0]) + [delimiter] + JoinFields(fields[1..], delimiter)
  }

  /** A table as rows separated by line feeds (no final line feed). */
  function JoinRows(table: seq<Row>, delimiter: char): (r: string)
    requires |table| >= 1 && RowsNonEmpty(table)
    ensures |r| >= 2 && r[0] == '"'
  {
    if |table| == 1 then JoinFields(table[0], delimiter)
    else JoinFields(table[0], delimiter) + ['\n'] + JoinRows(table[1..], delimiter)
  }

  /** Inside quotes, the escaped form of one character adds that character. */
  lemma ScanEscapedCharacter(c: char, tail: string, delimiter: char, st: ScanState)
    requires st.inQuotes
    ensures Scan(Escape([c]) + tail, delimiter, st) == Scan(tail, delimiter, st.(field := st.field + [c]))
  {
    if c == '"' {
      assert Escape([c]) + tail == ['"', '"'] + tail;
      ScanEscapedQuote(tail, delimiter, st);
    } else {
      assert Escape([c]) + tail == [c] + tail;
      ScanQuotedCharacter(c, tail, delimiter, st);
    }
  }

  lemma {:induction false} ScanEscaped(f: string, rest: string, delimiter: char, st: ScanState)
    requires st.inQuotes
    requires rest == [] || rest[0] != '"'
    ensures Scan(Escape(f) + ['"'] + rest, delimiter, st)
            == Scan(['"'] + rest, delimiter, st.(field := st.field + f))
  {
    if f == [] {
      assert Escape(f) + ['"'] + rest == ['"'] + rest;
      assert st.field + f == st.field;
    } else {
      var c := f[0];
      var tail := Escape(f[1..]) + ['"'] + rest;
      var st1 := st.(field := st.field + [c]);
      EscapeCons(f, rest);
      ScanEscapedCharacter(c, tail, delimiter, st);
      ScanEscaped(f[1..], rest, delimiter, st1);
      FieldAfterFirst(f, st);
    }
  }

  /** The escaped form of a field is its first character's followed by the
      rest's. */
  lemma EscapeCons(f: string, rest: string)
    requires f != []
    ensures Escape(f) + ['"'] + rest == Escape([f[0]]) + (Escape(f[1..]) + ['"'] + rest)
  {
    assert Escape(f) == Escape([f[0]]) + Escape(f[1..]);
  }

  lemma FieldAfterFirst(f: string, st: ScanState)
    requires f != []
    ensures var st1 := st.(field := st.field + [f[0]]);
            st1.(field := st1.field + f[1..]) == st.(field := st.field + f)
  {
    assert st.field + [f[0]] + f[1..] == st.field + f;
  }

  // ---------------------------------------------------------------------
  // An unterminated quote. After an opening quote, a rest of the text that
  // never closes it holds quotes only in doubled pairs (`StaysQuoted`), and
  // such texts are exactly the escapes of fields (`StaysQuotedIsEscape`,
  // `EscapeStaysQuoted`).

  /** A text the scanner reads inside quotes without ever leaving them:
      every quote starts a doubled pair. */
  predicate StaysQuoted(s: string)
    decreases |s|
  {
    || s == []
    || (s[0] != '"' && StaysQuoted(s[1..]))
    || (|s| >= 2 && s[0] == '"' && s[1] == '"' && StaysQuoted(s[2..]))
  }

  /** Each doubled pair read as one quote. */
  function Unescape(s: string): string
    requires StaysQuoted(s)
    decreases |s|
  {
    if s == [] then []
    else if s[0] != '"' then [s[0]] + Unescape(s[1..])
    else ['"'] + Unescape(s[2..])
  }

  /** A text that stays quoted is the escape of its unescaping. */
  lemma {:induction false} StaysQuotedIsEscape(s: string)
    requires StaysQuoted(s)
    ensures Escape(Unescape(s)) == s
    decreases |s|
  {
    if s != [] {
      var f := Unescape(s);
      EscapeHead(f);
      if s[0] != '"' {
        StaysQuotedIsEscape(s[1..]);
        assert f[1..] == Unescape(s[1..]);
        assert s == [s[0]] + s[1..];
      } else {
        StaysQuotedIsEscape(s[2..]);
        assert f[1..] == Unescape(s[2..]);
        assert s == ['"', '"'] + s[2..];
      }
    }
  }

  /** Every escape stays quoted, and unescaping gives the field back. */
  lemma {:induction false} EscapeStaysQuoted(f: string)
    ensures StaysQuoted(Escape(f)) && Unescape(Escape(f)) == f
    decreases |f|
  {
    if f != [] {
      EscapeStaysQuoted(f[1..]);
      var e := Escape(f);
      if f[0] == '"' {
        assert e == ['"', '"'] + Escape(f[1..]);
        assert e[2..] == Escape(f[1..]);
      } else {
        assert e == [f[0]] + Escape(f[1..]);
        assert e[1..] == Escape(f[1..]);
      }
      assert f == [f[0]] + f[1..];
    }
  }

  lemma EscapeHead(f: string)
    requires f != []
    ensures Escape(f) == Escape([f[0]]) + Escape(f[1..])
  {
  }

  /** Inside quotes, an escaped field is read back verbatim and leaves the
      scanner inside quotes. */
  lemma {:induction false} ScanInsideEscaped(f: string, delimiter: char, st: ScanState)
    requires st.inQuotes
    ensures Scan(Escape(f), delimiter, st) == st.(field := st.field + f)
    decreases |f|
  {
    if f == [] {
      assert st.field + f == st.field;
    } else {
      EscapeHead(f);
      ScanEscapedCharacter(f[0], Escape(f[1..]), delimiter, st);
      ScanInsideEscaped(f[1..], delimiter, st.(field := st.field + [f[0]]));
      FieldAfterFirst(f, st);
    }
  }

  /** A quote that opens a field and is never closed puts all the rest of the
      text into that field, each doubled quote as one quote, and that field
      ends the last row. */
  lemma UnterminatedQuote(f: string, delimiter: char, st: ScanState)
    requires !st.inQuotes
    ensures Flush(Scan(['"'] + Escape(f), delimiter, st)) == st.rows + [st.row + [st.field + f]]
  {
    ScanOpeningQuote(Escape(f), delimiter, st);
    ScanInsideEscaped(f, delimiter, st.(inQuotes := true));
  }

  /** In particular, a text that opens with a quote it never closes is one
      field of one row. */
  lemma UnterminatedQuoteText(f: string, delimiter: char)
    ensures ParseOnce(['"'] + Escape(f), delimiter) == [[f]]
  {
    UnterminatedQuote(f, delimiter, Start);
    assert Start.field + f == f;
    assert Start.row + [f] == [f];
  }

  /** A quote that is never closed, whatever follows it: the field holds the
      rest of the text with each doubled quote read as one. */
  lemma UnterminatedQuoteAny(s: string, delimiter: char, st: ScanState)
    requires !st.inQuotes && StaysQuoted(s)
    ensures Flush(Scan(['"'] + s, delimiter, st)) == st.rows + [st.row + [st.field + Unescape(s)]]
  {
    StaysQuotedIsEscape(s);
    UnterminatedQuote(Unescape(s), delimiter, st);
  }

  /** A text that opens with a quote it never closes is one field of one row. */
  lemma UnterminatedQuoteTextAny(s: string, delimiter: char)
    requires StaysQuoted(s)
    ensures ParseOnce(['"'] + s, delimiter) == [[Unescape(s)]]
  {
    StaysQuotedIsEscape(s);
    UnterminatedQuoteText(Unescape(s), delimiter);
  }

  /** `"a""b` is the one field `a"b`. */
  lemma UnterminatedWithEscapedQuote(delimiter: char)
    ensures ParseOnce("\"a\"\"b", delimiter) == [["a\"b"]]
  {
    assert Escape("a\"b") == "a\"\"b";
    UnterminatedQuoteText("a\"b", delimiter);
  }

  lemma ScanQuoted(f: string, rest: string, delimiter: char, st: ScanState)
    requires !st.inQuotes
    requires rest == [] || rest[0] != '"'
    ensures Scan(Quote(f) + rest, delimiter, st) == Scan(rest, delimiter, st.(field := st.field + f))
  {
    assert Quote(f) + rest == ['"'] + (Escape(f) + ['"'] + rest);
    ScanOpeningQuote(Escape(f) + ['"'] + rest, delimiter, st);
    ScanEscaped(f, rest, delimiter, st.(inQuotes := true));
    ScanClosingQuote(rest, delimiter, st.(inQuotes := true, field := st.field + f));
  }

  /** A quoted field followed by the delimiter closes that field. */
  lemma ScanQuotedThenDelimiter(f: string, more: string, delimiter: char, st: ScanState)
    requires !st.inQuotes && st.field == [] && delimiter != '"'
    ensures Scan(Quote(f) + ([delimiter] + more), delimiter, st)
            == Scan(more, delimiter, st.(row := st.row + [f], field := []))
  {
    var quoted := st.(field := f);
    assert st.(field := st.field + f) == quoted;
    ScanQuoted(f, [delimiter] + more, delimiter, st);
    ScanDelimiter(more, delimiter, quoted);
  }

  /** A row of one quoted field leaves that field pending. */
  lemma ScanLastField(fields: Row, rest: string, delimiter: char, st: ScanState)
    requires |fields| == 1
    requires !st.inQuotes && st.field == []
    requires rest == [] || rest[0] != '"'
    ensures Scan(JoinFields(fields, delimiter) + rest, delimiter, st)
            == Scan(rest, delimiter, st.(row := st.row + fields[..0], field := fields[0]))
  {
    calc {
      Scan(JoinFields(fields, delimiter) + rest, delimiter, st);
      { assert JoinFields(fields, delimiter) == Quote(fields[0]); }
      Scan(Quote(fields[0]) + rest, delimiter, st);
      { ScanQuoted(fields[0], rest, delimiter, st); }
      Scan(rest, delimiter, st.(field := st.field + fields[0]));
      { assert st.row + fields[..0] == st.row;
        assert st.field + fields[0] == fields[0]; }
      Scan(rest, delimiter, st.(row := st.row + fields[..0], field := fields[0]));
    }
  }

  lemma {:induction false} ScanFields(fields: Row, rest: string, delimiter: char, st: ScanState)
    requires |fields| >= 1
    requires !st.inQuotes && st.field == [] && delimiter != '"'
    requires rest == [] || rest[0] != '"'
    ensures Scan(JoinFields(fields, delimiter) + rest, delimiter, st)
            == Scan(rest, delimiter, st.(row := st.row + fields[..|fields| - 1], field := fields[|fields| - 1]))
  {
    var n := |fields|;
    if n == 1 {
      ScanLastField(fields, rest, delimiter, st);
    } else {
      var more := JoinFields(fields[1..], delimiter) + rest;
      var closed := st.(row := st.row + [fields[0]], field := []);
      calc {
        Scan(JoinFields(fields, delimiter) + rest, delimiter, st);
        { JoinFieldsCons(fields, rest, delimiter); }
        Scan(Quote(fields[0]) + ([delimiter] + more), delimiter, st);
        { ScanQuotedThenDelimiter(fields[0], more, delimiter, st); }
        Scan(more, delimiter, closed);
        { ScanFields(fields[1..], rest, delimiter, closed); }
        Scan(rest, delimiter, closed.(row := closed.row + fields[1..][..n - 2], field := fields[1..][n - 2]));
        { PendingAfterFirst(fields, st); }
        Scan(rest, delimiter, st.(row := st.row + fields[..n - 1], field := fields[n - 1]));
      }
    }
  }

  /** The text of a row of two or more fields: the first quoted field, the
      delimiter, then the others. */
  lemma JoinFieldsCons(fields: Row, rest: string, delimiter: char)
    requires |fields| >= 2
    ensures JoinFields(fields, delimiter) + rest
            == Quote(fields[0]) + ([delimiter] + (JoinFields(fields[1..], delimiter) + rest))
  {
  }

  /** Closing the first field, then the others but the last, leaves the
      same row as closing all but the last at once. */
  lemma PendingAfterFirst(fields: Row, st: ScanState)
    requires |fields| >= 2
    ensures var closed := st.(row := st.row + [fields[0]], field := []);
            var n := |fields|;
            closed.(row := closed.row + fields[1..][..n - 2], field := fields[1..][n - 2])
            == st.(row := st.row + fields[..n - 1], field := fields[n - 1])
  {
    var n := |fields|;
    assert st.row + [fields[0]] + fields[1..][..n - 2] == st.row + fields[..n - 1];
  }

  /** A row written as quoted fields, then a line feed: the row is closed
      (the text after the line feed starts with a quote, so nothing is
      swallowed). */
  lemma ScanRowBreak(row: Row, more: string, delimiter: char, rows: seq<Row>)
    requires |row| >= 1 && delimiter != '\n' && delimiter != '"'
    requires more != [] && more[0] == '"'
    ensures Scan(JoinFields(row, delimiter) + (['\n'] + more), delimiter, ScanState(false, [], [], rows))
            == Scan(more, delimiter, ScanState(false, [], [], rows + [row]))
  {
    var st0 := ScanState(false, [], [], rows);
    var st1 := ScanState(false, row[|row| - 1], row[..|row| - 1], rows);
    calc {
      Scan(JoinFields(row, delimiter) + (['\n'] + more), delimiter, st0);
      { ScanFields(row, ['\n'] + more, delimiter, st0);
        assert st0.(row := st0.row + row[..|row| - 1], field := row[|row| - 1]) == st1 by {
          assert [] + row[..|row| - 1] == row[..|row| - 1];
        } }
      Scan(['\n'] + more, delimiter, st1);
      { ScanLineFeed(more, delimiter, st1); }
      Scan(more, delimiter, PushRow(PushField(st1)));
      { assert row[..|row| - 1] + [row[|row| - 1]] == row; }
      Scan(more, delimiter, ScanState(false, [], [], rows + [row]));
    }
  }

  lemma {:induction false} ScanRows(table: seq<Row>, delimiter: char, rows: seq<Row>)
    requires |table| >= 1 && RowsNonEmpty(table)
    requires delimiter != '"' && delimiter != '\n'
    ensures var last := table[|table| - 1];
            Scan(JoinRows(table, delimiter), delimiter, ScanState(false, [], [], rows))
            == ScanState(false, last[|last| - 1], last[..|last| - 1], rows + table[..|table| - 1])
  {
    var first := table[0];
    var n := |table|;
    if n == 1 {
      ScanFields(first, [], delimiter, ScanState(false, [], [], rows));
      assert JoinRows(table, delimiter) + [] == JoinRows(table, delimiter);
      assert [] + first[..|first| - 1] == first[..|first| - 1];
    } else {
      var more := JoinRows(table[1..], delimiter);
      var last := table[n - 1];
      calc {
        Scan(JoinRows(table, delimiter), delimiter, ScanState(false, [], [], rows));
        { assert JoinRows(table, delimiter) == JoinFields(first, delimiter) + (['\n'] + more); }
        Scan(JoinFields(first, delimiter) + (['\n'] + more), delimiter, ScanState(false, [], [], rows));
        { ScanRowBreak(first, more, delimiter, rows); }
        Scan(more, delimiter, ScanState(false, [], [], rows + [first]));
        { ScanRows(table[1..], delimiter, rows + [first]);
          assert table[1..][n - 2] == last; }
        ScanState(false, last[|last| - 1], last[..|last| - 1], rows + [first] + table[1..][..n - 2]);
        { assert rows + [first] + table[1..][..n - 2] == rows + table[..n - 1]; }
        ScanState(false, last[|last| - 1], last[..|last| - 1], rows + table[..n - 1]);
      }
    }
  }

  /** Round trip: a table written with every field quoted (quotes doubled)
      and rows separated by line feeds is read back by one pass exactly,
      delimiters, quotes and line breaks inside fields included. */
  lemma QuotedTableRoundTrip(table: seq<Row>, delimiter: char)
    requires |table| >= 1 && RowsNonEmpty(table)
    requires delimiter != '"' && delimiter != '\n'
    ensures ParseOnce(JoinRows(table, delimiter), delimiter) == table
  {
    ScanRows(table, delimiter, []);
    var last := table[|table| - 1];
    assert last[..|last| - 1] + [last[|last| - 1]] == last;
    assert table[..|table| - 1] + [last] == table;
  }

  /** ... and `parseCSV` gives it back too unless the table is degenerate
      (a single row, or a first row of one field), when the retry may
      re-read it with another delimiter. */
  lemma ParseQuotedTable(table: seq<Row>, delimiter: char)
    requires |table| >= 1 && RowsNonEmpty(table) && !Degenerate(table)
    requires delimiter != '"' && delimiter != '\n'
    ensures Parse(JoinRows(table, delimiter), delimiter) == table
  {
    QuotedTableRoundTrip(table, delimiter);
  }

  // ---------------------------------------------------------------------
  // Text without quotes and carriage returns: split at line feeds, then at
  // the delimiter.

  /** The reference reading of quote-free text: its lines, each split at the
      delimiter. */
  function SplitTable(s: string, delimiter: char): (t: seq<Row>)
    ensures |t| >= 1
  {
    SplitLines(Split(s, '\n'), delimiter)
  }

  function SplitLines(lines: seq<string>, delimiter: char): (t: seq<Row>)
    ensures |t| == |lines|
  {
    if lines == [] then [] else [Split(lines[0], delimiter)] + SplitLines(lines[1..], delimiter)
  }

  /** The state after a stretch whose pieces between delimiters are
      `pieces`: the first piece continues the pending field, the last one is
      left pending, and the ones before it join the row. */
  function Absorb(st: ScanState, pieces: seq<string>): ScanState
    requires |pieces| >= 1
  {
    var fields := [st.field + pieces[0]] + pieces[1..];
    st.(row := st.row + fields[..|fields| - 1], field := fields[|fields| - 1])
  }

  lemma AbsorbDelimiter(st: ScanState, tail: seq<string>)
    requires |tail| >= 1
    ensures Absorb(PushField(st), tail) == Absorb(st, [[]] + tail)
  {
    var fields := [st.field + []] + tail;
    var empty: string := [];
    assert empty + tail[0] == tail[0];
    assert [tail[0]] + tail[1..] == tail;
    assert st.field + [] == st.field;
    assert st.row + [st.field] + tail[..|tail| - 1] == st.row + fields[..|fields| - 1];
  }

  lemma AbsorbCharacter(st: ScanState, c: char, tail: seq<string>)
    requires |tail| >= 1
    ensures Absorb(st.(field := st.field + [c]), tail) == Absorb(st, [[c] + tail[0]] + tail[1..])
  {
    assert st.field + [c] + tail[0] == st.field + ([c] + tail[0]);
  }

  /** A stretch without quotes and line breaks: the delimiter closes fields
      and every other character is kept. */
  lemma {:induction false} ScanPlainRun(s: string, rest: string, delimiter: char, st: ScanState)
    requires !st.inQuotes && '"' !in s && '\n' !in s && '\r' !in s
    ensures Scan(s + rest, delimiter, st) == Scan(rest, delimiter, Absorb(st, Split(s, delimiter)))
  {
    if s == [] {
      assert s + rest == rest;
      assert st.field + [] == st.field;
      assert Absorb(st, [[]]) == st;
    } else {
      var c := s[0];
      assert c != '"' && c != '\n' && c != '\r';
      var tail := Split(s[1..], delimiter);
      assert s + rest == [c] + (s[1..] + rest);
      if c == delimiter {
        ScanDelimiter(s[1..] + rest, delimiter, st);
        ScanPlainRun(s[1..], rest, delimiter, PushField(st));
        AbsorbDelimiter(st, tail);
      } else {
        ScanPlainCharacter(c, s[1..] + rest, delimiter, st);
        ScanPlainRun(s[1..], rest, delimiter, st.(field := st.field + [c]));
        AbsorbCharacter(st, c, tail);
      }
    }
  }

  /** A quote-free line with its line break closes a row of its pieces. */
  lemma ScanPlainLineBreak(line: string, rest: string, delimiter: char, rows: seq<Row>)
    requires '"' !in line && '\n' !in line && '\r' !in line && delimiter != '\n'
    requires rest == [] || rest[0] != '\r'
    ensures Scan(line + (['\n'] + rest), delimiter, ScanState(false, [], [], rows))
            == Scan(rest, delimiter, ScanState(false, [], [], rows + [Split(line, delimiter)]))
  {
    var st0 := ScanState(false, [], [], rows);
    var pieces := Split(line, delimiter);
    ScanPlainRun(line, ['\n'] + rest, delimiter, st0);
    PendingPieces(pieces, rows);
    ScanLineFeed(rest, delimiter, Absorb(st0, pieces));
  }

  /** The last line, flushed at the end of the text. */
  lemma ScanPlainLastLine(line: string, delimiter: char, rows: seq<Row>)
    requires '"' !in line && '\n' !in line && '\r' !in line
    ensures Flush(Scan(line, delimiter, ScanState(false, [], [], rows))) == rows + [Split(line, delimiter)]
  {
    var st0 := ScanState(false, [], [], rows);
    ScanPlainRun(line, [], delimiter, st0);
    assert line + [] == line;
    PendingPieces(Split(line, delimiter), rows);
  }

  lemma PendingPieces(pieces: seq<string>, rows: seq<Row>)
    requires |pieces| >= 1
    ensures PushRow(PushField(Absorb(ScanState(false, [], [], rows), pieces)))
            == ScanState(false, [], [], rows + [pieces])
  {
    var empty: string := [];
    assert empty + pieces[0] == pieces[0];
    assert [pieces[0]] + pieces[1..] == pieces;
    assert [] + pieces[..|pieces| - 1] == pieces[..|pieces| - 1];
    assert pieces[..|pieces| - 1] + [pieces[|pieces| - 1]] == pieces;
  }

  lemma {:induction false} ScanPlainLines(s: string, delimiter: char, rows: seq<Row>)
    requires '"' !in s && '\r' !in s && delimiter != '\n'
    ensures Flush(Scan(s, delimiter, ScanState(false, [], [], rows))) == rows + SplitTable(s, delimiter)
    decreases |s|
  {
    var k := IndexOf(s, '\n');
    var line := s[..k];
    NotInSlice(s, '"', 0, k);
    NotInSlice(s, '\r', 0, k);
    if k == |s| {
      assert line == s;
      SplitFree(s, '\n');
      ScanPlainLastLine(s, delimiter, rows);
      assert SplitTable(s, delimiter) == [Split(s, delimiter)];
    } else {
      var rest := s[k + 1..];
      NotInSlice(s, '"', k + 1, |s|);
      NotInSlice(s, '\r', k + 1, |s|);
      assert s == line + (['\n'] + rest);
      ScanPlainLineBreak(line, rest, delimiter, rows);
      ScanPlainLines(rest, delimiter, rows + [Split(line, delimiter)]);
      SplitTableLine(line, rest, delimiter);
    }
  }

  lemma NotInSlice(s: string, c: char, i: nat, j: nat)
    requires i <= j <= |s| && c !in s
    ensures c !in s[i..j]
  {
    assert forall k :: i <= k < j ==> s[i..j][k - i] == s[k];
  }

  lemma SplitTableLine(line: string, rest: string, delimiter: char)
    requires '\n' !in line
    ensures SplitTable(line + (['\n'] + rest), delimiter) == [Split(line, delimiter)] + SplitTable(rest, delimiter)
  {
    SplitPrefix(line, ['\n'] + rest, '\n');
    assert (['\n'] + rest)[1..] == rest;
    var lines := Split(rest, '\n');
    assert ([line] + lines)[1..] == lines;
  }

  /** One pass over text without quotes and carriage returns is the split
      reading. */
  lemma PlainTextIsSplit(s: string, delimiter: char)
    requires '"' !in s && '\r' !in s && delimiter != '\n'
    ensures ParseOnce(s, delimiter) == SplitTable(s, delimiter)
  {
    ScanPlainLines(s, delimiter, []);
  }

  /** Sniffing in action: quote-free text with no comma at all, read with the
      default comma, comes out split at the sniffed delimiter instead
      (semicolon- or tab-separated text). */
  lemma SniffedDelimiterText(s: string)
    requires '"' !in s && '\r' !in s && ',' !in s
    requires Sniff(s).Some?
    ensures Parse(s, ',') == SplitTable(s, Sniff(s).value)
  {
    PlainTextIsSplit(s, ',');
    var k := IndexOf(s, '\n');
    var lines := Split(s, '\n');
    assert ',' !in lines[0] by {
      if k == |s| {
        SplitFree(s, '\n');
      } else {
        assert s == s[..k] + s[k..];
        SplitPrefix(s[..k], s[k..], '\n');
        assert forall i :: 0 <= i < k ==> s[..k][i] == s[i];
      }
    }
    SplitFree(lines[0], ',');
    assert Degenerate(ParseOnce(s, ','));
    PlainTextIsSplit(s, Sniff(s).value);
  }

  // ---------------------------------------------------------------------
  // The retry with a sniffed delimiter.

  /** `detectDelimiter` picks a strict maximum: a candidate that occurs, beats
      every earlier candidate and is not beaten by a later one; none exactly
      when no candidate occurs. */
  lemma SniffIsStrictMaximum(sample: string)
    ensures Sniff(sample) == None <==> (forall j :: 0 <= j < 3 ==> Count(sample, Candidates[j]) == 0)
    ensures forall j :: 0 <= j < 3 ==>
              (Sniff(sample) == Some(Candidates[j]) <==>
                 && Count(sample, Candidates[j]) > 0
                 && (forall i :: 0 <= i < j ==> Count(sample, Candidates[i]) < Count(sample, Candidates[j]))
                 && (forall i :: j < i < 3 ==> Count(sample, Candidates[i]) <= Count(sample, Candidates[j])))
  {
    assert Candidates[0] == ',' && Candidates[1] == ';' && Candidates[2] == '\t';
  }

  /** A sniffed delimiter occurs in the text. */
  lemma SniffedOccurs(sample: string)
    requires Sniff(sample).Some?
    ensures Sniff(sample).value in sample
  {
  }

  /** The retry: a degenerate first pass with a different sniffed delimiter
      gives the result of `parseCSV` with that delimiter, and that call does
      not retry again, since it sniffs the delimiter it already uses. */
  lemma RetryOnce(input: string, delimiter: char)
    requires Degenerate(ParseOnce(input, delimiter))
    requires Sniff(input).Some? && Sniff(input).value != delimiter
    ensures Parse(input, delimiter) == Parse(input, Sniff(input).value)
    ensures Parse(input, Sniff(input).value) == ParseOnce(input, Sniff(input).value)
  {
  }

  /** Otherwise the first pass stands. */
  lemma NoRetry(input: string, delimiter: char)
    requires !Degenerate(ParseOnce(input, delimiter)) || Sniff(input) == None || Sniff(input) == Some(delimiter)
    ensures Parse(input, delimiter) == ParseOnce(input, delimiter)
  {
  }
}
