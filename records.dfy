/** The record builder of app/page.tsx (`csvToJson`): row 0 gives the
    trimmed header names, blank data rows are skipped, and every other row
    becomes a mapping from header name to cell text. */
module RecordBuilder {
  import opened Text
  import opened Tokenizer

  /** A JSON object whose values are all strings. */
  type Record = map<string, string>

  /** U+FEFF, the byte-order mark. */
  const Bom: char := '\U{FEFF}'

  // ---------------------------------------------------------------------
  // Decimal numerals, for the fallback keys `field_<n>`.

  function Digit(d: nat): (c: char)
    requires d < 10
    ensures '0' <= c <= '9'
  {
    ('0' as int + d) as char
  }

  /** The decimal numeral of `n` (what `${n}` prints for a non-negative integer). */
  function Decimal(n: nat): (s: string)
    ensures |s| >= 1 && forall k :: 0 <= k < |s| ==> '0' <= s[k] <= '9'
  {
    if n < 10 then [Digit(n)] else Decimal(n / 10) + [Digit(n % 10)]
  }

  /** The value of a numeral, the inverse of `Decimal`. */
  function DecimalValue(s: string): nat
    requires forall k :: 0 <= k < |s| ==> '0' <= s[k] <= '9'
  {
    if s == [] then 0 else DecimalValue(s[..|s| - 1]) * 10 + (s[|s| - 1] as int - '0' as int)
  }

  lemma {:induction false} DecimalRoundTrip(n: nat)
    ensures DecimalValue(Decimal(n)) == n
  {
    if n >= 10 {
      DecimalRoundTrip(n / 10);
      var s := Decimal(n);
      assert s[..|s| - 1] == Decimal(n / 10);
    }
  }

  /** The fallback key of a header cell left empty. */
  function FallbackKey(column: nat): string {
    "field_" + Decimal(column + 1)
  }

  /** Distinct columns get distinct fallback keys. */
  lemma FallbackKeysDistinct(i: nat, j: nat)
    requires i != j
    ensures FallbackKey(i) != FallbackKey(j)
  {
    if FallbackKey(i) == FallbackKey(j) {
      assert FallbackKey(i)[6..] == Decimal(i + 1);
      assert FallbackKey(j)[6..] == Decimal(j + 1);
      DecimalRoundTrip(i + 1);
      DecimalRoundTrip(j + 1);
    }
  }

  // ---------------------------------------------------------------------
  // One record.

  /** `rows[0].map((h) => String(h ?? "").trim())`. */
  function HeaderNames(first: Row): seq<string> {
    seq(|first|, c requires 0 <= c < |first| => Trim(first[c]))
  }

  /** `headers[c] || \`field_${c + 1}\``: the key column `c` writes, never empty. */
  function ColumnKey(headers: seq<string>, c: nat): (key: string)
    requires c < |headers|
    ensures key != []
  {
    if headers[c] == [] then FallbackKey(c) else headers[c]
  }

  /** `r[c] ?? ""`: the cell, untrimmed, or empty text past the row's end. */
  function Cell(r: Row, c: nat): string {
    if c < |r| then r[c] else []
  }

  /** The object after the first `n` turns of the column loop, each turn
      writing one key (a later write to the same key replacing the earlier). */
  function RecordOf(headers: seq<string>, r: Row, n: nat): Record
    requires n <= |headers|
  {
    if n == 0 then map[] else RecordOf(headers, r, n - 1)[ColumnKey(headers, n - 1) := Cell(r, n - 1)]
  }

  /** A row whose every cell trims to the empty string; by the contract of
      `Trim`, a cell trims to nothing exactly when it is all whitespace. */
  predicate IsBlankRow(r: Row) {
    forall k :: 0 <= k < |r| ==> AllSpace(r[k])
  }

  /** The keys of a record are exactly the resolved header names. */
  lemma {:induction false} RecordKeys(headers: seq<string>, r: Row, n: nat)
    requires n <= |headers|
    ensures RecordOf(headers, r, n).Keys == set c | 0 <= c < n :: ColumnKey(headers, c)
  {
    if n > 0 {
      RecordKeys(headers, r, n - 1);
      assert (set c | 0 <= c < n :: ColumnKey(headers, c))
             == (set c | 0 <= c < n - 1 :: ColumnKey(headers, c)) + {ColumnKey(headers, n - 1)};
    }
  }

  /** The value under a column's key is that column's cell, provided no
      later column has the same key (the last duplicate wins). */
  lemma {:induction false} RecordValue(headers: seq<string>, r: Row, n: nat, c: nat)
    requires c < n <= |headers|
    requires forall d :: c < d < n ==> ColumnKey(headers, d) != ColumnKey(headers, c)
    ensures ColumnKey(headers, c) in RecordOf(headers, r, n)
    ensures RecordOf(headers, r, n)[ColumnKey(headers, c)] == Cell(r, c)
  {
    var last := ColumnKey(headers, n - 1);
    assert RecordOf(headers, r, n) == RecordOf(headers, r, n - 1)[last := Cell(r, n - 1)];
    if c < n - 1 {
      RecordValue(headers, r, n - 1, c);
      assert last != ColumnKey(headers, c);
    }
  }

  /** Cells beyond the header count play no part. */
  lemma {:induction false} ExtraCellsIgnored(headers: seq<string>, r: Row, extra: Row, n: nat)
    requires n <= |headers| <= |r|
    ensures RecordOf(headers, r + extra, n) == RecordOf(headers, r, n)
  {
    if n > 0 {
      ExtraCellsIgnored(headers, r, extra, n - 1);
      assert Cell(r + extra, n - 1) == Cell(r, n - 1);
    }
  }

  // ---------------------------------------------------------------------
  // All records.

  /** The records of the first `n` data rows: one per row that is not
      blank, in order. */
  function BuildData(headers: seq<string>, data: seq<Row>, n: nat): (out: seq<Record>)
    requires n <= |data|
    ensures |out| <= n
  {
    if n == 0 then []
    else
      var prefix := BuildData(headers, data, n - 1);
      var r := data[n - 1];
      if IsBlankRow(r) then prefix else prefix + [RecordOf(headers, r, |headers|)]
  }

  /** One more data row adds its record unless it is blank. */
  lemma BuildDataNext(headers: seq<string>, data: seq<Row>, n: nat)
    requires n < |data|
    ensures BuildData(headers, data, n + 1) ==
            if IsBlankRow(data[n]) then BuildData(headers, data, n)
            else BuildData(headers, data, n) + [RecordOf(headers, data[n], |headers|)]
  {
  }

  /** Row 0 as headers, the other rows as data. */
  function Build(rows: seq<Row>): seq<Record>
    requires |rows| >= 1
  {
    BuildData(HeaderNames(rows[0]), rows[1..], |rows| - 1)
  }

  /** One leading byte-order mark removed. */
  function StripBom(text: string): string {
    if text != [] && text[0] == Bom then text[1..] else text
  }

  /** `csvToJson(text)`: no records for empty or whitespace-only text;
      otherwise the text without one leading BOM is tokenized with the
      default comma and built into records. */
  function Convert(text: string): seq<Record> {
    if Trim(text) == [] then [] else Build(Parse(StripBom(text), ','))
  }

  /** `csvToJson`: the blank-text check, the BOM, the tokenizer, then the
      loops of `BuildRecords`. */
  method CsvToJson(text: string) returns (out: seq<Record>)
    ensures out == Convert(text)
  {
    if Trim(text) == [] {
      return [];
    }
    var t := text;
    if t[0] == Bom {
      t := t[1..];
    }
    var rows := ParseCSV(t, ',');
    // `rows.length === 0` cannot hold: the tokenizer returns at least one row.
    out := BuildRecords(rows);
  }

  /** The second half of `csvToJson`: the loop over the data rows, each
      non-blank one turned into a record by the column loop. */
  method BuildRecords(rows: seq<Row>) returns (out: seq<Record>)
    requires |rows| >= 1
    ensures out == Build(rows)
  {
    var headers := HeaderNames(rows[0]);
    var data := rows[1..];
    out := [];
    for i := 0 to |data|
      invariant out == BuildData(headers, data, i)
    {
      var r := data[i];
      BuildDataNext(headers, data, i);
      if !IsBlankRow(r) {
        var obj := RecordOfRow(headers, r);
        out := out + [obj];
      }
    }
  }

  /** The loop over the header columns of `csvToJson`, writing `obj[key]`
      for one data row. */
  method RecordOfRow(headers: seq<string>, r: Row) returns (obj: Record)
    ensures obj == RecordOf(headers, r, |headers|)
  {
    obj := map[];
    for c := 0 to |headers|
      invariant obj == RecordOf(headers, r, c)
    {
      var key := ColumnKey(headers, c);
      obj := obj[key := Cell(r, c)];
    }
  }

  // ---------------------------------------------------------------------
  // Properties.

  /** The indices of the non-blank rows among the first `n` data rows, in
      increasing order. */
  function KeptRows(data: seq<Row>, n: nat): (kept: seq<nat>)
    requires n <= |data|
    ensures forall j :: 0 <= j < |kept| ==> kept[j] < n
  {
    if n == 0 then []
    else
      var prefix := KeptRows(data, n - 1);
      if IsBlankRow(data[n - 1]) then prefix else prefix + [n - 1]
  }

  /** Kept rows come in the order of the input. */
  lemma {:induction false} KeptRowsIncrease(data: seq<Row>, n: nat)
    requires n <= |data|
    ensures forall j, l :: 0 <= j < l < |KeptRows(data, n)| ==> KeptRows(data, n)[j] < KeptRows(data, n)[l]
  {
    if n > 0 {
      KeptRowsIncrease(data, n - 1);
    }
  }

  /** A row is kept exactly when it is not blank. */
  lemma {:induction false} KeptRowsAreNonBlank(data: seq<Row>, n: nat, k: nat)
    requires n <= |data|
    ensures k in KeptRows(data, n) <==> k < n && !IsBlankRow(data[k])
  {
    if n > 0 {
      KeptRowsAreNonBlank(data, n - 1, k);
    }
  }

  /** Record `j` is built from the `j`-th kept data row. */
  lemma {:induction false} BuildDataIsKeptRows(headers: seq<string>, data: seq<Row>, n: nat)
    requires n <= |data|
    ensures |BuildData(headers, data, n)| == |KeptRows(data, n)|
    ensures forall j :: 0 <= j < |KeptRows(data, n)| ==>
              BuildData(headers, data, n)[j] == RecordOf(headers, data[KeptRows(data, n)[j]], |headers|)
  {
    if n > 0 {
      BuildDataIsKeptRows(headers, data, n - 1);
    }
  }

  /** Without blank rows every row is kept. */
  lemma {:induction false} KeptRowsAllIndices(data: seq<Row>, n: nat)
    requires n <= |data|
    requires forall k :: 0 <= k < n ==> !IsBlankRow(data[k])
    ensures KeptRows(data, n) == seq(n, k => k)
  {
    if n > 0 {
      KeptRowsAllIndices(data, n - 1);
    }
  }

  /** Without blank rows there is one record per data row. */
  lemma NoBlankRows(headers: seq<string>, data: seq<Row>)
    requires forall k :: 0 <= k < |data| ==> !IsBlankRow(data[k])
    ensures |BuildData(headers, data, |data|)| == |data|
    ensures forall k :: 0 <= k < |data| ==> BuildData(headers, data, |data|)[k] == RecordOf(headers, data[k], |headers|)
  {
    BuildDataIsKeptRows(headers, data, |data|);
    KeptRowsAllIndices(data, |data|);
  }

  /** Every record's keys come from the header row alone. */
  lemma RecordsKeyedByHeaders(rows: seq<Row>)
    requires |rows| >= 1
    ensures var headers := HeaderNames(rows[0]);
            forall j :: 0 <= j < |Build(rows)| ==>
              Build(rows)[j].Keys == set c | 0 <= c < |headers| :: ColumnKey(headers, c)
  {
    var headers := HeaderNames(rows[0]);
    var data := rows[1..];
    BuildDataIsKeptRows(headers, data, |data|);
    forall j | 0 <= j < |Build(rows)|
      ensures Build(rows)[j].Keys == set c | 0 <= c < |headers| :: ColumnKey(headers, c)
    {
      RecordKeys(headers, data[KeptRows(data, |data|)[j]], |headers|);
    }
  }

  /** Empty or whitespace-only text gives no records. */
  lemma BlankTextNoRecords(text: string)
    requires AllSpace(text)
    ensures Convert(text) == []
  {
  }

  /** At most one record per data row, the header row giving none. */
  lemma RecordCountBound(text: string)
    ensures Trim(text) != [] ==> |Convert(text)| <= |Parse(StripBom(text), ',')| - 1
  {
  }

  // ---------------------------------------------------------------------
  // A byte-order mark left in the text (a second one, after the first is
  // removed) is an ordinary character of the first cell; the header trim
  // removes it again.

  /** States in which the first cell can be marked: a finished first row
      always has a field. */
  predicate Markable(st: ScanState) {
    st.rows == [] || st.rows[0] != []
  }

  /** A row whose first cell starts with a byte-order mark. */
  function MarkCells(r: Row): (m: Row)
    requires r != []
    ensures |m| == |r| && m[0] == [Bom] + r[0] && m[1..] == r[1..]
  {
    [[Bom] + r[0]] + r[1..]
  }

  /** Rows whose first cell starts with a byte-order mark. */
  function MarkRows(rows: seq<Row>): (m: seq<Row>)
    requires rows != [] && rows[0] != []
    ensures |m| == |rows| && m[0] == MarkCells(rows[0]) && m[1..] == rows[1..]
  {
    [MarkCells(rows[0])] + rows[1..]
  }

  /** The scanner state reached with a byte-order mark in front of the
      text: the mark sits at the front of the first cell, wherever that cell
      is so far (a finished row, the row buffer or the field buffer). */
  function MarkState(st: ScanState): ScanState
    requires Markable(st)
  {
    if st.rows != [] then st.(rows := MarkRows(st.rows))
    else if st.row != [] then st.(row := MarkCells(st.row))
    else st.(field := [Bom] + st.field)
  }

  lemma MarkPushField(st: ScanState)
    requires Markable(st)
    ensures Markable(PushField(st)) && PushField(MarkState(st)) == MarkState(PushField(st))
  {
    if st.rows == [] && st.row != [] {
      assert MarkCells(st.row) + [st.field] == MarkCells(st.row + [st.field]) by {
        assert (st.row + [st.field])[1..] == st.row[1..] + [st.field];
      }
    }
  }

  lemma MarkPushRow(st: ScanState)
    requires Markable(st) && st.row != []
    ensures Markable(PushRow(st)) && PushRow(MarkState(st)) == MarkState(PushRow(st))
  {
    if st.rows != [] {
      assert MarkRows(st.rows) + [st.row] == MarkRows(st.rows + [st.row]) by {
        assert (st.rows + [st.row])[1..] == st.rows[1..] + [st.row];
      }
    } else {
      assert MarkRows([st.row]) == [MarkCells(st.row)];
    }
  }

  lemma MarkAppend(st: ScanState, c: char)
    requires Markable(st)
    ensures var m := MarkState(st);
            m.(field := m.field + [c]) == MarkState(st.(field := st.field + [c]))
  {
    if st.rows == [] && st.row == [] {
      assert [Bom] + st.field + [c] == [Bom] + (st.field + [c]);
    }
  }

  /** A turn of the loop commutes with the mark. */
  lemma StepMark(s: string, delimiter: char, st: ScanState)
    requires s != [] && Markable(st)
    ensures Markable(Step(s, delimiter, st).1)
    ensures Step(s, delimiter, MarkState(st)) == (Step(s, delimiter, st).0, MarkState(Step(s, delimiter, st).1))
  {
    if st.inQuotes {
      if s[0] == '"' {
        if |s| > 1 && s[1] == '"' { MarkAppend(st, '"'); }
      } else {
        MarkAppend(st, s[0]);
      }
    } else if s[0] == '"' {
    } else if s[0] == delimiter {
      MarkPushField(st);
    } else if s[0] == '\n' || s[0] == '\r' {
      MarkPushField(st);
      MarkPushRow(PushField(st));
    } else {
      MarkAppend(st, s[0]);
    }
  }

  /** The whole scan commutes with the mark. */
  lemma {:induction false} ScanMark(s: string, delimiter: char, st: ScanState)
    requires Markable(st)
    ensures Markable(Scan(s, delimiter, st))
    ensures Scan(s, delimiter, MarkState(st)) == MarkState(Scan(s, delimiter, st))
    decreases |s|
  {
    if s != [] {
      StepMark(s, delimiter, st);
      var (k, next) := Step(s, delimiter, st);
      ScanMark(s[k..], delimiter, next);
    }
  }

  /** Closing the last row commutes with the mark. */
  lemma FlushMark(st: ScanState)
    requires Markable(st)
    ensures Flush(st) != [] && Flush(st)[0] != []
    ensures Flush(MarkState(st)) == MarkRows(Flush(st))
  {
    MarkPushField(st);
    MarkPushRow(PushField(st));
  }

  /** A pass over a text with a byte-order mark in front gives the rows of
      the text with the mark at the front of the first cell. */
  lemma ParseOnceMark(t: string, delimiter: char)
    requires delimiter != Bom
    ensures ParseOnce([Bom] + t, delimiter) == MarkRows(ParseOnce(t, delimiter))
  {
    assert ([Bom] + t)[1..] == t;
    assert ([Bom] + t)[0] == Bom;
    assert Start.field + [Bom] == [Bom] + Start.field;
    assert Step([Bom] + t, delimiter, Start) == (1, MarkState(Start));
    ScanMark(t, delimiter, Start);
    FlushMark(Scan(t, delimiter, Start));
  }

  /** The mark is not a candidate delimiter, so sniffing ignores it. */
  lemma SniffMark(t: string)
    ensures Sniff([Bom] + t) == Sniff(t)
  {
    assert multiset([Bom] + t) == multiset([Bom]) + multiset(t);
  }

  lemma ParseMark(t: string, delimiter: char)
    requires delimiter != Bom
    ensures Parse([Bom] + t, delimiter) == MarkRows(Parse(t, delimiter))
  {
    ParseOnceMark(t, delimiter);
    SniffMark(t);
    var alt := Sniff(t);
    if alt.Some? {
      ParseOnceMark(t, alt.value);
    }
  }

  /** The header trim removes the mark again. */
  lemma HeaderNamesMark(r: Row)
    requires r != []
    ensures HeaderNames(MarkCells(r)) == HeaderNames(r)
  {
    var m := MarkCells(r);
    forall c | 0 <= c < |r|
      ensures HeaderNames(m)[c] == HeaderNames(r)[c]
    {
      if c == 0 {
        TrimAfterSpace(Bom, r[0]);
      } else {
        assert m[c] == m[1..][c - 1];
      }
    }
  }

  lemma BuildMark(rows: seq<Row>)
    requires rows != [] && rows[0] != []
    ensures Build(MarkRows(rows)) == Build(rows)
  {
    HeaderNamesMark(rows[0]);
  }

  /** A leading byte-order mark changes nothing: the first is removed, and
      a second one is trimmed off the first header. */
  lemma BomIgnored(text: string)
    ensures Convert([Bom] + text) == Convert(text)
  {
    var t := [Bom] + text;
    assert t[1..] == text;
    assert AllSpace(t) <==> AllSpace(text) by {
      assert forall k :: 0 <= k < |text| ==> t[k + 1] == text[k];
    }
    if text != [] && text[0] == Bom {
      var u := text[1..];
      assert text == [Bom] + u;
      ParseMark(u, ',');
      BuildMark(Parse(u, ','));
    }
  }
}
