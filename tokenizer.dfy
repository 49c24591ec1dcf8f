/** The CSV tokenizer of app/page.tsx (`parseCSV` and `detectDelimiter`).
    `Step` and `Scan` are the scanner's state machine written as functions over
    the unread suffix of the input; the methods `ParseCSV` and
    `DetectDelimiter` are the source's loops, proved to compute them. */
module Tokenizer {

  datatype Option<T> = None | Some(value: T)

  type Row = seq<string>

  /** The scanner's state: the quote flag, the field buffer, the row buffer
      and the rows finished so far. */
  datatype ScanState = ScanState(inQuotes: bool, field: string, row: Row, rows: seq<Row>)

  const Start := ScanState(false, [], [], [])

  /** The `pushField` closure: the buffered field joins the row. */
  function PushField(st: ScanState): ScanState {
    st.(row := st.row + [st.field], field := [])
  }

  /** The `pushRow` closure: the buffered row joins the result. */
  function PushRow(st: ScanState): ScanState {
    st.(rows := st.rows + [st.row], row := [])
  }

  predicate RowsNonEmpty(rows: seq<Row>) {
    forall k :: 0 <= k < |rows| ==> |rows[k]| >= 1
  }

  /** One turn of the scanning loop on the unread text `s`: how many
      characters it consumes (one, or two for an escaped quote and for a line
      feed followed by a carriage return outside quotes, unless the line feed
      is the delimiter) and the state after it. */
  function Step(s: string, delimiter: char, st: ScanState): (r: (nat, ScanState))
    requires s != []
    ensures 1 <= r.0 <= |s| && r.0 <= 2
    ensures r.0 == 2 <==> |s| > 1 && ((st.inQuotes && s[0] == '"' && s[1] == '"') ||
                                      (!st.inQuotes && s[0] == '\n' && s[1] == '\r' && delimiter != '\n'))
  {
    if st.inQuotes then
      if s[0] == '"' then
        if |s| > 1 && s[1] == '"' then (2, st.(field := st.field + ['"']))
        else (1, st.(inQuotes := false))
      else (1, st.(field := st.field + [s[0]]))
    else if s[0] == '"' then (1, st.(inQuotes := true))
    else if s[0] == delimiter then (1, PushField(st))
    else if s[0] == '\n' then (if |s| > 1 && s[1] == '\r' then 2 else 1, PushRow(PushField(st)))
    else if s[0] == '\r' then (1, PushRow(PushField(st)))
    else (1, st.(field := st.field + [s[0]]))
  }

  /** The scanning loop run over all of `s`. */
  function Scan(s: string, delimiter: char, st: ScanState): ScanState
    decreases |s|
  {
    if s == [] then st
    else
      var (k, next) := Step(s, delimiter, st);
      Scan(s[k..], delimiter, next)
  }

  /** A turn of the loop only appends finished rows, each with a field. */
  lemma StepKeepsRows(s: string, delimiter: char, st: ScanState)
    requires s != []
    ensures st.rows <= Step(s, delimiter, st).1.rows
    ensures RowsNonEmpty(st.rows) ==> RowsNonEmpty(Step(s, delimiter, st).1.rows)
  {
  }

  /** Finished rows are only ever appended, and each holds at least one
      field. */
  lemma {:induction false} ScanKeepsRows(s: string, delimiter: char, st: ScanState)
    ensures st.rows <= Scan(s, delimiter, st).rows
    ensures RowsNonEmpty(st.rows) ==> RowsNonEmpty(Scan(s, delimiter, st).rows)
    decreases |s|
  {
    if s != [] {
      var (k, next) := Step(s, delimiter, st);
      StepKeepsRows(s, delimiter, st);
      ScanKeepsRows(s[k..], delimiter, next);
    }
  }

  /** The final `pushField(); pushRow()`. */
  function Flush(st: ScanState): seq<Row> {
    PushRow(PushField(st)).rows
  }

  /** One pass of `parseCSV` with a fixed delimiter: never fails, gives at
      least one row, and every row has at least one field. */
  function ParseOnce(input: string, delimiter: char): (rows: seq<Row>)
    ensures |rows| >= 1 && RowsNonEmpty(rows)
  {
    ScanKeepsRows(input, delimiter, Start);
    Flush(Scan(input, delimiter, Start))
  }

  /** The condition under which `parseCSV` tries a sniffed delimiter. */
  predicate Degenerate(rows: seq<Row>) {
    |rows| <= 1 || |rows[0]| == 1
  }

  /** Number of occurrences of `c` in `s` (the length of `s.match(/c/g)`). */
  function Count(s: string, c: char): nat {
    multiset(s)[c]
  }

  /** The delimiters `detectDelimiter` tries, in order. */
  const Candidates: seq<char> := [',', ';', '\t']

  /** The delimiter `detectDelimiter` picks, as a reference definition: the
      candidate among comma, semicolon and tab with the largest count, ties
      going to the earlier one, or none when no candidate occurs. */
  function Sniff(sample: string): Option<char> {
    var comma, semicolon, tab := Count(sample, ','), Count(sample, ';'), Count(sample, '\t');
    if comma == 0 && semicolon == 0 && tab == 0 then None
    else if comma >= semicolon && comma >= tab then Some(',')
    else if semicolon >= tab then Some(';')
    else Some('\t')
  }

  /** `parseCSV(input, delimiter)`: one pass, and, when that result is
      degenerate and a different delimiter is sniffed, the pass with it. */
  function Parse(input: string, delimiter: char): (rows: seq<Row>)
    ensures |rows| >= 1 && RowsNonEmpty(rows)
  {
    var first := ParseOnce(input, delimiter);
    var alt := Sniff(input);
    if Degenerate(first) && alt.Some? && alt.value != delimiter then ParseOnce(input, alt.value)
    else first
  }

  /** `detectDelimiter`: the loop over the candidates keeping the best
      count so far, which only a strictly larger count replaces. */
  method DetectDelimiter(sample: string) returns (best: Option<char>)
    ensures best == Sniff(sample)
  {
    var candidates := Candidates;
    best := None;
    var max := 0;
    for k := 0 to |candidates|
      invariant max == 0 <==> best == None
      invariant forall j :: 0 <= j < k ==> Count(sample, candidates[j]) <= max
      invariant best.Some? ==>
        exists j :: 0 <= j < k && candidates[j] == best.value && Count(sample, candidates[j]) == max
                    && forall i :: 0 <= i < j ==> Count(sample, candidates[i]) < max
    {
      var n := Count(sample, candidates[k]);
      if n > max {
        max := n;
        best := Some(candidates[k]);
      }
    }
    assert candidates[0] == ',' && candidates[1] == ';' && candidates[2] == '\t';
    best := if max > 0 then best else None;
  }

  /** `parseCSV`: the scanning loop over index `i`, the final flush, and the
      single retry with the sniffed delimiter. The source's default
      delimiter, a comma, is passed explicitly by `CsvToJson`. */
  method ParseCSV(input: string, delimiter: char) returns (rows: seq<Row>)
    ensures rows == Parse(input, delimiter)
    decreases if Sniff(input) == Some(delimiter) then 0 else 1
  {
    rows := [];
    var field: string := [];
    var row: Row := [];
    var i := 0;
    var inQuotes := false;
    while i < |input|
      invariant 0 <= i <= |input|
      invariant Scan(input[i..], delimiter, ScanState(inQuotes, field, row, rows))
                == Scan(input, delimiter, Start)
    {
      var ch := input[i];
      assert input[i..][1..] == input[i + 1..];
      if inQuotes {
        if ch == '"' {
          if i + 1 < |input| && input[i + 1] == '"' {
            // escaped quote
            assert input[i..][2..] == input[i + 2..];
            field := field + ['"'];
            i := i + 2;
            continue;
          }
          inQuotes := false;
          i := i + 1;
          continue;
        }
        field := field + [ch];
        i := i + 1;
        continue;
      }
      if ch == '"' {
        inQuotes := true;
        i := i + 1;
        continue;
      }
      if ch == delimiter {
        row, field := row + [field], [];
        i := i + 1;
        continue;
      }
      if ch == '\n' {
        row, field := row + [field], [];
        rows, row := rows + [row], [];
        i := i + 1;
        if i < |input| && input[i] == '\r' {
          assert input[i - 1..][2..] == input[i + 1..];
          i := i + 1;
        }
        continue;
      }
      if ch == '\r' {
        row, field := row + [field], [];
        rows, row := rows + [row], [];
        i := i + 1;
        continue;
      }
      field := field + [ch];
      i := i + 1;
    }
    row, field := row + [field], [];
    rows, row := rows + [row], [];

    if |rows| <= 1 || |rows[0]| == 1 {
      var alt := DetectDelimiter(input);
      if alt.Some? && alt.value != delimiter {
        rows := ParseCSV(input, alt.value);
      }
    }
  }
}
