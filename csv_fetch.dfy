/**
 * ReportPdfGenerator::fetchCsvData: turns the body of the published sheet's
 * CSV export into candidate records. The HTTP request itself is not modelled:
 * its response (status code and body) is the input.
 */
module CsvFetch {
  import opened Wrappers
  import opened Text
  import opened OrderedDict
  import Csv

  /** A candidate: the trimmed header cells as keys, the row's cells as values. */
  type Record = Dict<string>

  /** The response to the GET of the sheet URL. */
  datatype Response = Response(status: int, body: string)

  /** Laravel's Response::successful(): a 2xx status code. */
  predicate Successful(response: Response) {
    200 <= response.status < 300
  }

  datatype FetchError =
    | RequestFailed(message: string)  // the RuntimeException on a non-2xx response
    | NullHeader                      // trim(null): the header line was blank, and str_getcsv()
                                      // gave a null cell that strict_types refuses

  const FetchFailedMessage: string := "Failed to fetch CSV data from Google Sheets"

  /** $values[$index] ?? '' */
  function CellAt(values: seq<string>, index: nat): string {
    if index < |values| then values[index] else ""
  }

  /** The trimmed header cells, position by position. */
  function TrimAll(headers: seq<string>): (keys: seq<string>)
    ensures |keys| == |headers|
    ensures forall i :: 0 <= i < |headers| ==> keys[i] == Trim(headers[i])
  {
    if headers == [] then [] else TrimAll(headers[..|headers| - 1]) + [Trim(headers[|headers| - 1])]
  }

  /** The record the inner foreach builds: header by header, the cell at the
      header's position is stored under the trimmed header. */
  function RecordOf(headers: seq<string>, values: seq<string>): Record {
    if headers == [] then []
    else
      var n := |headers| - 1;
      Put(RecordOf(headers[..n], values), Trim(headers[n]), CellAt(values, n))
  }

  /** A record's keys are the distinct trimmed header cells, in header order. */
  lemma {:induction false} RecordOfKeys(headers: seq<string>, values: seq<string>)
    ensures Keys(RecordOf(headers, values)) == FirstSeen(TrimAll(headers))
    ensures Distinct(Keys(RecordOf(headers, values)))
  {
    FirstSeenSpec(TrimAll(headers));
    if headers != [] {
      var n := |headers| - 1;
      var k, ks := Trim(headers[n]), TrimAll(headers);
      RecordOfKeys(headers[..n], values);
      var r := RecordOf(headers[..n], values);
      PutSpec(r, k, CellAt(values, n));
      FirstSeenSpec(ks[..n]);
      assert ks == TrimAll(headers[..n]) + [k];
      assert ks[..n] == TrimAll(headers[..n]);
      assert FirstSeen(ks) == FirstSeen(ks[..n]) + (if k in ks[..n] then [] else [k]);
      assert Keys(RecordOf(headers, values)) == if k in Keys(r) then Keys(r) else Keys(r) + [k];
    }
  }

  /** The value stored under a trimmed header is the cell at the position of
      the last header cell that trims to it. */
  lemma {:induction false} RecordOfGet(headers: seq<string>, values: seq<string>, i: nat)
    requires i < |headers|
    requires forall j :: i < j < |headers| ==> Trim(headers[j]) != Trim(headers[i])
    ensures Get(RecordOf(headers, values), Trim(headers[i])) == Some(CellAt(values, i))
  {
    var n := |headers| - 1;
    var r, k := RecordOf(headers[..n], values), Trim(headers[i]);
    PutSpec(r, Trim(headers[n]), CellAt(values, n));
    if i < n {
      assert Trim(headers[n]) != k;
      RecordOfGet(headers[..n], values, i);
      assert Get(r, k) == Some(CellAt(values, i));
    }
  }

  /** A record reads only the cells at header positions. */
  lemma {:induction false} RecordOfSameCells(headers: seq<string>, values: seq<string>, values': seq<string>)
    requires forall i :: 0 <= i < |headers| ==> CellAt(values, i) == CellAt(values', i)
    ensures RecordOf(headers, values) == RecordOf(headers, values')
  {
    if headers != [] {
      RecordOfSameCells(headers[..|headers| - 1], values, values');
    }
  }

  /** Cells beyond the header count are ignored. */
  lemma RecordOfIgnoresExtraCells(headers: seq<string>, values: seq<string>)
    requires |values| >= |headers|
    ensures RecordOf(headers, values) == RecordOf(headers, values[..|headers|])
  {
    RecordOfSameCells(headers, values, values[..|headers|]);
  }

  /** str_getcsv() on each line: the cells of every line, in line order. */
  function SplitAll(lines: seq<string>): (rows: seq<seq<string>>)
    ensures |rows| == |lines|
  {
    if lines == [] then [] else SplitAll(lines[..|lines| - 1]) + [Csv.SplitFields(lines[|lines| - 1])]
  }

  /** Row j holds the cells of line j. */
  lemma {:induction false} SplitAllAt(lines: seq<string>, j: nat)
    requires j < |lines|
    ensures SplitAll(lines)[j] == Csv.SplitFields(lines[j])
  {
    var n := |lines| - 1;
    if j < n {
      SplitAllAt(lines[..n], j);
    }
  }

  /** The rows of one more line. */
  lemma SplitAllNext(lines: seq<string>, i: nat)
    requires i < |lines|
    ensures SplitAll(lines[..i + 1]) == SplitAll(lines[..i]) + [Csv.SplitFields(lines[i])]
  {
    assert lines[..i + 1][..i] == lines[..i];
  }

  /** The records the outer foreach appends, row by row: a row with at least
      as many cells as the header becomes the record of its cells, a shorter
      one is skipped. */
  function RecordsOf(headers: seq<string>, rows: seq<seq<string>>): seq<Record> {
    if rows == [] then []
    else
      var n := |rows| - 1;
      RecordsOf(headers, rows[..n])
        + (if |rows[n]| >= |headers| then [RecordOf(headers, rows[n])] else [])
  }

  /** The records of one more row. */
  lemma RecordsOfSnoc(headers: seq<string>, rows: seq<seq<string>>, cells: seq<string>)
    ensures RecordsOf(headers, rows + [cells])
      == RecordsOf(headers, rows) + (if |cells| >= |headers| then [RecordOf(headers, cells)] else [])
  {
    assert (rows + [cells])[..|rows|] == rows;
  }

  /** Each row is handled on its own: the records of two stretches of rows
      are the records of the first followed by those of the second. */
  lemma {:induction false} RecordsOfConcat(headers: seq<string>, a: seq<seq<string>>, b: seq<seq<string>>)
    ensures RecordsOf(headers, a + b) == RecordsOf(headers, a) + RecordsOf(headers, b)
  {
    if b == [] {
      assert a + b == a;
    } else {
      var n := |b| - 1;
      assert (a + b)[..|a + b| - 1] == a + b[..n];
      RecordsOfConcat(headers, a, b[..n]);
    }
  }

  /** At most one record per row, and every record is the record of a row
      with enough cells. */
  lemma {:induction false} RecordsOfOrigin(headers: seq<string>, rows: seq<seq<string>>)
    ensures |RecordsOf(headers, rows)| <= |rows|
    ensures forall r :: r in RecordsOf(headers, rows) ==>
      exists j :: 0 <= j < |rows| && |rows[j]| >= |headers| && r == RecordOf(headers, rows[j])
  {
    if rows != [] {
      var n := |rows| - 1;
      var init := rows[..n];
      RecordsOfOrigin(headers, init);
      forall r | r in RecordsOf(headers, rows)
        ensures exists j :: 0 <= j < |rows| && |rows[j]| >= |headers| && r == RecordOf(headers, rows[j])
      {
        if r in RecordsOf(headers, init) {
          var j :| 0 <= j < |init| && |init[j]| >= |headers| && r == RecordOf(headers, init[j]);
          assert rows[j] == init[j];
        } else {
          assert |rows[n]| >= |headers| && r == RecordOf(headers, rows[n]);
        }
      }
    }
  }

  /** Every record is keyed by exactly the distinct trimmed header cells. */
  lemma RecordsOfKeys(headers: seq<string>, rows: seq<seq<string>>)
    ensures forall r :: r in RecordsOf(headers, rows) ==>
      Keys(r) == FirstSeen(TrimAll(headers)) && Distinct(Keys(r))
  {
    RecordsOfOrigin(headers, rows);
    forall r | r in RecordsOf(headers, rows)
      ensures Keys(r) == FirstSeen(TrimAll(headers)) && Distinct(Keys(r))
    {
      var j :| 0 <= j < |rows| && |rows[j]| >= |headers| && r == RecordOf(headers, rows[j]);
      RecordOfKeys(headers, rows[j]);
    }
  }

  /** Rows with fewer cells than the header are skipped entirely. */
  lemma {:induction false} RecordsOfAllShort(headers: seq<string>, rows: seq<seq<string>>)
    requires forall j :: 0 <= j < |rows| ==> |rows[j]| < |headers|
    ensures RecordsOf(headers, rows) == []
  {
    if rows != [] {
      RecordsOfAllShort(headers, rows[..|rows| - 1]);
    }
  }

  /** Rows with enough cells give one record each, in row order. */
  lemma {:induction false} RecordsOfAllLong(headers: seq<string>, rows: seq<seq<string>>)
    requires forall j :: 0 <= j < |rows| ==> |rows[j]| >= |headers|
    ensures |RecordsOf(headers, rows)| == |rows|
    ensures forall j :: 0 <= j < |rows| ==> RecordsOf(headers, rows)[j] == RecordOf(headers, rows[j])
  {
    if rows != [] {
      var n := |rows| - 1;
      var init := rows[..n];
      RecordsOfAllLong(headers, init);
      var prev := RecordsOf(headers, init);
      var rs := RecordsOf(headers, rows);
      assert rs == prev + [RecordOf(headers, rows[n])];
      forall j | 0 <= j < |rows|
        ensures rs[j] == RecordOf(headers, rows[j])
      {
        if j < n {
          assert rs[j] == prev[j] && init[j] == rows[j];
        }
      }
    }
  }

  /** The body split on line feeds, without empty and "0" lines. */
  function BodyLines(body: string): seq<string> {
    DropFalsy(Explode(body, '\n'))
  }

  /** What fetchCsvData makes of a response body: nothing unless a header
      and at least one more line remain; an error when the header line is
      blank, since its null cell reaches trim() at the first data line;
      otherwise the records of the lines after the header. */
  function ParseBody(body: string): (result: Result<seq<Record>, FetchError>)
    ensures var lines := BodyLines(body);
      && (|lines| < 2 ==> result == Success([]))
      && (result.Failure? <==> |lines| >= 2 && Csv.BlankLine(lines[0]))
      && (result.Failure? ==> result.error == NullHeader)
      && (result.Success? && |lines| >= 2 ==> |result.value| <= |lines| - 1)
      && (result.Success? ==> forall r :: r in result.value ==>
            Keys(r) == FirstSeen(TrimAll(Csv.SplitFields(lines[0]))))
  {
    var lines := BodyLines(body);
    if |lines| < 2 then Success([])
    else if Csv.BlankLine(lines[0]) then Failure(NullHeader)
    else
      RecordsOfOrigin(Csv.SplitFields(lines[0]), SplitAll(lines[1..]));
      RecordsOfKeys(Csv.SplitFields(lines[0]), SplitAll(lines[1..]));
      Success(RecordsOf(Csv.SplitFields(lines[0]), SplitAll(lines[1..])))
  }

  /** A cell that needs no quoting and holds no line break. */
  predicate PlainCell(cell: string) {
    ',' !in cell && '"' !in cell && '\n' !in cell && '\r' !in cell
  }

  /** What ends a sheet line before its line feed: nothing for "\n" line
      ends, a carriage return for "\r\n" ones. */
  predicate LineEnd(eol: string) {
    eol == "" || eol == "\r"
  }

  /** A sheet line: its cells joined by commas, then the line end. */
  function Line(cells: seq<string>, eol: string): string {
    Implode(cells, ',') + eol
  }

  function Lines(rows: seq<seq<string>>, eol: string): (lines: seq<string>)
    ensures |lines| == |rows|
    ensures forall j :: 0 <= j < |rows| ==> lines[j] == Line(rows[j], eol)
  {
    if rows == [] then [] else Lines(rows[..|rows| - 1], eol) + [Line(rows[|rows| - 1], eol)]
  }

  /** A sheet body: the header line and the row lines joined by line feeds,
      with or without a final line feed. */
  function Sheet(header: seq<string>, rows: seq<seq<string>>, eol: string, last: string): string {
    Implode([Line(header, eol)] + Lines(rows, eol), '\n') + last
  }

  /** Plain cells joined by commas hold no quote or line break, and split
      back into the cells. */
  lemma PlainJoin(cells: seq<string>)
    requires |cells| >= 1
    requires forall i :: 0 <= i < |cells| ==> PlainCell(cells[i])
    ensures var text := Implode(cells, ',');
      '"' !in text && '\n' !in text && '\r' !in text && Csv.SplitFields(text) == cells
  {
    var text := Implode(cells, ',');
    ImplodeLacks(cells, ',', '\n');
    ImplodeLacks(cells, ',', '\r');
    ImplodeLacks(cells, ',', '"');
    DropLineEndPlain(text);
    Csv.SplitFieldsPlain(text);
    ExplodeImplode(cells, ',');
    Csv.DropLineEndsPlain(cells);
  }

  /** A line of plain cells holds no line feed. */
  lemma LineLacksLineFeed(cells: seq<string>, eol: string)
    requires LineEnd(eol)
    requires forall i :: 0 <= i < |cells| ==> PlainCell(cells[i])
    ensures '\n' !in Line(cells, eol)
  {
    ImplodeLacks(cells, ',', '\n');
  }

  /** A line of plain cells holds no line feed, splits into its cells, and
      is blank only when its cells join to nothing. */
  lemma PlainLine(cells: seq<string>, eol: string)
    requires LineEnd(eol)
    requires |cells| >= 1
    requires forall i :: 0 <= i < |cells| ==> PlainCell(cells[i])
    ensures '\n' !in Line(cells, eol)
    ensures Csv.SplitFields(Line(cells, eol)) == cells
    ensures Csv.BlankLine(Line(cells, eol)) <==> Implode(cells, ',') == ""
  {
    var text, line := Implode(cells, ','), Line(cells, eol);
    PlainJoin(cells);
    assert DropLineEnd(line) == text by {
      DropLineEndPlain(text);
      if eol == "" {
        assert line == text;
      }
    }
    assert Csv.SplitFields(line) == Csv.SplitFields(text) by {
      DropLineEndPlain(text);
    }
  }

  /** Lines without line feeds, none empty or "0", joined by line feeds
      (with or without a final one) are the lines of the body. */
  lemma BodyLinesJoin(lines: seq<string>, last: string)
    requires |lines| >= 1 && (last == "" || last == "\n")
    requires forall k :: 0 <= k < |lines| ==> '\n' !in lines[k] && !IsFalsy(lines[k])
    ensures BodyLines(Implode(lines, '\n') + last) == lines
  {
    if last == "" {
      assert Implode(lines, '\n') + last == Implode(lines, '\n');
      ExplodeImplode(lines, '\n');
      DropFalsyNone(lines);
    } else {
      BodyLinesJoinFinal(lines);
    }
  }

  /** The final line feed only adds an empty line, which the filter drops. */
  lemma BodyLinesJoinFinal(lines: seq<string>)
    requires |lines| >= 1
    requires forall k :: 0 <= k < |lines| ==> '\n' !in lines[k] && !IsFalsy(lines[k])
    ensures BodyLines(Implode(lines, '\n') + "\n") == lines
  {
    ExplodeFinal(lines);
    DropFalsyFinal(lines);
  }

  /** Splitting lines joined by line feeds, with a final one, gives the
      lines and one empty line. */
  lemma ExplodeFinal(lines: seq<string>)
    requires |lines| >= 1
    requires forall k :: 0 <= k < |lines| ==> '\n' !in lines[k]
    ensures Explode(Implode(lines, '\n') + "\n", '\n') == lines + [[]]
  {
    var ext := lines + [[]];
    ImplodeEmptyLast(lines, '\n');
    assert forall k :: 0 <= k < |ext| ==> '\n' !in ext[k] by {
      assert forall k :: 0 <= k < |lines| ==> ext[k] == lines[k];
    }
    ExplodeImplode(ext, '\n');
  }

  /** The filter drops the empty line after lines that are neither empty
      nor "0". */
  lemma DropFalsyFinal(lines: seq<string>)
    requires forall k :: 0 <= k < |lines| ==> !IsFalsy(lines[k])
    ensures DropFalsy(lines + [[]]) == lines
  {
    DropFalsyConcat(lines, [[]]);
    DropFalsyNone(lines);
  }

  /** The lines of a sheet hold no line feed, and none is empty or "0". */
  lemma SheetLinesPlain(header: seq<string>, rows: seq<seq<string>>, eol: string, lines: seq<string>)
    requires lines == [Line(header, eol)] + Lines(rows, eol)
    requires LineEnd(eol)
    requires |header| >= 1
    requires forall i :: 0 <= i < |header| ==> PlainCell(header[i])
    requires forall j :: 0 <= j < |rows| ==> |rows[j]| >= 1
    requires forall j, i :: 0 <= j < |rows| && 0 <= i < |rows[j]| ==> PlainCell(rows[j][i])
    requires !IsFalsy(Line(header, eol))
    requires forall j :: 0 <= j < |rows| ==> !IsFalsy(Line(rows[j], eol))
    ensures forall k :: 0 <= k < |lines| ==> '\n' !in lines[k] && !IsFalsy(lines[k])
  {
    LineLacksLineFeed(header, eol);
    forall k | 1 <= k < |lines| ensures '\n' !in lines[k] && !IsFalsy(lines[k]) {
      assert lines[k] == Line(rows[k - 1], eol);
      LineLacksLineFeed(rows[k - 1], eol);
    }
  }

  /** The lines of a sheet body survive the split and the filter intact. */
  lemma SheetLines(header: seq<string>, rows: seq<seq<string>>, eol: string, last: string)
    requires LineEnd(eol) && (last == "" || last == "\n")
    requires |header| >= 1
    requires forall i :: 0 <= i < |header| ==> PlainCell(header[i])
    requires forall j :: 0 <= j < |rows| ==> |rows[j]| >= 1
    requires forall j, i :: 0 <= j < |rows| && 0 <= i < |rows[j]| ==> PlainCell(rows[j][i])
    requires !IsFalsy(Line(header, eol))
    requires forall j :: 0 <= j < |rows| ==> !IsFalsy(Line(rows[j], eol))
    ensures BodyLines(Sheet(header, rows, eol, last)) == [Line(header, eol)] + Lines(rows, eol)
  {
    var lines := [Line(header, eol)] + Lines(rows, eol);
    SheetLinesPlain(header, rows, eol, lines);
    BodyLinesJoin(lines, last);
  }

  /** Rows of plain cells, each at least as long as the header, give one
      record each. */
  lemma SheetRecords(header: seq<string>, rows: seq<seq<string>>, eol: string)
    requires LineEnd(eol)
    requires forall j :: 0 <= j < |rows| ==> |rows[j]| >= |header| >= 1
    requires forall j, i :: 0 <= j < |rows| && 0 <= i < |rows[j]| ==> PlainCell(rows[j][i])
    ensures |RecordsOf(header, SplitAll(Lines(rows, eol)))| == |rows|
    ensures forall j :: 0 <= j < |rows| ==> RecordsOf(header, SplitAll(Lines(rows, eol)))[j] == RecordOf(header, rows[j])
  {
    var data := Lines(rows, eol);
    forall j | 0 <= j < |rows| ensures SplitAll(data)[j] == rows[j] {
      SplitAllAt(data, j);
      PlainLine(rows[j], eol);
    }
    assert SplitAll(data) == rows;
    RecordsOfAllLong(header, rows);
  }

  /** A sheet of plain cells, with "\n" or "\r\n" line ends: a header line
      whose cells do not all join to nothing, and one line per row, each row
      with at least as many cells as the header, no line empty or "0". Each
      row becomes one record, in row order, pairing header cells with its
      cells. */
  lemma ParseSheet(header: seq<string>, rows: seq<seq<string>>, eol: string, last: string)
    requires LineEnd(eol) && (last == "" || last == "\n")
    requires |header| >= 1
    requires forall i :: 0 <= i < |header| ==> PlainCell(header[i])
    requires forall j :: 0 <= j < |rows| ==> |rows[j]| >= |header|
    requires forall j, i :: 0 <= j < |rows| && 0 <= i < |rows[j]| ==> PlainCell(rows[j][i])
    requires Implode(header, ',') != "" && !IsFalsy(Line(header, eol))
    requires forall j :: 0 <= j < |rows| ==> !IsFalsy(Line(rows[j], eol))
    ensures var result := ParseBody(Sheet(header, rows, eol, last));
      && result.Success?
      && |result.value| == |rows|
      && forall j :: 0 <= j < |rows| ==> result.value[j] == RecordOf(header, rows[j])
  {
    var lines := [Line(header, eol)] + Lines(rows, eol);
    SheetLines(header, rows, eol, last);
    PlainLine(header, eol);
    if rows != [] {
      assert lines[0] == Line(header, eol) && lines[1..] == Lines(rows, eol);
      SheetRecords(header, rows, eol);
    }
  }

  /** In such a sheet, the record of row j holds cell i of the row under the
      trimmed header cell i, when no later header cell trims to the same key. */
  lemma ParseSheetCell(header: seq<string>, rows: seq<seq<string>>, eol: string, last: string, j: nat, i: nat)
    requires LineEnd(eol) && (last == "" || last == "\n")
    requires |header| >= 1
    requires forall i :: 0 <= i < |header| ==> PlainCell(header[i])
    requires forall j :: 0 <= j < |rows| ==> |rows[j]| >= |header|
    requires forall j, i :: 0 <= j < |rows| && 0 <= i < |rows[j]| ==> PlainCell(rows[j][i])
    requires Implode(header, ',') != "" && !IsFalsy(Line(header, eol))
    requires forall j :: 0 <= j < |rows| ==> !IsFalsy(Line(rows[j], eol))
    requires j < |rows| && i < |header|
    requires forall k :: i < k < |header| ==> Trim(header[k]) != Trim(header[i])
    ensures var result := ParseBody(Sheet(header, rows, eol, last));
      && result.Success?
      && j < |result.value|
      && Get(result.value[j], Trim(header[i])) == Some(rows[j][i])
  {
    ParseSheet(header, rows, eol, last);
    RecordOfGet(header, rows[j], i);
  }

  /** A blank header line above a data line fails with the null-header
      error, whatever the data. */
  lemma BlankHeaderFails(eol: string, rows: seq<seq<string>>, last: string)
    requires LineEnd(eol) && eol != "" && (last == "" || last == "\n")
    requires |rows| >= 1
    requires forall j :: 0 <= j < |rows| ==> |rows[j]| >= 1
    requires forall j, i :: 0 <= j < |rows| && 0 <= i < |rows[j]| ==> PlainCell(rows[j][i])
    requires forall j :: 0 <= j < |rows| ==> !IsFalsy(Line(rows[j], eol))
    ensures ParseBody(Sheet([""], rows, eol, last)) == Failure(NullHeader)
  {
    assert forall i :: 0 <= i < |[""]| ==> PlainCell([""][i]);
    assert Line([""], eol) == "\r";
    SheetLines([""], rows, eol, last);
    PlainLine([""], eol);
  }

  /** The inner foreach of fetchCsvData (header by header into $candidate). */
  method BuildCandidate(headers: seq<string>, values: seq<string>) returns (candidate: Record)
    ensures candidate == RecordOf(headers, values)
  {
    candidate := [];
    for index := 0 to |headers|
      invariant candidate == RecordOf(headers[..index], values)
    {
      assert headers[..index + 1][..index] == headers[..index];
      candidate := Put(candidate, Trim(headers[index]), CellAt(values, index));
    }
    assert headers[..|headers|] == headers;
  }

  /** fetchCsvData: a non-2xx response raises the fetch error and yields no
      records; otherwise what the body parses to. */
  method FetchCsvData(response: Response) returns (result: Result<seq<Record>, FetchError>)
    ensures !Successful(response) ==> result == Failure(RequestFailed(FetchFailedMessage))
    ensures Successful(response) ==> result == ParseBody(response.body)
  {
    if !Successful(response) {
      return Failure(RequestFailed(FetchFailedMessage));
    }
    var lines := DropFalsy(Explode(response.body, '\n'));
    if |lines| < 2 {
      return Success([]);
    }
    result := ReadRecords(lines[0], lines[1..]);
  }

  /** The outer foreach of fetchCsvData, over the lines after the header:
      the header's null cell, when the header line is blank, reaches trim()
      at the first data line; otherwise the records of the lines. */
  method ReadRecords(headerLine: string, lines: seq<string>) returns (result: Result<seq<Record>, FetchError>)
    requires lines != []
    ensures Csv.BlankLine(headerLine) ==> result == Failure(NullHeader)
    ensures !Csv.BlankLine(headerLine) ==> result == Success(RecordsOf(Csv.SplitFields(headerLine), SplitAll(lines)))
  {
    var nullHeader := Csv.BlankLine(headerLine);
    var headers := Csv.SplitFields(headerLine);
    var candidates: seq<Record> := [];
    for i := 0 to |lines|
      invariant candidates == RecordsOf(headers, SplitAll(lines[..i]))
      invariant nullHeader ==> i == 0
    {
      var values := Csv.SplitFields(lines[i]);
      SplitAllNext(lines, i);
      RecordsOfSnoc(headers, SplitAll(lines[..i]), values);
      if |values| >= |headers| {
        // the header's single null cell reaches trim() here
        if nullHeader {
          return Failure(NullHeader);
        }
        var candidate := BuildCandidate(headers, values);
        candidates := candidates + [candidate];
      }
    }
    assert lines[..|lines|] == lines;
    return Success(candidates);
  }
}
