/**
 * The per-line cell splitter (PHP's str_getcsv with its default comma
 * separator and double-quote enclosure), following the quoting rules of
 * section 2 of RFC 4180: a double quote opens an enclosed stretch, a doubled
 * quote inside it stands for one quote, and a comma outside it ends a cell.
 * As str_getcsv does, the line first loses its line end, a cell that does
 * not start with a quote loses its own trailing line end, and blanks before
 * a cell's opening quote are skipped.
 */
module Csv {
  import opened Text

  /** The characters C's isspace() accepts. */
  predicate IsSpace(c: char) {
    c == ' ' || c == '\t' || c == '\n' || c == '\U{000B}' || c == '\U{000C}' || c == '\r'
  }

  predicate AllSpace(s: string) {
    forall i :: 0 <= i < |s| ==> IsSpace(s[i])
  }

  /** A completed cell: one that started with a quote is kept as read; any
      other loses its trailing line end. */
  function Close(cur: string, enclosed: bool): string {
    if enclosed then cur else DropLineEnd(cur)
  }

  /** Left-to-right scan of the rest of a line: `quoted` says whether the
      scan is inside an enclosed stretch, `enclosed` whether the current cell
      started with a quote, `cur` is the cell read so far and `done` the cells
      already completed. The cells already completed are kept, in order, and
      at least one more cell follows them. */
  function Scan(rest: string, quoted: bool, enclosed: bool, cur: string, done: seq<string>): (cells: seq<string>)
    ensures |cells| > |done| && cells[..|done|] == done
    decreases |rest|
  {
    if rest == [] then done + [Close(cur, enclosed)]
    else if quoted then
      if rest[0] == '"' then
        if |rest| > 1 && rest[1] == '"' then Scan(rest[2..], true, enclosed, cur + ['"'], done)
        else Scan(rest[1..], false, enclosed, cur, done)
      else Scan(rest[1..], true, enclosed, cur + [rest[0]], done)
    else if rest[0] == ',' then
      var cells := Scan(rest[1..], false, false, [], done + [Close(cur, enclosed)]);
      assert cells[..|done|] == cells[..|done| + 1][..|done|];
      cells
    else if rest[0] == '"' then
      // the first quote of a cell opens it, and the blanks before it go
      if !enclosed && AllSpace(cur) then Scan(rest[1..], true, true, [], done)
      else Scan(rest[1..], true, enclosed, cur, done)
    else Scan(rest[1..], false, enclosed, cur + [rest[0]], done)
  }

  /** str_getcsv($line): the cells of one line, after its line end is
      dropped; never an empty list. (A line that is blank once its line end
      is dropped gives one null cell in PHP; here that cell is "".) */
  function SplitFields(line: string): (cells: seq<string>)
    ensures |cells| >= 1
  {
    Scan(DropLineEnd(line), false, false, [], [])
  }

  /** str_getcsv() gives a single null cell for this line. */
  predicate BlankLine(line: string) {
    DropLineEnd(line) == []
  }

  /** Each of a list of unquoted cells without its trailing line end. */
  function DropLineEnds(parts: seq<string>): (r: seq<string>)
    ensures |r| == |parts|
  {
    if parts == [] then [] else [DropLineEnd(parts[0])] + DropLineEnds(parts[1..])
  }

  /** Scanning unquoted text is splitting on commas and dropping each cell's
      line end: the open cell and the rest of the line split together. */
  lemma {:induction false} ScanPlain(rest: string, cur: string, done: seq<string>)
    requires '"' !in rest && ',' !in cur
    ensures Scan(rest, false, false, cur, done) == done + DropLineEnds(Explode(cur + rest, ','))
    decreases |rest|, 1
  {
    if rest == [] {
      assert cur + rest == cur;
      ExplodeNoSep(cur, ',');
      assert DropLineEnds([cur]) == [DropLineEnd(cur)];
    } else {
      assert '"' !in rest[1..] && rest[0] != '"' by {
        assert forall x :: x in rest[1..] ==> x in rest;
        assert rest[0] in rest;
      }
      if rest[0] == ',' {
        ScanPlainComma(rest, cur, done);
      } else {
        assert Scan(rest, false, false, cur, done) == Scan(rest[1..], false, false, cur + [rest[0]], done) by {
          ScanCharStep(rest, cur, done);
        }
        ScanPlain(rest[1..], cur + [rest[0]], done);
        assert cur + [rest[0]] + rest[1..] == cur + rest;
      }
    }
  }

  /** ScanPlain at a comma: the open cell is complete. */
  lemma {:induction false} ScanPlainComma(rest: string, cur: string, done: seq<string>)
    requires rest != [] && rest[0] == ',' && '"' !in rest[1..] && ',' !in cur
    ensures Scan(rest, false, false, cur, done) == done + DropLineEnds(Explode(cur + rest, ','))
    decreases |rest|, 0
  {
    var tail := rest[1..];
    var parts, first := Explode(tail, ','), DropLineEnd(cur);
    var cells := DropLineEnds(parts);
    assert Scan(rest, false, false, cur, done) == done + [first] + cells by {
      ScanCommaStep(rest, cur, done);
      ScanPlain(tail, [], done + [first]);
      assert [] + tail == tail;
    }
    DropExplodeAtComma(cur, rest);
    assert done + [first] + cells == done + ([first] + cells);
  }

  /** Splitting at a leading comma puts the open cell first. */
  lemma DropExplodeAtComma(cur: string, rest: string)
    requires rest != [] && rest[0] == ',' && ',' !in cur
    ensures DropLineEnds(Explode(cur + rest, ',')) == [DropLineEnd(cur)] + DropLineEnds(Explode(rest[1..], ','))
  {
    ExplodeCons(cur, ',', rest[1..]);
    assert cur + [','] + rest[1..] == cur + rest;
    DropLineEndsCons(cur, Explode(rest[1..], ','));
  }

  lemma DropLineEndsCons(cell: string, parts: seq<string>)
    ensures DropLineEnds([cell] + parts) == [DropLineEnd(cell)] + DropLineEnds(parts)
  {
    assert ([cell] + parts)[1..] == parts;
  }

  /** A comma outside quotes closes the current cell. */
  lemma ScanCommaStep(rest: string, cur: string, done: seq<string>)
    requires rest != [] && rest[0] == ','
    ensures Scan(rest, false, false, cur, done) == Scan(rest[1..], false, false, [], done + [DropLineEnd(cur)])
  {
  }

  /** Any other character outside quotes, but a quote, joins the current cell. */
  lemma ScanCharStep(rest: string, cur: string, done: seq<string>)
    requires rest != [] && rest[0] != ',' && rest[0] != '"'
    ensures Scan(rest, false, false, cur, done) == Scan(rest[1..], false, false, cur + [rest[0]], done)
  {
  }

  /** A line without double quotes splits as explode(',', $line) once the
      line end is dropped, and each cell loses its own line end. */
  lemma SplitFieldsPlain(line: string)
    requires '"' !in line
    ensures SplitFields(line) == DropLineEnds(Explode(DropLineEnd(line), ','))
  {
    var body := DropLineEnd(line);
    DropLineEndIn(line, '"');
    ScanPlain(body, [], []);
    assert [] + body == body;
  }

  /** Cells without carriage returns and line feeds are left alone. */
  lemma DropLineEndsPlain(parts: seq<string>)
    requires forall i :: 0 <= i < |parts| ==> '\r' !in parts[i] && '\n' !in parts[i]
    ensures DropLineEnds(parts) == parts
  {
    forall i | 0 <= i < |parts| ensures DropLineEnd(parts[i]) == parts[i] {
      DropLineEndPlain(parts[i]);
    }
  }

  /** The body of an enclosed cell: every double quote doubled. */
  function Escape(cell: string): string {
    if cell == [] then []
    else (if cell[0] == '"' then "\"\"" else [cell[0]]) + Escape(cell[1..])
  }

  /** A cell written enclosed in double quotes. */
  function Enclose(cell: string): (s: string)
    ensures |s| >= 2 && s[|s| - 1] == '"'
  {
    "\"" + Escape(cell) + "\""
  }

  /** A line written from its cells, every cell enclosed, separated by commas. */
  function EncodeRow(cells: seq<string>): (s: string)
    requires |cells| >= 1
    ensures |s| >= 2 && s[|s| - 1] == '"'
  {
    if |cells| == 1 then Enclose(cells[0])
    else Enclose(cells[0]) + "," + EncodeRow(cells[1..])
  }

  /** Inside an enclosed stretch, the escaped body followed by the closing
      quote reads back as the original cell. */
  lemma {:induction false} ScanEscaped(cell: string, rest: string, enclosed: bool, cur: string, done: seq<string>)
    requires rest == [] || rest[0] != '"'
    ensures Scan(Escape(cell) + "\"" + rest, true, enclosed, cur, done) == Scan(rest, false, enclosed, cur + cell, done)
    decreases |cell|
  {
    if cell == [] {
      assert Escape(cell) + "\"" + rest == ['"'] + rest;
      assert (['"'] + rest)[1..] == rest;
      assert cur + cell == cur;
    } else {
      var tail := Escape(cell[1..]) + "\"" + rest;
      ScanEscaped(cell[1..], rest, enclosed, cur + [cell[0]], done);
      assert cur + [cell[0]] + cell[1..] == cur + cell;
      if cell[0] == '"' {
        assert Escape(cell) + "\"" + rest == "\"\"" + tail;
        assert ("\"\"" + tail)[2..] == tail;
      } else {
        assert Escape(cell) + "\"" + rest == [cell[0]] + tail;
        assert ([cell[0]] + tail)[1..] == tail;
      }
    }
  }

  /** An enclosed cell followed by anything but a quote reads back as the
      cell, marked as one that started with a quote. */
  lemma ScanEnclosed(cell: string, rest: string, done: seq<string>)
    requires rest == [] || rest[0] != '"'
    ensures Scan(Enclose(cell) + rest, false, false, [], done) == Scan(rest, false, true, cell, done)
  {
    var body := Escape(cell) + "\"" + rest;
    assert Enclose(cell) + rest == "\"" + body;
    assert ("\"" + body)[1..] == body;
    ScanEscaped(cell, rest, true, [], done);
    assert [] + cell == cell;
  }

  lemma {:induction false} ScanRow(cells: seq<string>, done: seq<string>)
    requires |cells| >= 1
    ensures Scan(EncodeRow(cells), false, false, [], done) == done + cells
    decreases |cells|
  {
    if |cells| == 1 {
      ScanEnclosed(cells[0], [], done);
      assert Enclose(cells[0]) + [] == EncodeRow(cells);
    } else {
      var rest := "," + EncodeRow(cells[1..]);
      assert EncodeRow(cells) == Enclose(cells[0]) + rest;
      ScanEnclosed(cells[0], rest, done);
      assert rest[1..] == EncodeRow(cells[1..]);
      ScanRow(cells[1..], done + [cells[0]]);
      assert done + [cells[0]] + cells[1..] == done + cells;
    }
  }

  /** Any list of cells, written as an RFC 4180 line, splits back into the
      same cells. */
  lemma SplitFieldsEncodeRow(cells: seq<string>)
    requires |cells| >= 1
    ensures SplitFields(EncodeRow(cells)) == cells
  {
    var line := EncodeRow(cells);
    assert SplitFields(line) == Scan(line, false, false, [], []) by {
      assert line[|line| - 1] == '"';
      assert DropLineEnd(line) == line;
    }
    ScanRow(cells, []);
    assert [] + cells == cells;
  }
}
