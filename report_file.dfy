/**
 * The file name and path of the generated PDF (the sprintf and
 * storage_path() calls of ReportPdfGenerator::generatePdfFromHtml):
 *   "<uuid>-<client> <position> <M>.<D> Report.pdf"  under  app/reports/
 * where M and D are the month and day of the report date without leading
 * zeros (date('n.j', strtotime($date))). The report date is the Y-m-d
 * string the report form stores.
 */
module ReportFile {
  import opened Wrappers
  import opened Text

  /** A calendar date as strtotime() resolves it. */
  datatype Date = Date(year: nat, month: nat, day: nat)

  predicate IsLeapYear(year: nat) {
    year % 4 == 0 && (year % 100 != 0 || year % 400 == 0)
  }

  function DaysInMonth(year: nat, month: nat): (n: nat)
    requires 1 <= month <= 12
    ensures 28 <= n <= 31
    ensures month == 12 ==> n == 31
  {
    if month == 2 then (if IsLeapYear(year) then 29 else 28)
    else if month == 4 || month == 6 || month == 9 || month == 11 then 30
    else 31
  }

  predicate ValidDate(d: Date) {
    1 <= d.month <= 12 && 1 <= d.day <= DaysInMonth(d.year, d.month)
  }

  /** strtotime() lets a day past the end of its month (up to 31) run over
      into the next month: 2023-02-30 is March 2nd. */
  function RollOver(year: nat, month: nat, day: nat): (d: Date)
    requires 1 <= month <= 12 && 1 <= day <= 31
    ensures ValidDate(d)
    ensures day <= DaysInMonth(year, month) ==> d == Date(year, month, day)
    ensures day > DaysInMonth(year, month) ==>
      d == Date(year, month + 1, day - DaysInMonth(year, month))
  {
    var n := DaysInMonth(year, month);
    if day <= n then Date(year, month, day) else Date(year, month + 1, day - n)
  }

  /** Two decimal digits, zero padded (the "m" and "d" formats). */
  function Digits2(n: nat): (s: string)
    requires n < 100
    ensures |s| == 2 && IsDigit(s[0]) && IsDigit(s[1])
  {
    [DigitChar(n / 10), DigitChar(n % 10)]
  }

  /** Four decimal digits, zero padded (the "Y" format for years below 10000). */
  function Digits4(n: nat): (s: string)
    requires n < 10000
    ensures |s| == 4 && forall i :: 0 <= i < 4 ==> IsDigit(s[i])
  {
    Digits2(n / 100) + Digits2(n % 100)
  }

  /** The Y-m-d form the report form stores a date in. */
  function FormatYmd(d: Date): string
    requires d.year < 10000 && ValidDate(d)
  {
    Digits4(d.year) + "-" + Digits2(d.month) + "-" + Digits2(d.day)
  }

  predicate AllDigits(s: string) {
    forall i :: 0 <= i < |s| ==> IsDigit(s[i])
  }

  /** strtotime() on a Y-m-d string: the date it denotes, or None when the
      string is not of that form or its month or day is out of range. */
  function ParseYmd(s: string): (r: Option<Date>)
    ensures r.Some? ==> ValidDate(r.value)
  {
    if |s| == 10 && s[4] == '-' && s[7] == '-'
      && AllDigits(s[..4]) && AllDigits(s[5..7]) && AllDigits(s[8..])
    then
      var year, month, day := DecimalValue(s[..4]), DecimalValue(s[5..7]), DecimalValue(s[8..]);
      if 1 <= month <= 12 && 1 <= day <= 31 then Some(RollOver(year, month, day)) else None
    else None
  }

  lemma Digits2Value(n: nat)
    requires n < 100
    ensures DecimalValue(Digits2(n)) == n
  {
    var s := Digits2(n);
    assert DigitValue(s[0]) == n / 10 && DigitValue(s[1]) == n % 10;
    assert s[..1][..0] == [];
    assert s[..|s| - 1] == [s[0]];
    assert DecimalValue([s[0]]) == n / 10;
  }

  lemma Digits4Value(n: nat)
    requires n < 10000
    ensures DecimalValue(Digits4(n)) == n
  {
    var hi, lo := Digits2(n / 100), Digits2(n % 100);
    Digits2Value(n / 100);
    Digits2Value(n % 100);
    DecimalAppend(hi, lo);
  }

  /** Reading a string of digits in two halves. */
  lemma {:induction false} DecimalAppend(a: string, b: string)
    requires AllDigits(a) && AllDigits(b)
    ensures DecimalValue(a + b) == DecimalValue(a) * Pow10(|b|) + DecimalValue(b)
  {
    if b != [] {
      var n, ab := |b| - 1, a + b;
      assert ab[..|ab| - 1] == a + b[..n] && ab[|ab| - 1] == b[n];
      DecimalAppend(a, b[..n]);
      var x, y, d := DecimalValue(a), DecimalValue(b[..n]), DigitValue(b[n]);
      assert DecimalValue(b) == y * 10 + d;
      ShiftDigit(x, Pow10(n), y, d);
    } else {
      assert a + b == a;
    }
  }

  /** Appending a digit to x * p + y multiplies the shift by ten. */
  lemma ShiftDigit(x: nat, p: nat, y: nat, d: nat)
    ensures (x * p + y) * 10 + d == x * (10 * p) + (y * 10 + d)
  {
  }

  function Pow10(k: nat): (p: nat)
    ensures p >= 1
  {
    if k == 0 then 1 else 10 * Pow10(k - 1)
  }

  /** Parsing a formatted date gives the date back. */
  lemma ParseFormatYmd(d: Date)
    requires d.year < 10000 && ValidDate(d)
    ensures ParseYmd(FormatYmd(d)) == Some(d)
  {
    var s := FormatYmd(d);
    assert s[..4] == Digits4(d.year);
    assert s[5..7] == Digits2(d.month);
    assert s[8..] == Digits2(d.day);
    Digits4Value(d.year);
    Digits2Value(d.month);
    Digits2Value(d.day);
  }

  /** date('n.j', ...): month and day without leading zeros. */
  function MonthDay(d: Date): string {
    Decimal(d.month) + "." + Decimal(d.day)
  }

  /** The month-day part splits at its dot into the unpadded month and day,
      which read back as the date's month and day. */
  lemma MonthDayReadBack(d: Date)
    requires ValidDate(d)
    ensures var parts := Explode(MonthDay(d), '.');
      && parts == [Decimal(d.month), Decimal(d.day)]
      && DecimalValue(parts[0]) == d.month && DecimalValue(parts[1]) == d.day
      && parts[0][0] != '0' && parts[1][0] != '0'
  {
    var m, dd := Decimal(d.month), Decimal(d.day);
    assert '.' !in m && '.' !in dd by {
      assert forall i :: 0 <= i < |m| ==> IsDigit(m[i]);
      assert forall i :: 0 <= i < |dd| ==> IsDigit(dd[i]);
    }
    ExplodeCons(m, '.', dd);
    ExplodeNoSep(dd, '.');
    assert MonthDay(d) == m + ['.'] + dd;
    DecimalRoundTrip(d.month);
    DecimalRoundTrip(d.day);
  }

  const ReportSuffix: string := " Report.pdf"

  /** The sprintf('%s-%s %s %s Report.pdf', ...) file name. */
  function FileName(uuid: string, client: string, position: string, d: Date): string {
    uuid + "-" + client + " " + position + " " + MonthDay(d) + ReportSuffix
  }

  /** The file name starts with the uuid and a dash, ends with " Report.pdf",
      and holds client, position and month-day in between, each at the place
      the lengths of the earlier parts determine. */
  lemma FileNameParts(uuid: string, client: string, position: string, d: Date)
    ensures var name, u, c, p := FileName(uuid, client, position, d), |uuid|, |client|, |position|;
      && |name| == u + c + p + |MonthDay(d)| + 14
      && name[..u] == uuid && name[u] == '-'
      && name[u + 1..u + 1 + c] == client && name[u + 1 + c] == ' '
      && name[u + 2 + c..u + 2 + c + p] == position && name[u + 2 + c + p] == ' '
      && name[u + 3 + c + p..|name| - 11] == MonthDay(d)
      && name[|name| - 11..] == ReportSuffix
  {
  }

  /** Report files with uuids, clients and positions of the same lengths
      share a name only when all of those and the month and day agree; in
      particular, distinct uuids of one length give distinct files. */
  lemma FileNameInjective(uuid: string, client: string, position: string, d: Date,
                          uuid': string, client': string, position': string, d': Date)
    requires ValidDate(d) && ValidDate(d')
    requires |uuid| == |uuid'| && |client| == |client'| && |position| == |position'|
    requires FileName(uuid, client, position, d) == FileName(uuid', client', position', d')
    ensures uuid == uuid' && client == client' && position == position'
    ensures d.month == d'.month && d.day == d'.day
  {
    FileNameParts(uuid, client, position, d);
    FileNameParts(uuid', client', position', d');
    MonthDayReadBack(d);
    MonthDayReadBack(d');
  }

  const ReportsDir: string := "app/reports/"

  /** storage_path('app/reports/' . $name). */
  function OutputPath(storageRoot: string, name: string): (path: string)
    ensures |path| == |storageRoot| + 1 + |ReportsDir| + |name|
    ensures path[..|storageRoot|] == storageRoot
    ensures path[|storageRoot| + 1 + |ReportsDir|..] == name
  {
    storageRoot + "/" + ReportsDir + name
  }

  /** The path of the report file for a report date given as a string: None
      when strtotime() cannot read the date (date() then rejects false). */
  function ReportPath(storageRoot: string, uuid: string, client: string, position: string,
                      date: string): Option<string>
  {
    match ParseYmd(date)
    case None => None
    case Some(d) => Some(OutputPath(storageRoot, FileName(uuid, client, position, d)))
  }

  /** For a date the form stores, the report path is the file name, with the
      month and day of that date, under the reports directory. */
  lemma ReportPathOfFormDate(storageRoot: string, uuid: string, client: string, position: string, d: Date)
    requires d.year < 10000 && ValidDate(d)
    ensures ReportPath(storageRoot, uuid, client, position, FormatYmd(d))
      == Some(storageRoot + "/app/reports/" + uuid + "-" + client + " " + position + " "
              + Decimal(d.month) + "." + Decimal(d.day) + " Report.pdf")
  {
    ParseFormatYmd(d);
    var name := FileName(uuid, client, position, d);
    assert storageRoot + "/" + ReportsDir + name
      == storageRoot + "/app/reports/" + uuid + "-" + client + " " + position + " "
         + Decimal(d.month) + "." + Decimal(d.day) + " Report.pdf";
  }
}
