# dewinter-reports: the report generator, in Dafny

This project models `App\Services\ReportPdfGenerator` from the dewinter-reports
application. The service turns a published Google Sheet into a weekly
candidate report as a PDF:

- **fetchCsvData** reads the sheet's CSV export. It splits the body on line
  feeds, drops empty and `"0"` lines, and takes the first line as the header.
  Every later line with at least as many cells as the header becomes a
  candidate record. The record's keys are the trimmed header cells.
- **groupByStatus** buckets the candidates by their trimmed `Status` cell.
  Input order is kept inside each bucket. It then emits the buckets of the
  nine recognised statuses in a fixed priority order, followed by every
  other bucket in first-seen order.
- **generatePdfFromHtml** names the file
  `<uuid>-<client> <position> <M>.<D> Report.pdf` and stores it under
  `app/reports/`. M and D are the report date's month and day, without
  leading zeros.
- **The PDF view** shows one section per non-empty group. Its heading is the
  status, with `Screening` printed as `DeWinter Screening`. Each row lists
  the candidate's name and company.

Layout:

- **Text** (`text.dfy`): the PHP string functions involved: `trim`,
  `explode`/`implode`, `array_filter` on strings, and decimal digits.
- **OrderedDict** (`ordered_dict.dfy`): PHP's ordered arrays with string
  keys, as a sequence of key/value pairs. Assigning to an existing key
  replaces its value in place. A new key goes at the end. Also `isset`/`??`
  (Get) and `unset` (Remove).
- **Csv** (`csv.dfy`): `str_getcsv` as a scanner for comma-separated cells
  with RFC 4180 double-quote enclosure.
- **CsvFetch** (`csv_fetch.dfy`): fetchCsvData. The methods carry its loops;
  the functions they are proved against carry its meaning.
- **StatusGrouper** (`status_grouper.dfy`): groupByStatus. It is a method
  with the source's three loops, proved equal to a function whose
  properties are lemmas.
- **ReportFile** (`report_file.dfy`): the file name and path, and
  `strtotime`/`date('n.j')` on the form's `Y-m-d` dates.
- **ReportView** (`report_view.dfy`): the section headings and rows of the
  PDF view.
- **ReportGenerator** (`report_generator.dfy`): `generate()` chaining the
  steps.
- **Scenarios** (`scenarios.dfy`): the grouping on the inputs of the
  feature tests.

Inputs that come from outside the program are parameters:

- the HTTP response (status code and body);
- the uuid from `Str::uuid()`;
- the root that `storage_path()` prefixes.

## Model

| member | source | states |
|---|---|---|
| Text.TrimSpec | app/Services/ReportPdfGenerator.php:66 | trim() leaves no space, tab, line feed, carriage return, NUL or vertical tab at either end, and leaves an already trimmed string unchanged |
| Text.TrimIsInfix | app/Services/ReportPdfGenerator.php:98 | trim() removes only those characters, and only from the two ends: the result is the infix of the input that follows the leading ones |
| Text.TrimIdempotent | app/Services/ReportPdfGenerator.php:98 | trimming a trimmed status changes nothing |
| Text.TrimBlank | app/Services/ReportPdfGenerator.php:98 | a string made only of trim characters trims to the empty string |
| Text.DropLineEndPlain | app/Services/ReportPdfGenerator.php:62 | str_getcsv()'s line-end strip leaves a line with no carriage return or line feed alone, and takes exactly one final carriage return off it |
| Text.Explode | app/Services/ReportPdfGenerator.php:52 | explode() always yields at least one piece, and no piece contains the separator |
| Text.ImplodeExplode | app/Services/ReportPdfGenerator.php:52 | splitting loses nothing: joining the pieces with the separator gives the body back |
| Text.ExplodeImplode | app/Services/ReportPdfGenerator.php:52 | splitting a joined list of separator-free pieces gives exactly those pieces |
| Text.DropFalsy | app/Services/ReportPdfGenerator.php:52 | array_filter() keeps exactly the lines that are neither "" nor "0", never more lines than it was given |
| Text.DropFalsyConcat | app/Services/ReportPdfGenerator.php:52 | the filter works line by line, so it keeps the order of lines |
| Text.DropFalsyNone | app/Services/ReportPdfGenerator.php:52 | lines that are all non-empty and not "0" survive unchanged |
| Text.Decimal | app/Services/ReportPdfGenerator.php:131 | the "n" and "j" formats: at least one digit, all digits, no leading zero |
| Text.DecimalRoundTrip | app/Services/ReportPdfGenerator.php:131 | the unpadded decimal form reads back as the number |
| OrderedDict.GetSpec | app/Services/ReportPdfGenerator.php:99 | isset($d[$k]) holds exactly when k is a key |
| OrderedDict.PutSpec | app/Services/ReportPdfGenerator.php:66 | `$d[$k] = $v`: afterwards k maps to v, every other key keeps its value, and k is appended to the keys only when it was absent |
| OrderedDict.PutFresh | app/Services/ReportPdfGenerator.php:114 | assigning to an absent key appends one entry at the end |
| OrderedDict.WithoutSpec | app/Services/ReportPdfGenerator.php:109 | after unsetting a list of keys, those keys are gone, the others keep their values, and the survivors keep their order |
| OrderedDict.RemoveWithout | app/Services/ReportPdfGenerator.php:109 | unsetting one more key extends the list of unset keys |
| OrderedDict.StringsInSpec | app/Services/ReportPdfGenerator.php:106-111 | the statuses taken in priority order are exactly those of the list that have a bucket, without duplicates |
| OrderedDict.StringsNotInSpec | app/Services/ReportPdfGenerator.php:113-115 | the leftover statuses are exactly the bucket keys outside the priority list, without duplicates |
| OrderedDict.FirstSeenSpec | app/Services/ReportPdfGenerator.php:99-101 | a bucket is created once per status, so the keys are the distinct statuses |
| Csv.SplitFields | app/Services/ReportPdfGenerator.php:58 | str_getcsv() always returns at least one cell |
| Csv.SplitFieldsPlain | app/Services/ReportPdfGenerator.php:62 | a line without double quotes first loses one final "\r\n", "\n" or "\r"; it then splits exactly at its commas, and each cell loses one trailing line end of its own |
| Csv.SplitFieldsEncodeRow | app/Services/ReportPdfGenerator.php:62 | any cells, each enclosed in double quotes with inner quotes doubled and joined by commas, are read back unchanged |
| CsvFetch.RecordOfKeys | app/Services/ReportPdfGenerator.php:58-67 | a record's keys are the distinct trimmed header cells, in header order |
| CsvFetch.RecordOfGet | app/Services/ReportPdfGenerator.php:65-67 | under a trimmed header cell sits the value at that header's position; a later header with the same trimmed name overwrites it |
| CsvFetch.RecordOfSameCells | app/Services/ReportPdfGenerator.php:65-66 | a record reads only the cells at header positions |
| CsvFetch.RecordOfIgnoresExtraCells | app/Services/ReportPdfGenerator.php:63-67 | cells beyond the header count are ignored |
| CsvFetch.SplitAllAt | app/Services/ReportPdfGenerator.php:61-62 | the row for line j holds exactly str_getcsv()'s cells of line j |
| CsvFetch.SplitAllNext | app/Services/ReportPdfGenerator.php:61-62 | one more data line adds exactly its cells as one more row |
| CsvFetch.RecordsOfSnoc | app/Services/ReportPdfGenerator.php:62-69 | one more row adds its record when it has at least as many cells as the header, and nothing otherwise |
| CsvFetch.RecordsOfConcat | app/Services/ReportPdfGenerator.php:61-70 | each data line is handled on its own, so records come out in line order |
| CsvFetch.RecordsOfOrigin | app/Services/ReportPdfGenerator.php:61-70 | at most one record per data line, and every record is the record of a line with enough cells |
| CsvFetch.RecordsOfKeys | app/Services/ReportPdfGenerator.php:58-68 | every record has exactly the distinct trimmed header cells as keys |
| CsvFetch.RecordsOfAllShort | app/Services/ReportPdfGenerator.php:62-63 | lines with fewer cells than the header produce nothing |
| CsvFetch.RecordsOfAllLong | app/Services/ReportPdfGenerator.php:61-70 | lines with enough cells produce one record each, in line order |
| CsvFetch.ParseBody | app/Services/ReportPdfGenerator.php:51-72 | with fewer than two surviving lines there are no records and no error. A blank header line (nothing but a line end) fails with the null-header error, exactly then: str_getcsv() gives it a null cell, and trim() refuses that under strict_types. Otherwise there is at most one record per line after the header, each keyed by the trimmed header cells |
| CsvFetch.PlainJoin | app/Services/ReportPdfGenerator.php:62 | cells without commas, quotes, carriage returns or line feeds, joined by commas, split back into exactly those cells |
| CsvFetch.PlainLine | app/Services/ReportPdfGenerator.php:62 | such a line, ended by "\n" or by "\r\n", holds no line feed and splits into its cells; it is blank exactly when its cells join to nothing |
| CsvFetch.BodyLinesJoin | app/Services/ReportPdfGenerator.php:52 | lines with no line feed, none empty or "0", joined by line feeds (with or without a final one) are exactly the lines the split and the filter give back |
| CsvFetch.BodyLinesJoinFinal | app/Services/ReportPdfGenerator.php:52 | a final line feed after such lines changes nothing once the filter has run |
| CsvFetch.ExplodeFinal | app/Services/ReportPdfGenerator.php:52 | explode() of lines joined by line feeds, plus a final one, gives the lines and one empty string |
| CsvFetch.DropFalsyFinal | app/Services/ReportPdfGenerator.php:52 | array_filter() drops that empty string and keeps the lines |
| CsvFetch.SheetLinesPlain | app/Services/ReportPdfGenerator.php:52 | no line of a sheet of plain cells holds a line feed |
| CsvFetch.SheetLines | app/Services/ReportPdfGenerator.php:51-52 | the lines of such a sheet, with "\n" or "\r\n" line ends and with or without a final line feed, survive the split and the filter exactly |
| CsvFetch.SheetRecords | app/Services/ReportPdfGenerator.php:61-70 | rows of plain cells, each at least as long as the header, give one record per row, in row order |
| CsvFetch.ParseSheet | tests/Feature/Reports/GenerateReportTest.php:213-234 | take a sheet whose cells hold no comma, quote, carriage return or line feed, with "\n" or "\r\n" line ends. Its header cells must not join to "", no line may be empty or "0", and every row must have at least as many cells as the header. Such a sheet parses without error, and each row gives exactly one record, in row order, pairing the header with that row's cells |
| CsvFetch.ParseSheetCell | tests/Feature/Reports/GenerateReportTest.php:229-234 | in such a sheet, the record of row j holds cell i of that row under the trimmed header cell i, provided no later header cell trims to the same name |
| CsvFetch.BlankHeaderFails | app/Services/ReportPdfGenerator.php:58-66 | a "\r\n" sheet whose header line is blank fails with the null-header error, whatever rows follow |
| CsvFetch.BuildCandidate | app/Services/ReportPdfGenerator.php:64-67 | the inner loop builds exactly the record of the header and the line's cells |
| CsvFetch.FetchCsvData | app/Services/ReportPdfGenerator.php:43-73 | a non-2xx response fails with the request error and no records. Otherwise the loops give exactly what the body parses to: its records, or the null-header error raised at the first data line |
| CsvFetch.ReadRecords | app/Services/ReportPdfGenerator.php:58-70 | the loop over the data lines. When the header line is blank, its null cell reaches trim() at the first data line, which raises the null-header error. Otherwise the loop gives exactly the records of the lines' cells |
| StatusGrouper.StatusOf | app/Services/ReportPdfGenerator.php:98 | a candidate's status is always trimmed |
| StatusGrouper.StatusOfCases | app/Services/ReportPdfGenerator.php:98 | a record without a Status key has the status "Unknown". A Status made only of blanks gives the empty status "", not "Unknown". A Status with no blank at either end is kept as it is |
| StatusGrouper.StatusOrderDistinct | app/Services/ReportPdfGenerator.php:85-95 | the nine priority labels are distinct |
| StatusGrouper.MembersSpec | app/Services/ReportPdfGenerator.php:97-103 | the members of a status are exactly the candidates with that status, and there are some exactly when a candidate has it |
| StatusGrouper.AddToBucketSpec | app/Services/ReportPdfGenerator.php:98-102 | one pass of the bucketing loop appends the candidate to its status's bucket, creating the bucket at the end when new, and touches no other bucket |
| StatusGrouper.BucketedKeys | app/Services/ReportPdfGenerator.php:97-103 | the buckets are keyed by the statuses in first-seen order |
| StatusGrouper.BucketedGet | app/Services/ReportPdfGenerator.php:97-103 | a status has a bucket exactly when some candidate has it, and the bucket lists those candidates in input order |
| StatusGrouper.BucketedSpec | app/Services/ReportPdfGenerator.php:97-103 | bucketing gives distinct keys in first-seen order, and each bucket holds exactly its status's candidates in input order |
| StatusGrouper.BucketedTotal | app/Services/ReportPdfGenerator.php:97-103 | the bucket sizes add up to the number of candidates |
| StatusGrouper.PriorityPartSpec | app/Services/ReportPdfGenerator.php:105-111 | the priority loop emits the listed statuses that have buckets, in list order, with their buckets unchanged |
| StatusGrouper.PriorityPartTotal | app/Services/ReportPdfGenerator.php:105-111 | the moved buckets and the buckets left behind hold all candidates between them |
| StatusGrouper.PriorityStep | app/Services/ReportPdfGenerator.php:106-111 | one pass of the priority loop: a label with a bucket in the remainder moves that bucket to the end of the output; a label without a bucket changes nothing |
| StatusGrouper.RestStep | app/Services/ReportPdfGenerator.php:113-115 | one pass of the last loop appends the next leftover bucket, because its key is not yet in the output |
| StatusGrouper.ArrangedSpec | app/Services/ReportPdfGenerator.php:105-115 | reordering keeps every bucket: the recognised keys come first in priority order, then the others in their order, never interleaved and never duplicated |
| StatusGrouper.GroupedSpec | app/Services/ReportPdfGenerator.php:81-118 | the result has unique keys: the recognised statuses in priority order, then the unrecognised ones in first-seen order; the group of each status holds exactly its candidates in input order |
| StatusGrouper.GroupedGet | app/Services/ReportPdfGenerator.php:81-118 | looking up a status gives its candidates when some candidate has it, and nothing otherwise |
| StatusGrouper.GroupSizesSum | app/Services/ReportPdfGenerator.php:97-117 | the group sizes sum to the number of candidates |
| StatusGrouper.EachCandidateInOneGroup | app/Services/ReportPdfGenerator.php:97-103 | a candidate is in a group exactly when the group's key is its status, so it lies in exactly one group |
| StatusGrouper.GroupsNonEmpty | app/Services/ReportPdfGenerator.php:99-102 | no group is empty |
| StatusGrouper.GroupByStatus | app/Services/ReportPdfGenerator.php:81-118 | the three loops compute the grouping: keys unique, priority order then first-seen order, and each group exactly its status's candidates |
| ReportFile.RollOver | app/Services/ReportPdfGenerator.php:131 | strtotime() moves a day past the end of its month (up to 31) into the next month; the result is a valid date |
| ReportFile.ParseYmd | app/Services/ReportPdfGenerator.php:131 | a Y-m-d string with month 1-12 and day 1-31 denotes a valid date; anything else is unreadable |
| ReportFile.ParseFormatYmd | resources/views/livewire/reports/generate.blade.php:31-35 | a date the form stores as Y-m-d reads back as that date |
| ReportFile.MonthDayReadBack | app/Services/ReportPdfGenerator.php:131 | date('n.j') splits at its dot into the month and the day, each without a leading zero, which read back as the date's month and day |
| ReportFile.FileNameParts | app/Services/ReportPdfGenerator.php:126-132 | the name is the uuid, a dash, the client, a space, the position, a space, the month-day and " Report.pdf", each at the position the earlier lengths fix |
| ReportFile.FileNameInjective | app/Services/ReportPdfGenerator.php:125-132 | with uuid, client and position lengths fixed, equal names mean equal uuid, client, position, month and day |
| ReportFile.OutputPath | app/Services/ReportPdfGenerator.php:133 | the path starts with the storage root and ends with the file name, under app/reports/ |
| ReportFile.ReportPathOfFormDate | app/Services/ReportPdfGenerator.php:125-133 | for a date the form stores, the path is `<root>/app/reports/<uuid>-<client> <position> <M>.<D> Report.pdf` with M and D unpadded |
| ReportView.Rows | resources/views/pdf/report.blade.php:210-215 | one row per candidate, in order, showing its Candidate and Company cells, or blanks when they are missing |
| ReportView.HeadingCollision | resources/views/pdf/report.blade.php:201 | two statuses share a heading exactly when they are equal, or are "Screening" and "DeWinter Screening" |
| ReportView.SectionsOfNonEmpty | resources/views/pdf/report.blade.php:198-201 | with no empty group, section i shows group i's heading and rows |
| ReportView.SectionsHaveRows | resources/views/pdf/report.blade.php:198-199 | empty groups never reach the page, and every section shown has rows |
| ReportView.SectionsOfGrouped | resources/views/pdf/report.blade.php:198-215 | for the grouping's output, the page shows one section per group, in group order |
| ReportGenerator.Generate | app/Services/ReportPdfGenerator.php:22-36 | a failed request or a blank header line stops generation with that fetch error, before the date is read. An unreadable date fails next. Otherwise the page shows the grouped records of the body and the file goes to the named path |
| Scenarios.MixedStatusesOrdered | tests/Feature/Reports/GenerateReportTest.php:199-210 | candidates with statuses Rejected, Screening, Interviewing, Submitted and Not Interested are grouped under the keys Interviewing, Submitted, Screening, Rejected, Not Interested, in that order |
| Scenarios.SubmissionsGrouped | tests/Feature/Reports/GenerateReportTest.php:175-189 | the four candidates of the grouping test give Submitted = [first, third], Interviewing = [second], Rejected = [fourth], each a plain list |

## Left out

- The HTTP request, redirects and the `Http` facade. The response (status code and body) is an input. The URL goes to `get()` unchanged: no cache-busting parameter is added.
- Csv.SplitFields: follows `str_getcsv` for double-quote enclosure (section 2 of RFC 4180). It also follows two PHP details: one final line end is dropped from the line and from each cell that does not open with a quote, and blanks before a cell's opening quote are skipped. Some behaviour is not modelled: PHP's backslash escape character; text after a closing quote; a quote that opens in the middle of a cell, which PHP keeps as text; and a quote left open at the end of the line. A blank line gives an empty cell here where PHP gives a null one. For a data cell this is the same, because of `?? ''`. For the header, CsvFetch.ParseBody and CsvFetch.FetchCsvData model the resulting error.
- ReportFile.ParseYmd: reads only the `Y-m-d` form the report form stores. Other `strtotime` formats (relative dates, other layouts), day 00 and month 00 or 13 are not modelled; they give the unreadable result.
- The uuid from `Str::uuid()` and the storage root are parameters. Nothing is proved about uuid uniqueness beyond FileNameInjective.
- The `mkdir` call, the Snappy/wkhtmltopdf rendering and the saved PDF bytes (foreign calls and file I/O). ReportGenerator.Generate returns the sections and the path instead.
- The view's HTML, CSS, logo, title, client name and date header. Only the sections, headings and rows that depend on the grouping are modelled.
- PHP's coercion of numeric-string keys to integers. A Status of `"42"` is the string key "42" here.
- The Livewire pages, routes, the Report model and its factory: UI state, validation, uploads, database access and file serving.
- A blank Status gives the `""` group. The literal `'Unknown'` is used only when the record has no Status key at all (line 98). This follows the code.
- No `hasInterviewDate` flag or interview-date formatting exists in this code, so none is modelled.
- The grouping test (tests/Feature/Reports/GenerateReportTest.php:185-189) reads `$grouped['Submitted']['candidates']`. The code stores a plain list per status (lines 102 and 108), with no `'candidates'` key. Scenarios.SubmissionsGrouped states what the code does: each group is the plain list of its candidates.
- The parse test's concrete body (tests/Feature/Reports/GenerateReportTest.php:216) is not evaluated literally. CsvFetch.ParseSheet and CsvFetch.ParseSheetCell state its outcome for every sheet of unquoted cells, including that one.
