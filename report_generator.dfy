/**
 * ReportPdfGenerator::generate: fetch the sheet, group the candidates, lay
 * out the view's sections and name the PDF file. The HTTP response, the
 * fresh uuid and the storage root are inputs; the HTML and the PDF bytes are
 * not modelled, only what the page shows per section and where the file goes.
 */
module ReportGenerator {
  import opened Wrappers
  import opened OrderedDict
  import opened CsvFetch
  import opened StatusGrouper
  import opened ReportFile
  import opened ReportView

  /** The report's form data ($data). */
  datatype ReportData = ReportData(
    clientName: string,
    clientLogo: string,
    date: string,
    positionTitle: string,
    googleSheetUrl: string)

  datatype GenerateError =
    | FetchFailed(error: FetchError)  // what fetchCsvData throws
    | UnreadableDate                // date() refusing strtotime()'s false

  /** What a successful run yields: the sections the page shows and the path
      of the saved file. */
  datatype Generated = Generated(sections: seq<Section>, path: string)

  /** generate(): a failed request or an unreadable body stops everything;
      otherwise the page shows the grouped records of the body, and the file
      is named after the client, the position and the report date. */
  method Generate(data: ReportData, response: Response, uuid: string, storageRoot: string)
    returns (result: Result<Generated, GenerateError>)
    ensures !Successful(response) ==> result == Failure(FetchFailed(RequestFailed(FetchFailedMessage)))
    ensures Successful(response) ==> result == match ParseBody(response.body)
      case Failure(e) => Failure(FetchFailed(e))
      case Success(records) => match ParseYmd(data.date)
        case None => Failure(UnreadableDate)
        case Some(d) => Success(Generated(
          Sections(Grouped(records)),
          OutputPath(storageRoot, FileName(uuid, data.clientName, data.positionTitle, d))))
  {
    var fetched := FetchCsvData(response);
    if fetched.Failure? {
      return Failure(FetchFailed(fetched.error));
    }
    var grouped := GroupByStatus(fetched.value);
    var sections := Sections(grouped);
    var date := ParseYmd(data.date);
    if date.None? {
      return Failure(UnreadableDate);
    }
    var name := FileName(uuid, data.clientName, data.positionTitle, date.value);
    return Success(Generated(sections, OutputPath(storageRoot, name)));
  }
}
