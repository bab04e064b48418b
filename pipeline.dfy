/** One run of the batch job, from loading the known identifiers to writing the
    status record. The file system, the browser and the clock are replaced by
    values: the id file's contents, the browser's pages for the configured
    phrases, the log's lines as they stand when the run inspects them, today's
    date and the run's start time. */
module Pipeline {
  import opened Wrappers
  import opened Text
  import opened IdStore
  import opened Scraper
  import opened Health

  const ResultFileName := "results-e-zam.json"

  /** The mail a run with new records tries to send: the report as its body and
      the result file's name as its attachment. */
  datatype Notification = Notification(body: seq<Entry>, attachment: string)

  /** What a run leaves behind: the result file if it wrote one, the id file,
      the mail it tried to send and the status record. */
  datatype RunOutcome = RunOutcome(results: Option<seq<Entry>>, idFile: Option<string>,
                                   mail: Option<Notification>, status: StatusRecord)

  /** The report a run produces from the id file it starts with. */
  ghost function RunReport(idFile: Option<string>, pages: seq<Page>): seq<Entry>
    requires |pages| == |SearchPhrases|
  {
    Report(SearchPhrases, pages, LoadIds(idFile))
  }

  /** `main` after the browser has loaded the search page: the result file,
      the appended identifiers and the mail are produced only when something
      new was found; the status record is written in every case. `order` is
      the order in which the new identifiers were appended. */
  method Run(idFile: Option<string>, pages: seq<Page>, log: seq<string>, today: string, timestamp: real)
    returns (out: RunOutcome, ghost order: seq<string>)
    requires |pages| == |SearchPhrases|
    ensures RunReport(idFile, pages) == [] ==> out.results == None && out.mail == None && out.idFile == idFile
    ensures RunReport(idFile, pages) != [] ==>
              && out.results == Some(RunReport(idFile, pages))
              && out.mail == Some(Notification(RunReport(idFile, pages), ResultFileName))
              && out.idFile == Some(Contents(idFile) + Unlines(order))
              && Elements(order) == ReportedIds(RunReport(idFile, pages))
              && |order| == |ReportedIds(RunReport(idFile, pages))|
    ensures AppendSafe(idFile) ==> AppendSafe(out.idFile)
    ensures AppendSafe(idFile) && NoBreaks(ReportedIds(RunReport(idFile, pages))) ==>
              LoadIds(out.idFile) == LoadIds(idFile) + ReportedIds(RunReport(idFile, pages))
    ensures AppendSafe(idFile) && NoBreaks(ReportedIds(RunReport(idFile, pages))) ==>
              RunReport(out.idFile, pages) == []
    ensures out.status.status == 0 <==> ProblemLogged(log, today)
    ensures out.status.status == 0 ==> out.status == StatusRecord(0, Truncate(timestamp), FailureMessage)
    ensures out.status.status != 0 ==> out.status == StatusRecord(1, Truncate(timestamp), SuccessMessage)
  {
    var existing := LoadIds(idFile);
    var data, newIds := Scrape(SearchPhrases, pages, existing);
    var results: Option<seq<Entry>> := None;
    var mail: Option<Notification> := None;
    var file := idFile;
    order := [];
    if data != [] {
      results := Some(data);
      var text;
      text, order := SaveNewIds(idFile, newIds);
      file := Some(text);
      mail := Some(Notification(data, ResultFileName));
    }
    var status := HealthStatus(log, today, timestamp);
    out := RunOutcome(results, file, mail, status);
    if AppendSafe(idFile) && NoBreaks(newIds) {
      SecondRunReportsNothing(SearchPhrases, pages, existing, LoadIds(file));
    }
  }
}
