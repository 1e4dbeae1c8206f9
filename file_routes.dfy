/** The two file routes of a team: retrieve and upload.  Each reads or
    writes a file of the team's code directory (its outcome is an input
    here), then records the exchange in the Report table.  An upload of the
    style sheet also compares the rendered page with the answer key, on a
    best-effort basis. */
module FileRoutes {
  import opened Common
  import opened Enums
  import opened Queries
  import opened DynamicStore
  import opened ReportStore
  import opened Imaging

  /** What the comparison needs from the outside world for one team page:
      whether its index page exists, the browser's capture, the answer key
      on disk. */
  datatype Page = Page(indexExists: bool, capture: Capture, answerKey: AnswerKeyFile)

  /** The similarity an upload records: the comparison's, only for a style
      sheet and only when the comparison returned one. */
  function RecordedSimilarity(fileType: FileType, comparison: Option<Comparison>): (s: Option<real>)
    ensures s.Some? <==> fileType == CssType && comparison.Some? && comparison.value.similarity.Ok?
    ensures s.Some? ==> s.value == comparison.value.similarity.value
  {
    if fileType == CssType && comparison.Some? && comparison.value.similarity.Ok?
    then Some(comparison.value.similarity.value)
    else None
  }

  /** `api_retrieve_file`: the read of the file (`fileRead`) must succeed,
      then one RETRIEVE row without similarity or score is appended. */
  method RetrieveFile(reports: ReportTable, dynamics: DynamicTable, dynamic: string,
                      code: string, fileType: FileType, fileRead: Result<()>, now: real)
    returns (r: Result<()>)
    requires reports.Valid() && NoAggregateLabel(reports.rows)
    modifies reports
    ensures reports.Valid() && NoAggregateLabel(reports.rows)
    ensures fileRead.Err? ==> r == fileRead && reports.rows == old(reports.rows)
    ensures fileRead.Ok? ==> (r.Ok? <==> WeightOf(dynamics.rows, dynamic).Ok?)
    ensures r.Err? ==> reports.rows == old(reports.rows)
    ensures r.Ok? ==>
      reports.rows == old(reports.rows)
        + [Report(old(reports.nextId), dynamic, code, Retrieve, fileType, now, None, None)]
  {
    if fileRead.Err? {
      return fileRead;
    }
    r := reports.AddReport(dynamics, dynamic, code, Retrieve, fileType, now, None);
  }

  /** `api_upload_file`: the write of the file (`fileWrite`) must succeed;
      a style sheet is then compared with the answer key, and whatever the
      comparison raises is dropped; one UPLOAD row carrying the similarity,
      if any, is appended. */
  method UploadFile(reports: ReportTable, dynamics: DynamicTable, dynamic: string,
                    code: string, fileType: FileType, fileWrite: Result<()>, now: real,
                    page: Page, resize: (Image, int, int) -> Image, gray: Pixel -> byte)
    returns (r: Result<()>, comparison: Option<Comparison>)
    requires reports.Valid() && NoAggregateLabel(reports.rows)
    modifies reports
    ensures reports.Valid() && NoAggregateLabel(reports.rows)
    ensures comparison.Some? <==> fileWrite.Ok? && fileType == CssType
    ensures comparison.Some? ==>
      comparison.value == ComparisonOf(page.indexExists, SizeOf(dynamics.rows, dynamic),
                                       page.capture, page.answerKey, resize, gray)
    ensures fileWrite.Err? ==> r == fileWrite && reports.rows == old(reports.rows)
    ensures fileWrite.Ok? ==> (r.Ok? <==> WeightOf(dynamics.rows, dynamic).Ok?)
    ensures r.Err? ==> reports.rows == old(reports.rows)
    ensures r.Ok? ==>
      var similarity := RecordedSimilarity(fileType, comparison);
      reports.rows == old(reports.rows)
        + [Report(old(reports.nextId), dynamic, code, Upload, fileType, now, similarity,
                  Score(similarity, WeightOf(dynamics.rows, dynamic).value))]
  {
    comparison := None;
    if fileWrite.Err? {
      return fileWrite, comparison;
    }
    var similarity: Option<real> := None;
    if fileType == CssType {
      var c := CompareSimilarity(page.indexExists, dynamics, dynamic, page.capture,
                                 page.answerKey, resize, gray);
      comparison := Some(c);
      if c.similarity.Ok? {
        similarity := Some(c.similarity.value);
      }
    }
    r := reports.AddReport(dynamics, dynamic, code, Upload, fileType, now, similarity);
  }

  /** An HTML upload records no similarity and so no score; a style-sheet
      upload whose comparison failed records none either; otherwise the
      score lies between 0 and the dynamic's weight. */
  lemma RecordedScore(fileType: FileType, size: Result<(int, int)>, page: Page,
                      resize: (Image, int, int) -> Image, gray: Pixel -> byte, weight: int)
    requires weight >= 1
    ensures var c := ComparisonOf(page.indexExists, size, page.capture, page.answerKey, resize, gray);
      var s := Score(RecordedSimilarity(fileType, Some(c)), weight);
      && (fileType == HtmlType ==> s.None?)
      && (c.similarity.Err? ==> s.None?)
      && (fileType == CssType && c.similarity.Ok? ==> s.Some? && 0 <= s.value <= weight)
  {
    var c := ComparisonOf(page.indexExists, size, page.capture, page.answerKey, resize, gray);
    if fileType == CssType && c.similarity.Ok? {
      ScoreBounds(c.similarity.value, weight);
    }
  }
}
