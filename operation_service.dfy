/**
 * internal/service/operation.go: the month gate of CreateCSVReportAndURL,
 * the rows createCSVFile writes, and the shape of the report's file name
 * and URL path.
 */
module OperationService {
  import opened Wrappers
  import opened CustomErrors
  import opened Strings
  import opened DateTimes
  import opened Models
  import OperationLog
  import Postgres

  const ErrParsingDate := "invalid date (year-month, e.g. 2023-08)"

  /** The layout "2006-01": four digits, '-', two digits naming a month 01..12, and nothing more. */
  predicate MonthLayout(date: string)
  {
    && |date| == 7
    && AllDigits(date[..4]) && date[4] == '-' && AllDigits(date[5..])
    && 1 <= DigitsValue(date[5..]) <= 12
  }

  /** `time.Parse("2006-01", date)`, reduced to the (year, month) of the instant it returns. */
  function ParseMonth(date: string): (r: Result<(int, int), Error>)
    ensures r.Ok? <==> MonthLayout(date)
    ensures r.Ok? ==> 0 <= r.value.0 <= 9999 && 1 <= r.value.1 <= 12
    ensures r.Err? ==> r.error == Plain(ErrParsingDate)
  {
    if |date| == 7 && AllDigits(date[..4]) && date[4] == '-' && AllDigits(date[5..]) then
      var year, month := DigitsValue(date[..4]), DigitsValue(date[5..]);
      DigitsValueBound(date[..4]);
      assert Pow10(4) == 10000;
      if 1 <= month <= 12 then Ok((year, month)) else Err(Plain(ErrParsingDate))
    else Err(Plain(ErrParsingDate))
  }

  /** Every year 0..9999 and month written in the layout parse back to themselves. */
  lemma ParseMonthRoundTrip(year: int, month: int)
    requires 0 <= year <= 9999 && 1 <= month <= 12
    ensures ParseMonth(PadInt(year, 4) + "-" + PadInt(month, 2)) == Ok((year, month))
  {
    assert Pow10(4) == 10000 && Pow10(2) == 100;
    PadRoundTrip(year, 4);
    PadRoundTrip(month, 2);
    var s := Pad(year, 4) + "-" + Pad(month, 2);
    assert s[..4] == Pad(year, 4) && s[5..] == Pad(month, 2);
  }

  /** An accepted date is the canonical rendering of what it parses to: the parse is one-to-one. */
  lemma ParseMonthCanonical(date: string)
    requires ParseMonth(date).Ok?
    ensures var (year, month) := ParseMonth(date).value;
      date == PadInt(year, 4) + "-" + PadInt(month, 2)
  {
    PadOfDigits(date[..4]);
    PadOfDigits(date[5..]);
    assert date == date[..4] + "-" + date[5..];
  }

  /** The first row createCSVFile writes. */
  const CsvHeader: seq<string> := ["user id", "segment_slug", "action", "date"]

  /** The row of one operation: decimal user id, slug, action, date as "YYYY-MM-DD HH:MM:SS". */
  function CsvRow(o: OperationRecord): seq<string>
  {
    [Itoa(o.userID), o.segmentSlug, o.action, FormatDateTime(o.date)]
  }

  /** A row gives back the operation's user id, slug, action and date to the second. */
  lemma CsvRowFields(o: OperationRecord)
    requires o.userID >= 0 && Valid(o.date) && 0 <= o.date.year <= 9999
    ensures var row := CsvRow(o);
      && |row| == 4
      && AllDigits(row[0]) && DigitsValue(row[0]) == o.userID
      && row[1] == o.segmentSlug && row[2] == o.action
      && |row[3]| == 19
      && AllDigits(row[3][0..4]) && DigitsValue(row[3][0..4]) == o.date.year
      && AllDigits(row[3][5..7]) && DigitsValue(row[3][5..7]) == o.date.month
      && AllDigits(row[3][8..10]) && DigitsValue(row[3][8..10]) == o.date.day
      && AllDigits(row[3][11..13]) && DigitsValue(row[3][11..13]) == o.date.hour
      && AllDigits(row[3][14..16]) && DigitsValue(row[3][14..16]) == o.date.minute
      && AllDigits(row[3][17..19]) && DigitsValue(row[3][17..19]) == o.date.second
  {
    ItoaRoundTrip(o.userID);
    FormatDateTimeFields(o.date);
  }

  /** `f` applied to each element of `xs`, in order. */
  function Each<T, U>(f: T -> U, xs: seq<T>): (ys: seq<U>)
    ensures |ys| == |xs|
    ensures forall i :: 0 <= i < |xs| ==> ys[i] == f(xs[i])
  {
    if xs == [] then [] else Each(f, xs[..|xs| - 1]) + [f(xs[|xs| - 1])]
  }

  /**
   * createCSVFile, as the list of rows handed to the CSV writer: the
   * header, then one row per operation in input order.
   */
  method CreateCSVFile(operations: seq<OperationRecord>) returns (rows: seq<seq<string>>)
    ensures |rows| == |operations| + 1
    ensures rows[0] == CsvHeader
    ensures forall i :: 0 <= i < |operations| ==> rows[i + 1] == CsvRow(operations[i])
  {
    var body: seq<seq<string>> := [];
    for i := 0 to |operations|
      invariant body == Each(CsvRow, operations[..i])
    {
      assert operations[..i + 1][..i] == operations[..i];
      body := body + [CsvRow(operations[i])];
    }
    assert operations[..|operations|] == operations;
    rows := [CsvHeader] + body;
  }

  /** The report file `path + id + ".csv"`; the id reads back from the name. */
  function ReportFileName(path: string, id: string): (name: string)
    ensures |name| == |path| + |id| + 4
    ensures name[..|path|] == path && name[|path|..|path| + |id|] == id && name[|path| + |id|..] == ".csv"
  {
    path + id + ".csv"
  }

  const ReportRoute := "/api/v1/users/report/"

  /** The URL path `/api/v1/users/report/<id>`; the id reads back from the path. */
  function ReportURLPath(id: string): (p: string)
    ensures |p| == |ReportRoute| + |id|
    ensures p[..|ReportRoute|] == ReportRoute && p[|ReportRoute|..] == id
  {
    ReportRoute + id
  }

  /** The file a report is written to and the path it is served under carry the same id. */
  lemma ReportNamesAgree(path: string, id: string)
    ensures ReportFileName(path, id)[|path|..|ReportFileName(path, id)| - 4] == ReportURLPath(id)[|ReportRoute|..]
  {
  }

  /** What CreateCSVReportAndURL produces: the report's file name, its rows, and its URL path. */
  datatype Report = Report(fileName: string, rows: seq<seq<string>>, urlPath: string)

  /**
   * CreateCSVReportAndURL: a date outside the layout is rejected before
   * the store is read; otherwise the month's operations, ordered by user
   * id, become the rows of file `path + id + ".csv"`, served under the
   * URL path for the same id. The id is the uuid the source draws.
   */
  method CreateCSVReportAndURL(db: Postgres.Storage, pathToReports: string, date: string, id: string)
    returns (r: Result<Report, Error>)
    ensures ParseMonth(date).Err? ==> r == Err(Plain(ErrParsingDate))
    ensures ParseMonth(date).Ok? ==> r.Ok?
    ensures r.Ok? ==>
      var (year, month) := ParseMonth(date).value;
      var ops := OperationLog.SortByUser(OperationLog.Selected(db.operations, MonthStart(year, month), MonthEnd(year, month)));
      && r.value.fileName == ReportFileName(pathToReports, id)
      && r.value.urlPath == ReportURLPath(id)
      && |r.value.rows| == |ops| + 1 && r.value.rows[0] == CsvHeader
      && forall i :: 0 <= i < |ops| ==> r.value.rows[i + 1] == CsvRow(ops[i])
  {
    var parsed := ParseMonth(date);
    if parsed.Err? {
      return Err(Plain(ErrParsingDate));
    }
    var (year, month) := parsed.value;
    var operations := db.GetOperations(year, month);
    var rows := CreateCSVFile(operations);
    return Ok(Report(ReportFileName(pathToReports, id), rows, ReportURLPath(id)));
  }
}
