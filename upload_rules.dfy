/**
 * The ingestion rules shared by the three upload endpoints: the strict
 * yyyy-MM-dd check, the header-driven date detection, the validation gates
 * (in the order the endpoints run them) and the stored file name.
 */
module UploadRules {
  import opened Wrappers
  import opened JavaText
  import opened JavaNumbers

  const FirstTimeSeen: string := "first_time_seen"
  const StartTime: string := "start_time"
  const Daily: string := "daily"
  const CsvSuffix: string := ".csv"
  const MaxK: int := 100

  // ---------------------------------------------------------------------------
  // Strict calendar dates

  predicate IsLeapYear(y: int)
  {
    (y % 4 == 0 && y % 100 != 0) || y % 400 == 0
  }

  function DaysInMonth(y: int, m: int): (d: int)
    requires 1 <= m <= 12
    ensures 28 <= d <= 31
    ensures m == 2 ==> (d == 29 <==> IsLeapYear(y))
  {
    if m == 2 then (if IsLeapYear(y) then 29 else 28)
    else if m == 4 || m == 6 || m == 9 || m == 11 then 30
    else 31
  }

  /** A date written exactly as yyyy-MM-dd that names a real day of a year from 1 on. */
  function IsStrictDate(s: string): (b: bool)
    ensures b ==> |s| == 10 && ' ' !in s && ',' !in s
  {
    |s| == 10 && s[4] == '-' && s[7] == '-' &&
    AllDigits(s[..4]) && AllDigits(s[5..7]) && AllDigits(s[8..]) &&
    var year := DigitsValue(s[..4]);
    var month := DigitsValue(s[5..7]);
    var day := DigitsValue(s[8..]);
    1 <= year && 1 <= month <= 12 && 1 <= day <= DaysInMonth(year, month)
  }

  // ---------------------------------------------------------------------------
  // Date detection

  /** What reading the first two lines of an upload yields. */
  datatype DateProbe =
    | NoDate           // no date column after position 0, or no second line: the date stays null
    | Found(date: string)
    | BadDate          // a value that is not a strict date
    | Crashed          // an index past the end of a split row: an uncaught exception

  /**
   * The header position of first_time_seen; when it is absent and the
   * endpoint allows it, the position of start_time instead. -1 when absent.
   */
  function DateColumn(header: seq<string>, startTimeFallback: bool): (i: int)
    ensures -1 <= i < |header|
    ensures i >= 0 ==> header[i] == FirstTimeSeen || (startTimeFallback && header[i] == StartTime)
    ensures FirstTimeSeen in header ==> i == IndexOf(header, FirstTimeSeen) && header[i] == FirstTimeSeen
    ensures i == -1 <==> FirstTimeSeen !in header && (!startTimeFallback || StartTime !in header)
  {
    var i := IndexOf(header, FirstTimeSeen);
    if i < 0 && startTimeFallback then IndexOf(header, StartTime) else i
  }

  /**
   * Split the header on ',', find the date column, and only when it lies after
   * position 0 and a second line exists, take that line's field there up to
   * the first space and check it.
   */
  function DetectDate(lines: seq<string>, startTimeFallback: bool): (r: DateProbe)
    ensures |lines| < 2 ==> r == NoDate
    ensures r != NoDate ==> |lines| >= 2 && DateColumn(JavaSplit(lines[0], ','), startTimeFallback) > 0
    ensures r.Found? ==> IsStrictDate(r.date)
  {
    if |lines| == 0 then NoDate
    else
      var column := DateColumn(JavaSplit(lines[0], ','), startTimeFallback);
      if column <= 0 || |lines| < 2 then NoDate
      else
        var fields := JavaSplit(lines[1], ',');
        if column >= |fields| then Crashed
        else
          var words := JavaSplit(fields[column], ' ');
          if |words| == 0 then Crashed
          else if IsStrictDate(words[0]) then Found(words[0])
          else BadDate
  }

  // ---------------------------------------------------------------------------
  // Validation gates

  /** The HTTP outcome of an endpoint. */
  datatype Status = Ok | NoContent | BadRequest | ServerError

  datatype Rejection = BadK | NotCsv | TooLarge | NoName

  /** The outcome of an endpoint's checks before it touches any store. */
  datatype Gate = Pass | Reject(reason: Rejection) | Crash

  /** A rejected check answers 400; an exception while checking answers 500. */
  function GateStatus(g: Gate): (s: Status)
    requires g != Pass
    ensures s == BadRequest <==> g.Reject?
    ensures s == ServerError <==> g == Crash
  {
    if g.Reject? then BadRequest else ServerError
  }

  /** I/O failures an upload can meet, which the endpoints catch and answer with 500. */
  datatype Faults = Faults(permissionFails: bool, saveFails: bool, readBackFails: bool)

  /**
   * upload: k must be numeric and, read as an int, within 0..100; then the
   * original file name must end in ".csv"; then the size must not exceed the
   * limit. A numeric k that parseInt refuses throws (Crash), as does a
   * missing original file name.
   */
  function PublicGate(k: string, fileName: Option<string>, size: int, maxSize: int): (g: Gate)
    ensures g == Pass <==>
      IsNumeric(k) && ParseInt(k).Some? && 0 <= ParseInt(k).value <= MaxK &&
      fileName.Some? && EndsWith(fileName.value, CsvSuffix) && size <= maxSize
    ensures g == Reject(BadK) <==> !IsNumeric(k) || (ParseInt(k).Some? && !(0 <= ParseInt(k).value <= MaxK))
    ensures g == Crash <==> IsNumeric(k) && (ParseInt(k).None? || (0 <= ParseInt(k).value <= MaxK && fileName.None?))
  {
    if !IsNumeric(k) then Reject(BadK)
    else match ParseInt(k)
      case None => Crash
      case Some(n) =>
        if n < 0 || n > MaxK then Reject(BadK)
        else if fileName.None? then Crash
        else if !EndsWith(fileName.value, CsvSuffix) then Reject(NotCsv)
        else if size > maxSize then Reject(TooLarge)
        else Pass
  }

  /**
   * uploadInternal: k need only be numeric (no range, not even parsed), then
   * the ".csv" suffix; there is no size limit.
   */
  function ArchiveGate(k: string, fileName: Option<string>): (g: Gate)
    ensures g == Pass <==> IsNumeric(k) && fileName.Some? && EndsWith(fileName.value, CsvSuffix)
    ensures g == Reject(BadK) <==> !IsNumeric(k)
  {
    if !IsNumeric(k) then Reject(BadK)
    else if fileName.None? then Crash
    else if !EndsWith(fileName.value, CsvSuffix) then Reject(NotCsv)
    else Pass
  }

  /**
   * anonymizeExternalAPI: a name is required, then k (already an int) must be
   * present and within 0..100, then the suffix, then the size.
   */
  function ExternalGate(name: Option<string>, k: Option<int>, fileName: Option<string>, size: int, maxSize: int): (g: Gate)
    ensures g == Pass <==>
      name.Some? && k.Some? && 0 <= k.value <= MaxK &&
      fileName.Some? && EndsWith(fileName.value, CsvSuffix) && size <= maxSize
    ensures g == Reject(NoName) <==> name.None?
    ensures g == Reject(BadK) <==> name.Some? && (k.None? || !(0 <= k.value <= MaxK))
  {
    if name.None? then Reject(NoName)
    else if k.None? || k.value < 0 || k.value > MaxK then Reject(BadK)
    else if fileName.None? then Crash
    else if !EndsWith(fileName.value, CsvSuffix) then Reject(NotCsv)
    else if size > maxSize then Reject(TooLarge)
    else Pass
  }

  // ---------------------------------------------------------------------------
  // Storage naming

  function DatasetPrefix(datasetId: string): string
  {
    "dataset-" + datasetId + "-"
  }

  /** The name an accepted upload is stored under. */
  function DatasetFileName(datasetId: string, date: string): (name: string)
    ensures EndsWith(name, CsvSuffix)
    ensures |DatasetPrefix(datasetId)| <= |name| && name[..|DatasetPrefix(datasetId)|] == DatasetPrefix(datasetId)
  {
    DatasetPrefix(datasetId) + date + CsvSuffix
  }

  /** "/data/mobility/" followed by the definition id. */
  function DirectoryFor(definitionId: string): (path: string)
    ensures |path| == 15 + |definitionId| && path[..15] == "/data/mobility/" && path[15..] == definitionId
  {
    "/data/mobility/" + definitionId
  }

  /** Lines of the stored file less the header. */
  function DataPoints(lines: seq<string>): int
  {
    |lines| - 1
  }

  // ---------------------------------------------------------------------------
  // Properties

  /**
   * A found date comes from the second line's date column, which lies after
   * position 0: it is that field up to its first space, and it is strict.
   */
  lemma FoundDateOrigin(lines: seq<string>, startTimeFallback: bool)
    ensures DetectDate(lines, startTimeFallback).Found? ==> |lines| >= 2
    ensures DetectDate(lines, startTimeFallback).Found? ==>
      var column := DateColumn(JavaSplit(lines[0], ','), startTimeFallback);
      var fields := JavaSplit(lines[1], ',');
      0 < column < |fields| &&
      DetectDate(lines, startTimeFallback).date == fields[column][..IndexOfChar(fields[column], ' ')] &&
      IsStrictDate(DetectDate(lines, startTimeFallback).date)
  {
    if DetectDate(lines, startTimeFallback).Found? {
      var column := DateColumn(JavaSplit(lines[0], ','), startTimeFallback);
      JavaSplitFirst(JavaSplit(lines[1], ',')[column], ' ');
    }
  }

  /** A date column at position 0 is never read, so the upload has no date. */
  lemma FirstColumnDateIgnored(lines: seq<string>, startTimeFallback: bool)
    requires |lines| >= 1
    requires |JavaSplit(lines[0], ',')| > 0 && JavaSplit(lines[0], ',')[0] == FirstTimeSeen
    ensures DetectDate(lines, startTimeFallback) == NoDate
  {
    assert IndexOf(JavaSplit(lines[0], ','), FirstTimeSeen) == 0;
  }

  /**
   * A well-formed export is accepted with the date of its first data row: the
   * header names first_time_seen after position 0 and the first data row holds
   * "<date> <time>" there.
   */
  lemma DetectsExportDate(header: seq<string>, row: seq<string>, rest: seq<string>, date: string, time: string, startTimeFallback: bool)
    requires |header| >= 1 && header[|header| - 1] != [] && forall j :: 0 <= j < |header| ==> ',' !in header[j]
    requires |row| >= 1 && row[|row| - 1] != [] && forall j :: 0 <= j < |row| ==> ',' !in row[j]
    requires 0 < IndexOf(header, FirstTimeSeen) < |row|
    requires row[IndexOf(header, FirstTimeSeen)] == date + " " + time
    requires IsStrictDate(date)
    ensures DetectDate([Join(header, ','), Join(row, ',')] + rest, startTimeFallback) == Found(date)
  {
    var lines := [Join(header, ','), Join(row, ',')] + rest;
    var column := IndexOf(header, FirstTimeSeen);
    assert JavaSplit(lines[0], ',') == header by { JavaSplitJoin(header, ','); }
    assert JavaSplit(lines[1], ',') == row by { JavaSplitJoin(row, ','); }
    assert DateColumn(header, startTimeFallback) == column;
    assert JavaSplit(row[column], ' ')[0] == date by {
      FirstWordOfStamp(date, time);
    }
  }

  /** The text before the first space of "<date> <time>" is the date. */
  lemma FirstWordOfStamp(date: string, time: string)
    requires IsStrictDate(date)
    ensures |JavaSplit(date + " " + time, ' ')| > 0 && JavaSplit(date + " " + time, ' ')[0] == date
  {
    var field := date + " " + time;
    assert field[|date|] == ' ';
    assert forall j :: 0 <= j < |date| ==> field[j] == date[j];
    assert IndexOfChar(field, ' ') == |date|;
    assert field[..|date|] == date;
    assert SplitAll(field, ' ')[0] == date;
    JavaSplitFirst(field, ' ');
  }

  /** With dates of one length, the stored name determines the dataset id and the date. */
  lemma FileNameInjective(id1: string, date1: string, id2: string, date2: string)
    requires |date1| == |date2|
    requires DatasetFileName(id1, date1) == DatasetFileName(id2, date2)
    ensures id1 == id2 && date1 == date2
  {
    var n := DatasetFileName(id1, date1);
    assert |id1| == |id2|;
    assert n[8..8 + |id1|] == id1 by { assert n == "dataset-" + id1 + "-" + date1 + CsvSuffix; }
    assert n[8..8 + |id2|] == id2 by { assert n == "dataset-" + id2 + "-" + date2 + CsvSuffix; }
    assert n[9 + |id1|..9 + |id1| + |date1|] == date1 by { assert n == "dataset-" + id1 + "-" + date1 + CsvSuffix; }
    assert n[9 + |id2|..9 + |id2| + |date2|] == date2 by { assert n == "dataset-" + id2 + "-" + date2 + CsvSuffix; }
  }

  /** The stored name contains the dataset id and the download pattern "dataset-<id>-". */
  lemma FileNameFound(id: string, date: string)
    ensures Contains(DatasetFileName(id, date), id)
    ensures Contains(DatasetFileName(id, date), DatasetPrefix(id))
  {
    var n := DatasetFileName(id, date);
    assert OccursAt(n, id, 8);
    assert OccursAt(n, DatasetPrefix(id), 0);
  }
}
