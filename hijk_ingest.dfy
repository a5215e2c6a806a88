/** The HIJK closure-sheet ingestion (`ingestCSVhijk`): column clean-up,
    the Dutch closure-type vocabulary, and the forward scan that builds one
    closure record per numbered row. */
module HijkIngest {
  import opened Common
  import opened SheetText
  import opened HijkTime

  /** One row of the sheet: the NUMBER, DATE, START, END, WATERLEVEL and
      TYPE columns. A non-empty NUMBER marks the first row of a closure. */
  datatype SheetRow = SheetRow(number: Cell, date: Cell, start: Cell, end: Cell, waterLevel: Cell, kind: Cell)

  /** One entry of `closure_record`. Dates are `str(date)` of the parsed
      DATE cell ("NaT" for an empty one); times are the normalised tokens. */
  datatype ClosureRecord = ClosureRecord(
    startDate: string, startTime: Option<string>,
    endDate: string, endTime: Option<string>,
    waterLevel: Cell, closureEventType: Cell)

  /** What makes `create_hijk_dict` raise: an unparsable time or date, or
      the END search running past the last row. */
  datatype IngestError = BadTime(token: string) | BadDate(text: string) | RowOutOfBounds(position: nat)

  // ---------------------------------------------------------------- clean-up

  /** Spaces removed, then every `c` made a `d`: the two `replace` calls
      each clean-up of a number-like column makes. */
  function SquashAndReplace(s: string, c: char, d: char): (r: string)
    requires c != ' ' && d != ' ' && d != c
    ensures ' ' !in r && c !in r
    ensures ' ' !in s && c !in s ==> r == s
    ensures var t := RemoveChar(s, ' ');
      |r| == |t| && forall i :: 0 <= i < |t| ==> r[i] == if t[i] == c then d else t[i]
  {
    var t := RemoveChar(s, ' ');
    ReplaceCharAbsent(t, c, d, ' ');
    ReplaceCharAbsent(t, c, d, c);
    ReplaceCharNoop(t, c, d);
    ReplaceChar(t, c, d)
  }

  /** The clean-up keeps every character but spaces and `c`, and each `c`
      is counted again as a `d`. */
  lemma SquashAndReplaceCounts(s: string, c: char, d: char)
    requires c != ' ' && d != ' ' && d != c
    ensures var r := SquashAndReplace(s, c, d);
      && multiset(r)[d] == multiset(s)[d] + multiset(s)[c]
      && forall x :: x != ' ' && x != c && x != d ==> multiset(r)[x] == multiset(s)[x]
  {
    var t := RemoveChar(s, ' ');
    ReplaceCharCounts(t, c, d);
  }

  /** START and END clean-up: spaces removed, then every 'h' made a ':'. */
  function CleanTime(s: string): (r: string)
    ensures ' ' !in r && 'h' !in r
    ensures ' ' !in s && 'h' !in s ==> r == s
    ensures ' ' !in s ==> |r| == |s| && forall i :: 0 <= i < |s| ==> r[i] == if s[i] == 'h' then ':' else s[i]
  {
    SquashAndReplace(s, 'h', ':')
  }

  /** DATE clean-up: backticks removed. */
  function CleanDate(s: string): (r: string)
    ensures '`' !in r
    ensures '`' !in s ==> r == s
  {
    RemoveChar(s, '`')
  }

  /** WATERLEVEL clean-up: spaces removed, then decimal commas made points. */
  function CleanWaterLevel(s: string): (r: string)
    ensures ' ' !in r && ',' !in r
    ensures ' ' !in s && ',' !in s ==> r == s
    ensures ' ' !in s ==> |r| == |s| && forall i :: 0 <= i < |s| ==> r[i] == if s[i] == ',' then '.' else s[i]
  {
    SquashAndReplace(s, ',', '.')
  }

  /** In a space-free value, the one `c` between two `c`-free parts is
      read as `d`. */
  lemma SquashAndReplaceOne(a: string, b: string, c: char, d: char)
    requires c != ' ' && d != ' ' && d != c
    requires ' ' !in a && c !in a && ' ' !in b && c !in b
    ensures SquashAndReplace(a + [c] + b, c, d) == a + [d] + b
  {
    var s, u := a + [c] + b, a + [d] + b;
    assert ' ' !in s by { assert forall i :: 0 <= i < |s| ==> s[i] in a || s[i] == c || s[i] in b; }
    var t := SquashAndReplace(s, c, d);
    forall i | 0 <= i < |s| ensures t[i] == u[i] {
      if i < |a| { assert s[i] == a[i] && a[i] in a; }
      else if i > |a| { assert s[i] == b[i - |a| - 1] && b[i - |a| - 1] in b; }
    }
  }

  /** An hour mark 'h' between hours and minutes becomes the colon: "24h00"
      is cleaned to "24:00". */
  lemma HourMarkBecomesColon(hours: string, minutes: string)
    requires ' ' !in hours && 'h' !in hours && ' ' !in minutes && 'h' !in minutes
    ensures CleanTime(hours + "h" + minutes) == hours + ":" + minutes
  {
    SquashAndReplaceOne(hours, minutes, 'h', ':');
  }

  /** A decimal comma becomes a point: "4,5" is cleaned to "4.5". */
  lemma DecimalCommaBecomesPoint(whole: string, fraction: string)
    requires ' ' !in whole && ',' !in whole && ' ' !in fraction && ',' !in fraction
    ensures CleanWaterLevel(whole + "," + fraction) == whole + "." + fraction
  {
    SquashAndReplaceOne(whole, fraction, ',', '.');
  }

  /** The Dutch closure labels the sheet uses and the type each stands for. */
  const Vocabulary: map<string, string> := map[
    "stormsluiting" := "STORM",
    "testsluiting" := "TEST",
    "functionelesluiting" := "OPS",
    "onderhoudsluiting" := "OPS"]

  /** `set_type` on one cell: known labels become STORM, TEST or OPS; any
      other value is left as it is. */
  function TypeLabel(cell: Cell): (r: Cell)
    ensures cell == Text("stormsluiting") ==> r == Text("STORM")
    ensures cell == Text("testsluiting") ==> r == Text("TEST")
    ensures cell == Text("functionelesluiting") || cell == Text("onderhoudsluiting") ==> r == Text("OPS")
    ensures cell.Missing? || cell.s !in {"stormsluiting", "testsluiting", "functionelesluiting", "onderhoudsluiting"} ==> r == cell
    ensures r.Text? && r.s in Vocabulary ==> r == cell
  {
    if cell.Text? && cell.s in Vocabulary then Text(Vocabulary[cell.s]) else cell
  }

  function CleanTimeColumns(row: SheetRow): (r: SheetRow)
    ensures r.(start := row.start, end := row.end) == row
    ensures r.start.Missing? <==> row.start.Missing?
    ensures r.end.Missing? <==> row.end.Missing?
    ensures r.start.Text? ==> ' ' !in r.start.s && 'h' !in r.start.s
    ensures r.end.Text? ==> ' ' !in r.end.s && 'h' !in r.end.s
  {
    row.(start := MapText(row.start, CleanTime), end := MapText(row.end, CleanTime))
  }

  function CleanDateColumn(row: SheetRow): (r: SheetRow)
    ensures r.(date := row.date) == row
    ensures r.date.Missing? <==> row.date.Missing?
    ensures r.date.Text? ==> '`' !in r.date.s
  {
    row.(date := MapText(row.date, CleanDate))
  }

  function CleanWaterLevelColumn(row: SheetRow): (r: SheetRow)
    ensures r.(waterLevel := row.waterLevel) == row
    ensures r.waterLevel.Missing? <==> row.waterLevel.Missing?
    ensures r.waterLevel.Text? ==> ' ' !in r.waterLevel.s && ',' !in r.waterLevel.s
  {
    row.(waterLevel := MapText(row.waterLevel, CleanWaterLevel))
  }

  function SetTypeColumn(row: SheetRow): (r: SheetRow)
    ensures r.(kind := row.kind) == row
    ensures r.kind.Missing? <==> row.kind.Missing?
    ensures r.kind.Text? ==> r.kind.s !in Vocabulary
  {
    row.(kind := TypeLabel(row.kind))
  }

  /** A row as `prepare_dataframe` leaves it: no space or 'h' in START and
      END, no backtick in DATE, no space or ',' in WATERLEVEL, and no Dutch
      label left in TYPE. */
  predicate IsPrepared(row: SheetRow) {
    && (row.start.Text? ==> ' ' !in row.start.s && 'h' !in row.start.s)
    && (row.end.Text? ==> ' ' !in row.end.s && 'h' !in row.end.s)
    && (row.date.Text? ==> '`' !in row.date.s)
    && (row.waterLevel.Text? ==> ' ' !in row.waterLevel.s && ',' !in row.waterLevel.s)
    && (row.kind.Text? ==> row.kind.s !in Vocabulary)
  }

  /** `prepare_dataframe` on one row: the four column rewrites in order. It
      keeps NUMBER and which cells are empty, and leaves the row prepared. */
  function PrepareRow(row: SheetRow): (r: SheetRow)
    ensures r.number == row.number
    ensures r.date.Missing? <==> row.date.Missing?
    ensures r.start.Missing? <==> row.start.Missing?
    ensures r.end.Missing? <==> row.end.Missing?
    ensures IsPrepared(r)
  {
    SetTypeColumn(CleanWaterLevelColumn(CleanDateColumn(CleanTimeColumns(row))))
  }

  /** A column-wide rewrite, applied to every row. */
  function MapRows(rows: seq<SheetRow>, f: SheetRow -> SheetRow): (r: seq<SheetRow>)
    ensures |r| == |rows|
    ensures forall i :: 0 <= i < |rows| ==> r[i] == f(rows[i])
  {
    seq(|rows|, i requires 0 <= i < |rows| => f(rows[i]))
  }

  /** Preparing an already prepared row changes nothing. */
  lemma PrepareRowIdempotent(row: SheetRow)
    ensures PrepareRow(PrepareRow(row)) == PrepareRow(row)
  {
  }

  /** Preparing the sheet twice, as the JSON export does (once directly and
      once inside `create_hijk_dict`), equals preparing it once. */
  lemma PrepareSheetIdempotent(rows: seq<SheetRow>)
    ensures MapRows(MapRows(rows, PrepareRow), PrepareRow) == MapRows(rows, PrepareRow)
  {
    var once := MapRows(rows, PrepareRow);
    forall i | 0 <= i < |rows| ensures MapRows(once, PrepareRow)[i] == once[i] {
      PrepareRowIdempotent(rows[i]);
    }
  }

  // ---------------------------------------------------------------- scan

  /** An END cell that does not close the closure: "--" or empty text. An
      empty (NaN) cell is not one, since NaN compares unequal to both. */
  predicate IsPlaceholder(end: Cell): (b: bool)
    ensures b <==> end.Text? && (Show(end) == "--" || Show(end) == "")
    ensures end.Missing? ==> !b
  {
    end == Text("--") || end == Text("")
  }

  /** The row the inner `while` of `create_hijk_dict` stops at: the first
      row at or after `i` whose END is not a placeholder, if any. */
  function FirstEnd(df: seq<SheetRow>, i: nat): (r: Option<nat>)
    requires i <= |df|
    ensures r.Some? ==> i <= r.value < |df| && !IsPlaceholder(df[r.value].end)
    ensures r.Some? ==> forall k :: i <= k < r.value ==> IsPlaceholder(df[k].end)
    ensures r.None? ==> forall k :: i <= k < |df| ==> IsPlaceholder(df[k].end)
    decreases |df| - i
  {
    if i == |df| then None
    else if !IsPlaceholder(df[i].end) then Some(i)
    else FirstEnd(df, i + 1)
  }

  /** `str(pd.to_datetime(cell).date())`: "NaT" for an empty cell and for
      empty text (a DATE that held only backticks); for other text, the
      date pandas reads from it, or the error it raises. */
  function DateText(cell: Cell, parseDate: string -> Option<string>): (r: Result<string, IngestError>)
    ensures cell.Missing? || cell == Text("") ==> r == Ok("NaT")
    ensures cell.Text? && cell.s != "" && parseDate(cell.s).None? ==> r == Err(BadDate(cell.s))
    ensures cell.Text? && cell.s != "" && parseDate(cell.s).Some? ==> r == Ok(parseDate(cell.s).value)
  {
    match cell
    case Missing => Ok("NaT")
    case Text(s) =>
      if s == "" then Ok("NaT")
      else if parseDate(s).Some? then Ok(parseDate(s).value) else Err(BadDate(s))
  }

  /** `handle_time_inputs` with its ValueError carried as an ingest error. */
  function TimeText(cell: Cell): (r: Result<Option<string>, IngestError>)
    ensures r.Ok? <==> HandleTimeInputs(cell).Ok?
    ensures r.Ok? ==> r.value == HandleTimeInputs(cell).value
  {
    match HandleTimeInputs(cell)
    case Ok(t) => Ok(t)
    case Err(Unparsable(s)) => Err(BadTime(s))
  }

  /** The dict literal of `create_hijk_dict` for the numbered row `i` whose
      END search stopped at row `j`: start date, start time, water level and
      type from row `i`, end date and time from row `j`, evaluated in the
      order the literal lists them. */
  function BuildRecord(df: seq<SheetRow>, i: nat, j: nat, parseDate: string -> Option<string>): (r: Result<ClosureRecord, IngestError>)
    requires i < |df| && j < |df|
    ensures r.Ok? ==> BuiltFrom(r.value, df[i], df[j], parseDate)
  {
    match (DateText(df[i].date, parseDate), TimeText(df[i].start))
    case (Err(e), _) => Err(e)
    case (_, Err(e)) => Err(e)
    case (Ok(sd), Ok(st)) =>
      match (DateText(df[j].date, parseDate), TimeText(df[j].end))
      case (Err(e), _) => Err(e)
      case (_, Err(e)) => Err(e)
      case (Ok(ed), Ok(et)) => Ok(ClosureRecord(sd, st, ed, et, df[i].waterLevel, df[i].kind))
  }

  /** `rec` takes its start date and time, water level and type from the
      starting row and its end date and time from the closing row. */
  predicate BuiltFrom(rec: ClosureRecord, first: SheetRow, last: SheetRow, parseDate: string -> Option<string>) {
    Ok(rec.startDate) == DateText(first.date, parseDate) &&
    Ok(rec.startTime) == TimeText(first.start) &&
    Ok(rec.endDate) == DateText(last.date, parseDate) &&
    Ok(rec.endTime) == TimeText(last.end) &&
    rec.waterLevel == first.waterLevel &&
    rec.closureEventType == first.kind
  }

  /** The record `create_hijk_dict` appends for the numbered row `i`, or the
      error it raises there. */
  function EventFor(df: seq<SheetRow>, i: nat, parseDate: string -> Option<string>): (r: Result<ClosureRecord, IngestError>)
    requires i < |df|
    ensures FirstEnd(df, i).None? ==> r == Err(RowOutOfBounds(|df|))
    ensures r.Ok? ==> FirstEnd(df, i).Some? && BuiltFrom(r.value, df[i], df[FirstEnd(df, i).value], parseDate)
  {
    match FirstEnd(df, i)
    case None => Err(RowOutOfBounds(|df|))
    case Some(j) => BuildRecord(df, i, j, parseDate)
  }

  /** Where the scan stands after the first `n` rows: the records appended
      so far, and the error that stopped it, if one did. */
  datatype ScanState = ScanState(records: seq<ClosureRecord>, failure: Option<IngestError>)

  /** The loop of `create_hijk_dict` over the first `n` rows: a numbered
      row appends its record; the first error stops the scan with what was
      appended before it. */
  function Scan(df: seq<SheetRow>, n: nat, parseDate: string -> Option<string>): (st: ScanState)
    requires n <= |df|
    ensures |st.records| <= n
    decreases n
  {
    if n == 0 then ScanState([], None)
    else
      var prev := Scan(df, n - 1, parseDate);
      if prev.failure.Some? || df[n - 1].number.Missing? then prev
      else
        match EventFor(df, n - 1, parseDate)
        case Ok(e) => ScanState(prev.records + [e], None)
        case Err(x) => ScanState(prev.records, Some(x))
  }

  /** One step of the scan over a numbered row, when nothing failed before. */
  lemma ScanNumberedStep(df: seq<SheetRow>, n: nat, parseDate: string -> Option<string>)
    requires n < |df| && df[n].number.Text?
    requires Scan(df, n, parseDate).failure.None?
    ensures EventFor(df, n, parseDate).Ok? ==>
      Scan(df, n + 1, parseDate) == ScanState(Scan(df, n, parseDate).records + [EventFor(df, n, parseDate).value], None)
    ensures EventFor(df, n, parseDate).Err? ==>
      Scan(df, n + 1, parseDate) == ScanState(Scan(df, n, parseDate).records, Some(EventFor(df, n, parseDate).error))
  {
  }

  /** The positions of the numbered rows among the first `n`, in order. */
  function NumberedRows(df: seq<SheetRow>, n: nat): (r: seq<nat>)
    requires n <= |df|
    ensures forall k :: 0 <= k < |r| ==> r[k] < n && df[r[k]].number.Text?
    ensures forall k, l :: 0 <= k < l < |r| ==> r[k] < r[l]
    ensures forall i :: 0 <= i < n && df[i].number.Text? ==> i in r
    decreases n
  {
    if n == 0 then []
    else NumberedRows(df, n - 1) + (if df[n - 1].number.Text? then [n - 1] else [])
  }

  /** Once the scan has failed, later rows change nothing. */
  lemma {:induction false} FailureSticks(df: seq<SheetRow>, m: nat, n: nat, parseDate: string -> Option<string>)
    requires m <= n <= |df|
    requires Scan(df, m, parseDate).failure.Some?
    ensures Scan(df, n, parseDate) == Scan(df, m, parseDate)
    decreases n - m
  {
    if m < n {
      FailureSticks(df, m, n - 1, parseDate);
      var prev := Scan(df, n - 1, parseDate);
      assert prev.failure.Some?;
      assert Scan(df, n, parseDate) == prev;
    }
  }

  /** A row without a number leaves the scan where it was. */
  lemma ScanSkipsUnnumbered(df: seq<SheetRow>, n: nat, parseDate: string -> Option<string>)
    requires n < |df| && df[n].number.Missing?
    ensures Scan(df, n + 1, parseDate) == Scan(df, n, parseDate)
  {
  }

  /** An error at the numbered row `n` is the error the whole scan ends with. */
  lemma ScanStopsAt(df: seq<SheetRow>, n: nat, parseDate: string -> Option<string>)
    requires n < |df| && df[n].number.Text?
    requires Scan(df, n, parseDate).failure.None?
    requires EventFor(df, n, parseDate).Err?
    ensures Scan(df, |df|, parseDate) == ScanState(Scan(df, n, parseDate).records, Some(EventFor(df, n, parseDate).error))
  {
    ScanNumberedStep(df, n, parseDate);
    FailureSticks(df, n + 1, |df|, parseDate);
  }

  /** `records` holds, position by position, the record built for each row
      listed in `numbered`. */
  predicate EmittedFor(df: seq<SheetRow>, numbered: seq<nat>, records: seq<ClosureRecord>, parseDate: string -> Option<string>) {
    |records| == |numbered| &&
    forall k :: 0 <= k < |numbered| ==> numbered[k] < |df| && EventFor(df, numbered[k], parseDate) == Ok(records[k])
  }

  /** Appending a row and the record built for it keeps the correspondence. */
  lemma EmittedForExtend(df: seq<SheetRow>, numbered: seq<nat>, records: seq<ClosureRecord>, i: nat, e: ClosureRecord,
                         parseDate: string -> Option<string>)
    requires EmittedFor(df, numbered, records, parseDate)
    requires i < |df| && EventFor(df, i, parseDate) == Ok(e)
    ensures EmittedFor(df, numbered + [i], records + [e], parseDate)
  {
    var numbered', records' := numbered + [i], records + [e];
    forall k | 0 <= k < |numbered'|
      ensures numbered'[k] < |df| && EventFor(df, numbered'[k], parseDate) == Ok(records'[k])
    {
      if k < |numbered| {
        assert numbered'[k] == numbered[k] && records'[k] == records[k];
      }
    }
  }

  /** One row of a scan that has not failed: an unnumbered row adds nothing,
      a numbered one adds the record built for it. */
  lemma ScanStep(df: seq<SheetRow>, n: nat, parseDate: string -> Option<string>)
    requires 0 < n <= |df|
    requires Scan(df, n, parseDate).failure.None?
    ensures Scan(df, n - 1, parseDate).failure.None?
    ensures df[n - 1].number.Missing? ==> Scan(df, n, parseDate).records == Scan(df, n - 1, parseDate).records
    ensures df[n - 1].number.Text? ==>
      EventFor(df, n - 1, parseDate).Ok? &&
      Scan(df, n, parseDate).records == Scan(df, n - 1, parseDate).records + [EventFor(df, n - 1, parseDate).value]
  {
  }

  /** A scan that did not fail emitted exactly one record per numbered row,
      in row order, each the record built for that row. */
  lemma {:induction false} ScanEmitsOnePerNumberedRow(df: seq<SheetRow>, n: nat, parseDate: string -> Option<string>)
    requires n <= |df|
    requires Scan(df, n, parseDate).failure.None?
    ensures EmittedFor(df, NumberedRows(df, n), Scan(df, n, parseDate).records, parseDate)
    decreases n
  {
    if n > 0 {
      ScanStep(df, n, parseDate);
      ScanEmitsOnePerNumberedRow(df, n - 1, parseDate);
      var numbered, records := NumberedRows(df, n - 1), Scan(df, n - 1, parseDate).records;
      if df[n - 1].number.Text? {
        EmittedForExtend(df, numbered, records, n - 1, EventFor(df, n - 1, parseDate).value, parseDate);
        assert NumberedRows(df, n) == numbered + [n - 1];
      } else {
        assert NumberedRows(df, n) == numbered;
      }
    }
  }

  /** A numbered row none of whose following END cells closes the closure
      makes the scan fail with the out-of-bounds error, unless an earlier
      row already failed. */
  lemma UnterminatedClosureFails(df: seq<SheetRow>, i: nat, parseDate: string -> Option<string>)
    requires i < |df| && df[i].number.Text?
    requires forall k :: i <= k < |df| ==> IsPlaceholder(df[k].end)
    requires Scan(df, i, parseDate).failure.None?
    ensures Scan(df, |df|, parseDate).failure == Some(RowOutOfBounds(|df|))
  {
    UnclosedEvent(df, i, parseDate);
    ScanNumberedStep(df, i, parseDate);
    FailureSticks(df, i + 1, |df|, parseDate);
  }

  /** With only placeholders from row `i` on, the numbered row `i` raises
      the out-of-bounds error. */
  lemma UnclosedEvent(df: seq<SheetRow>, i: nat, parseDate: string -> Option<string>)
    requires i < |df|
    requires forall k :: i <= k < |df| ==> IsPlaceholder(df[k].end)
    ensures FirstEnd(df, i).None? && EventFor(df, i, parseDate) == Err(RowOutOfBounds(|df|))
    decreases |df| - i
  {
    if i + 1 < |df| {
      UnclosedEvent(df, i + 1, parseDate);
    }
  }

  /** A time cell already in the API's "HH:MM" form is taken over with
      ":00" seconds appended. */
  lemma CanonicalTimeText(s: string)
    requires IsCanonicalHM(s)
    ensures TimeText(Text(s)) == Ok(Some(s + ":00"))
  {
    CanonicalTokenNormalises(s);
  }

  /** A closure whose END was left as "--" on its own row takes its end
      date and time from the next row. */
  lemma EndTakenFromLaterRow(d1: string, d2: string, start: string, end: string, level: Cell, kind: Cell,
                             parseDate: string -> Option<string>)
    requires d1 != "" && d2 != "" && parseDate(d1).Some? && parseDate(d2).Some?
    requires IsCanonicalHM(start) && IsCanonicalHM(end)
    ensures
      var df := [SheetRow(Text("1"), Text(d1), Text(start), Text("--"), level, kind),
                 SheetRow(Missing, Text(d2), Text(start), Text(end), Missing, Missing)];
      Scan(df, 2, parseDate) == ScanState([ClosureRecord(parseDate(d1).value, Some(start + ":00"),
                                           parseDate(d2).value, Some(end + ":00"), level, kind)], None)
  {
    var df := [SheetRow(Text("1"), Text(d1), Text(start), Text("--"), level, kind),
               SheetRow(Missing, Text(d2), Text(start), Text(end), Missing, Missing)];
    assert !IsPlaceholder(Text(end)) by { assert |end| == 5; }
    assert FirstEnd(df, 1) == Some(1);
    assert FirstEnd(df, 0) == Some(1);
    CanonicalTimeText(start);
    CanonicalTimeText(end);
    var rec := ClosureRecord(parseDate(d1).value, Some(start + ":00"), parseDate(d2).value, Some(end + ":00"), level, kind);
    assert BuildRecord(df, 0, 1, parseDate) == Ok(rec);
    assert EventFor(df, 0, parseDate) == Ok(rec);
    assert Scan(df, 0, parseDate) == ScanState([], None);
    ScanNumberedStep(df, 0, parseDate);
    ScanSkipsUnnumbered(df, 1, parseDate);
  }

  // ---------------------------------------------------------------- the ingester

  /** `ingestCSVhijk`: the sheet it rewrites in place and the records it
      accumulates. */
  class IngestHijk {
    var sheet: seq<SheetRow>
    const barrierAbbreviation: string
    var closureRecord: seq<ClosureRecord>

    constructor (sheet: seq<SheetRow>)
      ensures this.sheet == sheet && barrierAbbreviation == "HIJK" && closureRecord == []
    {
      this.sheet := sheet;
      barrierAbbreviation := "HIJK";
      closureRecord := [];
    }

    /** `prepare_time_string`. */
    method PrepareTimeString()
      modifies this
      ensures sheet == MapRows(old(sheet), CleanTimeColumns)
      ensures closureRecord == old(closureRecord)
    {
      sheet := MapRows(sheet, CleanTimeColumns);
    }

    /** `prepare_date_string`. */
    method PrepareDateString()
      modifies this
      ensures sheet == MapRows(old(sheet), CleanDateColumn)
      ensures closureRecord == old(closureRecord)
    {
      sheet := MapRows(sheet, CleanDateColumn);
    }

    /** `prepare_waterlevel_string`. */
    method PrepareWaterlevelString()
      modifies this
      ensures sheet == MapRows(old(sheet), CleanWaterLevelColumn)
      ensures closureRecord == old(closureRecord)
    {
      sheet := MapRows(sheet, CleanWaterLevelColumn);
    }

    /** `set_type`. */
    method SetType()
      modifies this
      ensures sheet == MapRows(old(sheet), SetTypeColumn)
      ensures closureRecord == old(closureRecord)
    {
      sheet := MapRows(sheet, SetTypeColumn);
    }

    /** `prepare_dataframe`: the four rewrites in order. */
    method PrepareDataframe()
      modifies this
      ensures sheet == MapRows(old(sheet), PrepareRow)
      ensures closureRecord == old(closureRecord)
    {
      PrepareTimeString();
      PrepareDateString();
      PrepareWaterlevelString();
      SetType();
    }

    /** `create_hijk_dict`: prepares the sheet, then scans it, appending one
      record per numbered row to `closure_record` and returning the whole
      list, earlier calls' records included. On an error the records
      appended before it stay in `closure_record`. */
    method CreateHijkDict(parseDate: string -> Option<string>) returns (r: Result<seq<ClosureRecord>, IngestError>)
      modifies this
      ensures sheet == MapRows(old(sheet), PrepareRow)
      ensures closureRecord == old(closureRecord) + Scan(sheet, |sheet|, parseDate).records
      ensures r == if Scan(sheet, |sheet|, parseDate).failure.None? then Ok(closureRecord)
                   else Err(Scan(sheet, |sheet|, parseDate).failure.value)
    {
      PrepareDataframe();
      r := ScanSheet(parseDate);
    }

    /** The two nested loops of `create_hijk_dict` over the prepared sheet:
      the outer one visits every row, the inner one walks from a numbered
      row to the first row whose END closes the closure. */
    method ScanSheet(parseDate: string -> Option<string>) returns (r: Result<seq<ClosureRecord>, IngestError>)
      modifies this
      ensures sheet == old(sheet)
      ensures closureRecord == old(closureRecord) + Scan(sheet, |sheet|, parseDate).records
      ensures r == if Scan(sheet, |sheet|, parseDate).failure.None? then Ok(closureRecord)
                   else Err(Scan(sheet, |sheet|, parseDate).failure.value)
    {
      var df := sheet;
      var index := 0;
      while index < |df|
        invariant index <= |df| && sheet == df
        invariant Scan(df, index, parseDate).failure.None?
        invariant closureRecord == old(closureRecord) + Scan(df, index, parseDate).records
      {
        if df[index].number.Text? {
          var i := FindEnd(df, index);
          if i == |df| {
            ScanStopsAt(df, index, parseDate);
            return Err(RowOutOfBounds(i));
          }
          var built := BuildRecord(df, index, i, parseDate);
          if built.Err? {
            ScanStopsAt(df, index, parseDate);
            return Err(built.error);
          }
          ScanNumberedStep(df, index, parseDate);
          closureRecord := closureRecord + [built.value];
        } else {
          ScanSkipsUnnumbered(df, index, parseDate);
        }
        index := index + 1;
      }
      r := Ok(closureRecord);
    }
  }

  /** The inner `while` of `create_hijk_dict`: from row `start`, step past
      every row whose END is a placeholder. It answers `|df|` when it runs
      off the end, where the source's `iloc` raises. */
  method FindEnd(df: seq<SheetRow>, start: nat) returns (i: nat)
    requires start < |df|
    ensures i <= |df|
    ensures i == |df| <==> FirstEnd(df, start).None?
    ensures i < |df| ==> FirstEnd(df, start) == Some(i)
  {
    i := start;
    while i < |df| && IsPlaceholder(df[i].end)
      invariant start <= i <= |df|
      invariant FirstEnd(df, start) == FirstEnd(df, i)
    {
      assert FirstEnd(df, i) == FirstEnd(df, i + 1);
      i := i + 1;
    }
  }
}
