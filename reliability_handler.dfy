/** The closure handlers of `reliability/`'s `StormSurgeBarrierDataHandler`:
    the batch `upsert_closure_data_list`, which stages every record in one
    session and commits once at the end, and the single-record
    `insert_single_closure`. */
module ReliabilityHandler {
  import opened Common
  import opened Store
  import opened Reconcile

  /** What became of one record: staged for the final commit, passed over
      because a date is 'NaT', or skipped with the error that was printed. */
  datatype Verdict = Staged | Ignored | Skipped(error: HandlerError)

  /** One pass of the loop of `upsert_closure_data_list` for the barrier ID
      `bid` (None when the abbreviation found no barrier): the 'NaT' checks,
      then the write under (StartDate, EndDate, BarrierID). */
  function UpsertStep(rows: seq<ClosureRow>, bid: Option<nat>, d: ClosureDict): (o: (seq<ClosureRow>, Verdict))
    ensures !o.1.Staged? ==> o.0 == rows
    ensures o.1 == Ignored <==>
      StartDate in d && (d[StartDate] == Str("NaT") || (EndDate in d && d[EndDate] == Str("NaT")))
    ensures o.1.Staged? <==> !o.1.Ignored? && Write(rows, bid, PeriodKey, d).Ok?
    ensures o.1.Staged? ==> o.0 == Write(rows, bid, PeriodKey, d).value.table
  {
    if StartDate !in d then (rows, Skipped(KeyError("StartDate")))
    else if d[StartDate] == Str("NaT") then (rows, Ignored)
    else if EndDate !in d then (rows, Skipped(KeyError("EndDate")))
    else if d[EndDate] == Str("NaT") then (rows, Ignored)
    else match Write(rows, bid, PeriodKey, d)
      case Err(e) => (rows, Skipped(e))
      case Ok(w) => (w.table, Staged)
  }

  /** The session's table after the loop over `batch`, and the verdict on
      each record. */
  datatype BatchOutcome = BatchOutcome(table: seq<ClosureRow>, verdicts: seq<Verdict>)

  /** The loop of `upsert_closure_data_list`, record by record. */
  function UpsertAll(rows: seq<ClosureRow>, bid: Option<nat>, batch: seq<ClosureDict>): (o: BatchOutcome)
    ensures |o.verdicts| == |batch|
    decreases |batch|
  {
    if batch == [] then BatchOutcome(rows, [])
    else
      var prev := UpsertAll(rows, bid, batch[..|batch| - 1]);
      var step := UpsertStep(prev.table, bid, batch[|batch| - 1]);
      BatchOutcome(step.0, prev.verdicts + [step.1])
  }

  predicate IsSkipped(v: Verdict) {
    v.Skipped?
  }

  /** The errors printed by the loop, in input order. */
  function Printed(verdicts: seq<Verdict>): (r: seq<HandlerError>)
    ensures |r| <= |verdicts|
    decreases |verdicts|
  {
    if verdicts == [] then []
    else
      var n := |verdicts| - 1;
      Printed(verdicts[..n]) + (if verdicts[n].Skipped? then [verdicts[n].error] else [])
  }

  /** Every record is either staged, passed over or has its error
      printed, and only one of these. */
  lemma {:induction false} PrintedCount(verdicts: seq<Verdict>)
    ensures |Printed(verdicts)| == |Positions(verdicts, IsSkipped)|
    ensures |Printed(verdicts)| + multiset(verdicts)[Staged] + multiset(verdicts)[Ignored] == |verdicts|
    decreases |verdicts|
  {
    if verdicts != [] {
      var n := |verdicts| - 1;
      PrintedCount(verdicts[..n]);
      assert verdicts == verdicts[..n] + [verdicts[n]];
      assert multiset(verdicts) == multiset(verdicts[..n]) + multiset{verdicts[n]};
      if verdicts[n].Skipped? {
        assert |Printed(verdicts)| == |Printed(verdicts[..n])| + 1;
        assert |Positions(verdicts, IsSkipped)| == |Positions(verdicts[..n], IsSkipped)| + 1;
      } else {
        assert |Printed(verdicts)| == |Printed(verdicts[..n])|;
        assert |Positions(verdicts, IsSkipped)| == |Positions(verdicts[..n], IsSkipped)|;
      }
    }
  }

  /** The k-th printed error, for one k. */
  lemma {:induction false} PrintedEntry(verdicts: seq<Verdict>, k: nat)
    requires k < |Positions(verdicts, IsSkipped)| && k < |Printed(verdicts)|
    ensures Printed(verdicts)[k] == verdicts[Positions(verdicts, IsSkipped)[k]].error
    decreases |verdicts|
  {
    assert verdicts != [];
    var n := |verdicts| - 1;
    var ps := Positions(verdicts[..n], IsSkipped);
    assert Positions(verdicts, IsSkipped) == ps + (if IsSkipped(verdicts[n]) then [n] else []);
    var prev := Printed(verdicts[..n]);
    var r := Printed(verdicts);
    assert r == prev + (if verdicts[n].Skipped? then [verdicts[n].error] else []);
    PrintedCount(verdicts[..n]);
    if k < |ps| {
      PrintedEntry(verdicts[..n], k);
      assert r[k] == prev[k];
      assert verdicts[..n][ps[k]] == verdicts[ps[k]];
    } else {
      assert k == |ps| && Positions(verdicts, IsSkipped)[k] == n;
      assert r[k] == verdicts[n].error;
    }
  }

  /** The k-th printed error is the error of the k-th skipped record, in
      input order; every record is either staged, passed over or has its
      error printed. */
  lemma PrintedExact(verdicts: seq<Verdict>)
    ensures var r, ps := Printed(verdicts), Positions(verdicts, IsSkipped);
      && |r| == |ps|
      && (forall k :: 0 <= k < |r| ==> r[k] == verdicts[ps[k]].error)
      && |r| + multiset(verdicts)[Staged] + multiset(verdicts)[Ignored] == |verdicts|
  {
    PrintedCount(verdicts);
    forall k | 0 <= k < |Printed(verdicts)|
      ensures Printed(verdicts)[k] == verdicts[Positions(verdicts, IsSkipped)[k]].error
    {
      PrintedEntry(verdicts, k);
    }
  }

  /** The single commit succeeds when the database accepts every event the
      loop changed or added. */
  predicate CommitAccepted(before: seq<ClosureRow>, after: seq<ClosureRow>, accepts: ClosureRow -> bool): (b: bool)
    ensures after == before ==> b
    ensures b ==> forall i :: |before| <= i < |after| ==> accepts(after[i])
  {
    forall i :: 0 <= i < |after| ==> (i < |before| && after[i] == before[i]) || accepts(after[i])
  }

  /** Nothing is deleted, and each record adds at most one event; a record
      that is passed over or skipped adds none. */
  lemma {:induction false} UpsertAllCounts(rows: seq<ClosureRow>, bid: Option<nat>, batch: seq<ClosureDict>)
    ensures var o := UpsertAll(rows, bid, batch);
      |rows| <= |o.table| <= |rows| + |batch| - |Printed(o.verdicts)|
    decreases |batch|
  {
    if batch != [] {
      var n := |batch| - 1;
      UpsertAllCounts(rows, bid, batch[..n]);
      var prev := UpsertAll(rows, bid, batch[..n]);
      var o := UpsertAll(rows, bid, batch);
      assert o.verdicts[..n] == prev.verdicts;
      if Write(prev.table, bid, PeriodKey, batch[n]).Ok? {
        WriteStores(prev.table, bid, PeriodKey, batch[n]);
      }
    }
  }

  /** An abbreviation that names no barrier is not rejected: a new record
      is stored with a NULL barrier. */
  lemma UnknownBarrierStillWrites(rows: seq<ClosureRow>, d: ClosureDict)
    requires HasKey(d, PeriodKey) && d[StartDate] != Str("NaT") && d[EndDate] != Str("NaT")
    requires OnlyClosureColumns(d)
    requires FindClosure(rows, None, PeriodKey, KeyOf(d, PeriodKey)).None?
    ensures UpsertStep(rows, None, d) == (rows + [ClosureRow(None, d)], Staged)
  {
  }

  /** No two records of `batch` that have both key fields share a key. */
  predicate DistinctPeriods(batch: seq<ClosureDict>) {
    forall i, j :: 0 <= i < j < |batch| && HasKey(batch[i], PeriodKey) && HasKey(batch[j], PeriodKey) ==>
      KeyOf(batch[i], PeriodKey) != KeyOf(batch[j], PeriodKey)
  }

  /** A record whose step leaves the table as it is keeps doing so after a
      staged record with another key. */
  lemma UpsertStepStable(rows: seq<ClosureRow>, bid: Option<nat>, d: ClosureDict, v: Verdict, e: ClosureDict)
    requires UpsertStep(rows, bid, d) == (rows, v)
    requires UpsertStep(rows, bid, e).1.Staged?
    requires HasKey(d, PeriodKey) && HasKey(e, PeriodKey) ==> KeyOf(d, PeriodKey) != KeyOf(e, PeriodKey)
    ensures var rows' := UpsertStep(rows, bid, e).0;
      UpsertStep(rows', bid, d) == (rows', v)
  {
    WriteStores(rows, bid, PeriodKey, e);
    WriteIndependent(rows, bid, PeriodKey, d, e);
  }

  /** Once the loop has run, with keys distinct, each record's step leaves
      the final table as it is and gives the verdict it got. */
  lemma {:induction false} UpsertAllSettles(rows: seq<ClosureRow>, bid: Option<nat>, batch: seq<ClosureDict>)
    requires DistinctPeriods(batch)
    ensures var o := UpsertAll(rows, bid, batch);
      forall i :: 0 <= i < |batch| ==> UpsertStep(o.table, bid, batch[i]) == (o.table, o.verdicts[i])
    decreases |batch|
  {
    if batch != [] {
      var n := |batch| - 1;
      var front := batch[..n];
      assert DistinctPeriods(front) by {
        forall i, j | 0 <= i < j < |front| ensures front[i] == batch[i] && front[j] == batch[j] { }
      }
      UpsertAllSettles(rows, bid, front);
      var prev := UpsertAll(rows, bid, front);
      var o := UpsertAll(rows, bid, batch);
      var e := batch[n];
      var step := UpsertStep(prev.table, bid, e);
      forall i | 0 <= i < |batch|
        ensures UpsertStep(o.table, bid, batch[i]) == (o.table, o.verdicts[i])
      {
        if i == n {
          if step.1.Staged? {
            WriteAbsorbs(prev.table, bid, PeriodKey, e);
          }
        } else {
          assert batch[i] == front[i];
          assert o.verdicts[i] == prev.verdicts[i];
          if step.1.Staged? {
            UpsertStepStable(prev.table, bid, batch[i], prev.verdicts[i], e);
          }
        }
      }
    }
  }

  /** A table on which every record's step changes nothing is what the
      loop leaves, with those verdicts. */
  lemma {:induction false} SettledListIsFixed(t: seq<ClosureRow>, bid: Option<nat>, batch: seq<ClosureDict>, verdicts: seq<Verdict>)
    requires |verdicts| == |batch|
    requires forall i :: 0 <= i < |batch| ==> UpsertStep(t, bid, batch[i]) == (t, verdicts[i])
    ensures UpsertAll(t, bid, batch) == BatchOutcome(t, verdicts)
    decreases |batch|
  {
    if batch != [] {
      var n := |batch| - 1;
      SettledListIsFixed(t, bid, batch[..n], verdicts[..n]);
      assert verdicts[..n] + [verdicts[n]] == verdicts;
    }
  }

  /** Idempotence: with distinct keys, upserting the same list again into
      the resulting table changes nothing and prints the same errors, so
      the second commit writes no event. */
  lemma UpsertAllIdempotent(rows: seq<ClosureRow>, bid: Option<nat>, batch: seq<ClosureDict>)
    requires DistinctPeriods(batch)
    ensures var o := UpsertAll(rows, bid, batch);
      UpsertAll(o.table, bid, batch) == o
  {
    UpsertAllSettles(rows, bid, batch);
    var o := UpsertAll(rows, bid, batch);
    SettledListIsFixed(o.table, bid, batch, o.verdicts);
  }

  /** `upsert_closure_data_list`: the barrier by `.first()` (None when there
      is none); every record staged, passed over or skipped with its error
      printed; then one commit. If the commit fails, its exception leaves
      the table as it was. */
  method UpsertClosureDataList(db: Database, closureList: seq<ClosureDict>, abbreviation: string) returns (r: Result<seq<HandlerError>, HandlerError>)
    modifies db
    ensures db.barriers == old(db.barriers) && db.nextBarrierId == old(db.nextBarrierId)
    ensures var o := UpsertAll(old(db.closures), FirstBarrierId(old(db.barriers), abbreviation), closureList);
      if CommitAccepted(old(db.closures), o.table, db.acceptsClosure)
      then db.closures == o.table && r == Ok(Printed(o.verdicts))
      else db.closures == old(db.closures) && r == Err(Rejected)
  {
    var before := db.closures;
    var bid := FirstBarrierId(db.barriers, abbreviation);
    var printed := [];
    var i := 0;
    while i < |closureList|
      invariant i <= |closureList|
      invariant db.barriers == old(db.barriers) && db.nextBarrierId == old(db.nextBarrierId)
      invariant db.closures == UpsertAll(before, bid, closureList[..i]).table
      invariant printed == Printed(UpsertAll(before, bid, closureList[..i]).verdicts)
    {
      assert closureList[..i + 1][..i] == closureList[..i];
      var closure := closureList[i];
      var step := UpsertStep(db.closures, bid, closure);
      if step.1.Skipped? {
        printed := printed + [step.1.error];
      }
      db.closures := step.0;
      i := i + 1;
      assert UpsertAll(before, bid, closureList[..i]).verdicts[..i - 1] == UpsertAll(before, bid, closureList[..i - 1]).verdicts;
    }
    assert closureList[..i] == closureList;
    if !CommitAccepted(before, db.closures, db.acceptsClosure) {
      db.closures := before;
      return Err(Rejected);
    }
    r := Ok(printed);
  }

  // ---------------------------------------------------------------- single record

  /** The dict `insert_single_closure` builds, as written: its last key,
      "Success", names no column of `StormSurgeBarrierClosureEvents`. */
  function SingleDictAsWritten(startDate: Value, startTime: Value, endDate: Value, endTime: Value, closureEventType: Value, success: bool): (d: ClosureDict)
    ensures HasKey(d, PeriodKey) && KeyOf(d, PeriodKey) == (startDate, endDate)
    ensures !OnlyClosureColumns(d) && ClosureEventResult !in d
  {
    var d := map[StartDate := startDate, StartTime := startTime, EndDate := endDate, EndTime := endTime,
                 ClosureEventType := closureEventType, Extra("Success") := Flag(success)];
    assert Extra("Success") in d;
    d
  }

  /** The dict with the outcome stored where the table keeps it, in
      `ClosureEventResult`. */
  function SingleDict(startDate: Value, startTime: Value, endDate: Value, endTime: Value, closureEventType: Value, success: bool): (d: ClosureDict)
    ensures OnlyClosureColumns(d) && HasKey(d, PeriodKey)
    ensures ClosureEventResult in d && d[ClosureEventResult] == Str(if success then "SUCCESS" else "FAILURE")
  {
    map[StartDate := startDate, StartTime := startTime, EndDate := endDate, EndTime := endTime,
        ClosureEventType := closureEventType, ClosureEventResult := Str(if success then "SUCCESS" else "FAILURE")]
  }

  /** `insert_single_closure` for a built dict `d`: False on a stored event
      with the same start date, end date and barrier; otherwise the ORM
      constructor and the commit, True when both succeed. */
  function SingleInsert(bs: seq<BarrierRow>, rows: seq<ClosureRow>, abbr: string, d: ClosureDict, accepts: ClosureRow -> bool): (r: Result<(seq<ClosureRow>, bool), HandlerError>)
    requires HasKey(d, PeriodKey)
    ensures r.Ok? && !r.value.1 ==> r.value.0 == rows
    ensures r == Ok((rows, false)) <==> FindClosure(rows, FirstBarrierId(bs, abbr), PeriodKey, KeyOf(d, PeriodKey)).Some?
    ensures r == Err(InvalidKeyword) <==>
      FindClosure(rows, FirstBarrierId(bs, abbr), PeriodKey, KeyOf(d, PeriodKey)).None? && !OnlyClosureColumns(d)
    ensures r.Ok? && r.value.1 ==> r.value.0 == rows + [ClosureRow(FirstBarrierId(bs, abbr), d)]
  {
    var bid := FirstBarrierId(bs, abbr);
    if FindClosure(rows, bid, PeriodKey, KeyOf(d, PeriodKey)).Some? then Ok((rows, false))
    else if !OnlyClosureColumns(d) then Err(InvalidKeyword)
    else if !accepts(ClosureRow(bid, d)) then Err(Rejected)
    else Ok((rows + [ClosureRow(bid, d)], true))
  }

  /** As written, `insert_single_closure` never inserts: it answers False
      exactly when an event with the same start date, end date and barrier
      is stored, and otherwise raises TypeError for the "Success" keyword;
      on an empty table it always raises. */
  lemma SingleInsertAsWrittenNeverInserts(bs: seq<BarrierRow>, rows: seq<ClosureRow>, abbr: string,
                                          sd: Value, st: Value, ed: Value, et: Value, ty: Value, success: bool, accepts: ClosureRow -> bool)
    ensures var d := SingleDictAsWritten(sd, st, ed, et, ty, success);
      && HasKey(d, PeriodKey)
      && var dup := FindClosure(rows, FirstBarrierId(bs, abbr), PeriodKey, (sd, ed)).Some?;
         var r := SingleInsert(bs, rows, abbr, d, accepts);
         && (dup ==> r == Ok((rows, false)))
         && (!dup ==> r == Err(InvalidKeyword))
         && (rows == [] ==> r == Err(InvalidKeyword))
  {
    var d := SingleDictAsWritten(sd, st, ed, et, ty, success);
    assert Extra("Success") in d;
  }

  /** With the outcome in `ClosureEventResult`, a new period is inserted as
      exactly one event for the barrier, carrying SUCCESS or FAILURE, and
      the same call then answers False. */
  lemma SingleInsertInserts(bs: seq<BarrierRow>, rows: seq<ClosureRow>, abbr: string,
                            sd: Value, st: Value, ed: Value, et: Value, ty: Value, success: bool, accepts: ClosureRow -> bool)
    ensures var d := SingleDict(sd, st, ed, et, ty, success);
      var bid := FirstBarrierId(bs, abbr);
      var r := SingleInsert(bs, rows, abbr, d, accepts);
      && (FindClosure(rows, bid, PeriodKey, (sd, ed)).None? && accepts(ClosureRow(bid, d)) ==>
            r == Ok((rows + [ClosureRow(bid, d)], true)))
      && (r.Ok? && r.value.1 ==>
            SingleInsert(bs, r.value.0, abbr, d, accepts) == Ok((r.value.0, false)))
  {
    var d := SingleDict(sd, st, ed, et, ty, success);
    var bid := FirstBarrierId(bs, abbr);
    assert KeyOf(d, PeriodKey) == (sd, ed);
    var r := SingleInsert(bs, rows, abbr, d, accepts);
    if r.Ok? && r.value.1 {
      var t := r.value.0;
      assert Matches(t[|rows|], bid, PeriodKey, (sd, ed));
    }
  }

  /** `insert_single_closure` against the database, with the outcome stored
      in `ClosureEventResult`. */
  method InsertSingleClosure(db: Database, abbreviation: string, startDate: Value, startTime: Value,
                             endDate: Value, endTime: Value, closureEventType: Value, success: bool)
    returns (r: Result<bool, HandlerError>)
    modifies db
    ensures db.barriers == old(db.barriers) && db.nextBarrierId == old(db.nextBarrierId)
    ensures var s := SingleInsert(old(db.barriers), old(db.closures), abbreviation,
                                  SingleDict(startDate, startTime, endDate, endTime, closureEventType, success), db.acceptsClosure);
      && (s.Ok? ==> r == Ok(s.value.1) && db.closures == s.value.0)
      && (s.Err? ==> r == Err(s.error) && db.closures == old(db.closures))
  {
    var closure := SingleDict(startDate, startTime, endDate, endTime, closureEventType, success);
    var s := SingleInsert(db.barriers, db.closures, abbreviation, closure, db.acceptsClosure);
    if s.Err? {
      return Err(s.error);
    }
    db.closures := s.value.0;
    r := Ok(s.value.1);
  }
}
