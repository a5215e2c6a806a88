/** The closure handlers of the top-level `StormSurgeBarrierDataHandler`:
    the batch `insert_closure_events`, with one commit or rollback per
    record, and the single-record `insert_single_closure_event`. */
module DataHandler {
  import opened Common
  import opened Store
  import opened Reconcile

  /** `closure.setdefault("ClosureEventResult", "SUCCESS")`. */
  function WithDefaultResult(d: ClosureDict): (r: ClosureDict)
    ensures ClosureEventResult in r
    ensures ClosureEventResult !in d ==> r[ClosureEventResult] == Str("SUCCESS")
    ensures ClosureEventResult in d ==> r == d
    ensures forall f :: f != ClosureEventResult ==> (f in r <==> f in d)
    ensures forall f :: f != ClosureEventResult && f in d ==> r[f] == d[f]
  {
    if ClosureEventResult in d then d else d[ClosureEventResult := Str("SUCCESS")]
  }

  /** The defaulted record keeps the record's key and its key fields. */
  lemma DefaultKeepsKey(d: ClosureDict)
    ensures HasKey(WithDefaultResult(d), StartKey) == HasKey(d, StartKey)
    ensures KeyOf(WithDefaultResult(d), StartKey) == KeyOf(d, StartKey)
  {
  }

  /** What became of one record: committed, or rolled back and skipped with
      the error that stopped it. */
  datatype Verdict = Committed | Skipped(error: HandlerError)

  /** An entry of `skipped_records`: the record, default result included,
      and its error. */
  datatype SkippedRecord = SkippedRecord(record: ClosureDict, error: HandlerError)

  /** The write under (StartDate, StartTime, BarrierID) succeeds and the
      database accepts the event it writes. */
  predicate WriteAccepted(rows: seq<ClosureRow>, bid: nat, d: ClosureDict, accepts: ClosureRow -> bool): (b: bool)
    ensures b ==> HasKey(d, StartKey)
  {
    var w := Write(rows, Some(bid), StartKey, d);
    w.Ok? && accepts(w.value.table[w.value.at])
  }

  /** One pass of the loop of `insert_closure_events` for the barrier `bid`:
      the default result, the write under (StartDate, StartTime, BarrierID),
      and the commit, which the database refuses if it rejects the written
      event. A refused or failed record is rolled back. */
  function InsertStep(rows: seq<ClosureRow>, bid: nat, d: ClosureDict, accepts: ClosureRow -> bool): (o: (seq<ClosureRow>, Verdict))
    ensures o.1.Skipped? ==> o.0 == rows
    ensures o.1.Committed? <==> WriteAccepted(rows, bid, WithDefaultResult(d), accepts)
    ensures o.1.Committed? ==> o.0 == Write(rows, Some(bid), StartKey, WithDefaultResult(d)).value.table
  {
    match Write(rows, Some(bid), StartKey, WithDefaultResult(d))
    case Err(e) => (rows, Skipped(e))
    case Ok(w) => if accepts(w.table[w.at]) then (w.table, Committed) else (rows, Skipped(Rejected))
  }

  /** The table after the loop over `batch`, and the verdict on each record. */
  datatype BatchOutcome = BatchOutcome(table: seq<ClosureRow>, verdicts: seq<Verdict>)

  /** The loop of `insert_closure_events` over `batch`, record by record. */
  function InsertAll(rows: seq<ClosureRow>, bid: nat, batch: seq<ClosureDict>, accepts: ClosureRow -> bool): (o: BatchOutcome)
    ensures |o.verdicts| == |batch|
    decreases |batch|
  {
    if batch == [] then BatchOutcome(rows, [])
    else
      var prev := InsertAll(rows, bid, batch[..|batch| - 1], accepts);
      var step := InsertStep(prev.table, bid, batch[|batch| - 1], accepts);
      BatchOutcome(step.0, prev.verdicts + [step.1])
  }

  predicate IsSkipped(v: Verdict) {
    v.Skipped?
  }

  /** `skipped_records`: the skipped records with their errors, in input
      order. */
  function SkippedRecords(batch: seq<ClosureDict>, verdicts: seq<Verdict>): (r: seq<SkippedRecord>)
    requires |verdicts| == |batch|
    ensures |r| <= |batch|
    decreases |batch|
  {
    if batch == [] then []
    else
      var n := |batch| - 1;
      SkippedRecords(batch[..n], verdicts[..n]) +
        (if verdicts[n].Skipped? then [SkippedRecord(WithDefaultResult(batch[n]), verdicts[n].error)] else [])
  }

  /** Every record is either committed or in `skipped_records`, never
      both. */
  lemma {:induction false} SkippedRecordsCount(batch: seq<ClosureDict>, verdicts: seq<Verdict>)
    requires |verdicts| == |batch|
    ensures |SkippedRecords(batch, verdicts)| == |Positions(verdicts, IsSkipped)|
    ensures |SkippedRecords(batch, verdicts)| + multiset(verdicts)[Committed] == |batch|
    decreases |batch|
  {
    if batch != [] {
      var n := |batch| - 1;
      var prev := SkippedRecords(batch[..n], verdicts[..n]);
      SkippedRecordsCount(batch[..n], verdicts[..n]);
      assert verdicts == verdicts[..n] + [verdicts[n]];
      assert multiset(verdicts) == multiset(verdicts[..n]) + multiset{verdicts[n]};
      if verdicts[n].Skipped? {
        assert |SkippedRecords(batch, verdicts)| == |prev| + 1;
        assert |Positions(verdicts, IsSkipped)| == |Positions(verdicts[..n], IsSkipped)| + 1;
      } else {
        assert |SkippedRecords(batch, verdicts)| == |prev|;
        assert |Positions(verdicts, IsSkipped)| == |Positions(verdicts[..n], IsSkipped)|;
      }
    }
  }

  /** The k-th entry of `skipped_records`, for one k. */
  lemma {:induction false} SkippedEntry(batch: seq<ClosureDict>, verdicts: seq<Verdict>, k: nat)
    requires |verdicts| == |batch|
    requires k < |Positions(verdicts, IsSkipped)| && k < |SkippedRecords(batch, verdicts)|
    ensures var i := Positions(verdicts, IsSkipped)[k];
      SkippedRecords(batch, verdicts)[k] == SkippedRecord(WithDefaultResult(batch[i]), verdicts[i].error)
    decreases |batch|
  {
    assert batch != [];
    var n := |batch| - 1;
    var ps := Positions(verdicts[..n], IsSkipped);
    assert Positions(verdicts, IsSkipped) == ps + (if IsSkipped(verdicts[n]) then [n] else []);
    var prev := SkippedRecords(batch[..n], verdicts[..n]);
    var r := SkippedRecords(batch, verdicts);
    assert r == prev + (if verdicts[n].Skipped? then [SkippedRecord(WithDefaultResult(batch[n]), verdicts[n].error)] else []);
    if k < |ps| {
      SkippedRecordsCount(batch[..n], verdicts[..n]);
      SkippedEntry(batch[..n], verdicts[..n], k);
      var i := ps[k];
      assert r[k] == prev[k];
      assert batch[..n][i] == batch[i];
      assert verdicts[..n][i] == verdicts[i];
    } else {
      SkippedRecordsCount(batch[..n], verdicts[..n]);
      assert k == |ps| && Positions(verdicts, IsSkipped)[k] == n;
      assert r[k] == SkippedRecord(WithDefaultResult(batch[n]), verdicts[n].error);
    }
  }

  /** The k-th entry of `skipped_records` is the k-th skipped record, in
      input order, default result included, with the error that stopped
      it. */
  lemma SkippedRecordsExact(batch: seq<ClosureDict>, verdicts: seq<Verdict>)
    requires |verdicts| == |batch|
    ensures var r, ps := SkippedRecords(batch, verdicts), Positions(verdicts, IsSkipped);
      && |r| == |ps|
      && forall k :: 0 <= k < |r| ==> r[k] == SkippedRecord(WithDefaultResult(batch[ps[k]]), verdicts[ps[k]].error)
  {
    SkippedRecordsCount(batch, verdicts);
    var r, ps := SkippedRecords(batch, verdicts), Positions(verdicts, IsSkipped);
    forall k | 0 <= k < |r|
      ensures r[k] == SkippedRecord(WithDefaultResult(batch[ps[k]]), verdicts[ps[k]].error)
    {
      SkippedEntry(batch, verdicts, k);
    }
  }

  /** Nothing is deleted, and each record adds at most one event; a skipped
      one adds none. */
  lemma {:induction false} InsertAllCounts(rows: seq<ClosureRow>, bid: nat, batch: seq<ClosureDict>, accepts: ClosureRow -> bool)
    ensures var o := InsertAll(rows, bid, batch, accepts);
      |rows| <= |o.table| <= |rows| + |batch| - |SkippedRecords(batch, o.verdicts)|
    decreases |batch|
  {
    if batch != [] {
      var n := |batch| - 1;
      InsertAllCounts(rows, bid, batch[..n], accepts);
      var prev := InsertAll(rows, bid, batch[..n], accepts);
      var d := WithDefaultResult(batch[n]);
      var step := InsertStep(prev.table, bid, batch[n], accepts);
      var o := InsertAll(rows, bid, batch, accepts);
      assert o == BatchOutcome(step.0, prev.verdicts + [step.1]);
      assert o.verdicts[..n] == prev.verdicts;
      assert |SkippedRecords(batch, o.verdicts)| ==
        |SkippedRecords(batch[..n], prev.verdicts)| + (if step.1.Skipped? then 1 else 0);
      if step.1.Committed? {
        WriteStores(prev.table, Some(bid), StartKey, d);
      }
    }
  }

  /** No two records of `batch` that have both key fields share a key. */
  predicate DistinctKeys(batch: seq<ClosureDict>, key: DedupKey) {
    forall i, j :: 0 <= i < j < |batch| && HasKey(batch[i], key) && HasKey(batch[j], key) ==>
      KeyOf(batch[i], key) != KeyOf(batch[j], key)
  }

  /** A record whose step leaves the table as it is keeps doing so after a
      committed record with another key. */
  lemma InsertStepStable(rows: seq<ClosureRow>, bid: nat, d: ClosureDict, v: Verdict, e: ClosureDict, accepts: ClosureRow -> bool)
    requires InsertStep(rows, bid, d, accepts) == (rows, v)
    requires InsertStep(rows, bid, e, accepts).1.Committed?
    requires HasKey(d, StartKey) && HasKey(e, StartKey) ==> KeyOf(d, StartKey) != KeyOf(e, StartKey)
    ensures var rows' := InsertStep(rows, bid, e, accepts).0;
      InsertStep(rows', bid, d, accepts) == (rows', v)
  {
    DefaultKeepsKey(d);
    DefaultKeepsKey(e);
    var d', e' := WithDefaultResult(d), WithDefaultResult(e);
    WriteStores(rows, Some(bid), StartKey, e');
    WriteIndependent(rows, Some(bid), StartKey, d', e');
  }

  /** Once the loop has run, with keys distinct, each record's step leaves
      the final table as it is and gives the verdict it got. */
  lemma {:induction false} InsertAllSettles(rows: seq<ClosureRow>, bid: nat, batch: seq<ClosureDict>, accepts: ClosureRow -> bool)
    requires DistinctKeys(batch, StartKey)
    ensures var o := InsertAll(rows, bid, batch, accepts);
      forall i :: 0 <= i < |batch| ==> InsertStep(o.table, bid, batch[i], accepts) == (o.table, o.verdicts[i])
    decreases |batch|
  {
    if batch != [] {
      var n := |batch| - 1;
      var front := batch[..n];
      assert DistinctKeys(front, StartKey) by {
        forall i, j | 0 <= i < j < |front| ensures front[i] == batch[i] && front[j] == batch[j] { }
      }
      InsertAllSettles(rows, bid, front, accepts);
      var prev := InsertAll(rows, bid, front, accepts);
      var o := InsertAll(rows, bid, batch, accepts);
      var e := batch[n];
      var step := InsertStep(prev.table, bid, e, accepts);
      forall i | 0 <= i < |batch|
        ensures InsertStep(o.table, bid, batch[i], accepts) == (o.table, o.verdicts[i])
      {
        if i == n {
          if step.1.Committed? {
            WriteAbsorbs(prev.table, Some(bid), StartKey, WithDefaultResult(e));
          }
        } else {
          assert batch[i] == front[i];
          assert o.verdicts[i] == prev.verdicts[i];
          if step.1.Committed? {
            InsertStepStable(prev.table, bid, batch[i], prev.verdicts[i], e, accepts);
          }
        }
      }
    }
  }

  /** A table on which every record's step changes nothing is what the
      loop leaves, with those verdicts. */
  lemma {:induction false} SettledBatchIsFixed(t: seq<ClosureRow>, bid: nat, batch: seq<ClosureDict>, verdicts: seq<Verdict>, accepts: ClosureRow -> bool)
    requires |verdicts| == |batch|
    requires forall i :: 0 <= i < |batch| ==> InsertStep(t, bid, batch[i], accepts) == (t, verdicts[i])
    ensures InsertAll(t, bid, batch, accepts) == BatchOutcome(t, verdicts)
    decreases |batch|
  {
    if batch != [] {
      var n := |batch| - 1;
      SettledBatchIsFixed(t, bid, batch[..n], verdicts[..n], accepts);
      assert verdicts[..n] + [verdicts[n]] == verdicts;
    }
  }

  /** Idempotence: with distinct keys, inserting the same batch again into
      the resulting table changes nothing and skips the same records with
      the same errors. */
  lemma InsertAllIdempotent(rows: seq<ClosureRow>, bid: nat, batch: seq<ClosureDict>, accepts: ClosureRow -> bool)
    requires DistinctKeys(batch, StartKey)
    ensures var o := InsertAll(rows, bid, batch, accepts);
      InsertAll(o.table, bid, batch, accepts) == o
  {
    InsertAllSettles(rows, bid, batch, accepts);
    var o := InsertAll(rows, bid, batch, accepts);
    SettledBatchIsFixed(o.table, bid, batch, o.verdicts, accepts);
  }

  /** Two records with one key: the first gives a water level, the second
      a type. */
  function RepeatedKeyBatch(): seq<ClosureDict> {
    var key := map[StartDate := Str("2020-01-01"), StartTime := Str("08:00:00")];
    [key[WaterLevel := Num(3.0)], key[ClosureEventType := Str("STORM")]]
  }

  /** A database that refuses an event without a type. */
  predicate TypedOnly(row: ClosureRow) {
    ClosureEventType in row.attrs
  }

  /** The event the second record of `RepeatedKeyBatch` creates. */
  function TypedEvent(): ClosureRow {
    ClosureRow(Some(1), WithDefaultResult(RepeatedKeyBatch()[1]))
  }

  /** On the empty table the first record is refused as a new event and
      the second is stored. */
  lemma RepeatedKeyFirstRun()
    ensures InsertAll([], 1, RepeatedKeyBatch(), TypedOnly) == BatchOutcome([TypedEvent()], [Skipped(Rejected), Committed])
  {
    var batch := RepeatedKeyBatch();
    var e1, e2 := WithDefaultResult(batch[0]), WithDefaultResult(batch[1]);
    assert e1.Keys == {StartDate, StartTime, WaterLevel, ClosureEventResult};
    assert e2.Keys == {StartDate, StartTime, ClosureEventType, ClosureEventResult};
    assert OnlyClosureColumns(e1) && OnlyClosureColumns(e2);
    var empty: seq<ClosureRow> := [];
    assert empty + [ClosureRow(Some(1), e1)] == [ClosureRow(Some(1), e1)];
    assert empty + [TypedEvent()] == [TypedEvent()];
    assert InsertStep(empty, 1, batch[0], TypedOnly) == (empty, Skipped(Rejected));
    assert batch[..1] == [batch[0]];
    assert InsertAll(empty, 1, batch[..1], TypedOnly) == BatchOutcome(empty, [Skipped(Rejected)]);
    assert InsertStep(empty, 1, batch[1], TypedOnly) == ([TypedEvent()], Committed);
  }

  /** On the table the first run leaves, the first record now finds the
      typed event and adds its water level to it. */
  lemma RepeatedKeySecondRun()
    ensures WaterLevel in InsertAll([TypedEvent()], 1, RepeatedKeyBatch(), TypedOnly).table[0].attrs
  {
    var batch := RepeatedKeyBatch();
    var t := [TypedEvent()];
    var e1, e2 := WithDefaultResult(batch[0]), WithDefaultResult(batch[1]);
    assert KeyOf(e1, StartKey) == KeyOf(e2, StartKey);
    assert FindClosure(t, Some(1), StartKey, KeyOf(e1, StartKey)) == Some(0);
    var merged := t[0 := ClosureRow(Some(1), e2 + ClosureColumns(e1))];
    assert WaterLevel in merged[0].attrs && TypedOnly(merged[0]);
    assert InsertStep(t, 1, batch[0], TypedOnly) == (merged, Committed);
    assert batch[..1] == [batch[0]];
    assert InsertAll(t, 1, batch[..1], TypedOnly).table == merged;
    assert FindClosure(merged, Some(1), StartKey, KeyOf(e2, StartKey)) == Some(0);
    assert InsertAll(t, 1, batch, TypedOnly) == BatchOutcome(InsertStep(merged, 1, batch[1], TypedOnly).0,
      InsertAll(t, 1, batch[..1], TypedOnly).verdicts + [InsertStep(merged, 1, batch[1], TypedOnly).1]);
  }

  /** Without distinct keys a batch need not be idempotent: a record the
      database refuses as a new event (here, for lacking a type) is merged
      on the second run into the event a later record with its key
      created, and the table changes. */
  lemma InsertAllRepeatedKeyNotIdempotent()
    ensures var o := InsertAll([], 1, RepeatedKeyBatch(), TypedOnly);
      && !DistinctKeys(RepeatedKeyBatch(), StartKey)
      && o.verdicts == [Skipped(Rejected), Committed]
      && InsertAll(o.table, 1, RepeatedKeyBatch(), TypedOnly).table != o.table
  {
    var batch := RepeatedKeyBatch();
    assert HasKey(batch[0], StartKey) && HasKey(batch[1], StartKey);
    assert KeyOf(batch[0], StartKey) == KeyOf(batch[1], StartKey);
    RepeatedKeyFirstRun();
    RepeatedKeySecondRun();
    assert WaterLevel !in TypedEvent().attrs;
  }

  /** The barrier of `insert_closure_events`: `.scalar()` on its ID, and
      the ValueError when that is None or 0. */
  function BatchBarrier(bs: seq<BarrierRow>, abbr: string): (r: Result<nat, HandlerError>)
    ensures r.Ok? ==> CountBarriers(bs, Str(abbr)) == 1 && r.value == bs[FindBarrier(bs, Str(abbr)).value].id && r.value != 0
    ensures r == Err(NoBarrier(abbr)) <==>
      CountBarriers(bs, Str(abbr)) == 0 || (CountBarriers(bs, Str(abbr)) == 1 && bs[FindBarrier(bs, Str(abbr)).value].id == 0)
    ensures r == Err(MultipleBarriers(abbr)) <==> CountBarriers(bs, Str(abbr)) > 1
  {
    match ScalarBarrierId(bs, abbr)
    case Err(e) => Err(e)
    case Ok(None) => Err(NoBarrier(abbr))
    case Ok(Some(id)) => if id == 0 then Err(NoBarrier(abbr)) else Ok(id)
  }

  /** `insert_closure_events`: resolve the barrier, failing before any
      record is read if there is none; then insert or update record by
      record, committing each, and return the skipped records. */
  method InsertClosureEvents(db: Database, abbreviation: string, closureData: seq<ClosureDict>) returns (r: Result<seq<SkippedRecord>, HandlerError>)
    modifies db
    ensures db.barriers == old(db.barriers) && db.nextBarrierId == old(db.nextBarrierId)
    ensures BatchBarrier(old(db.barriers), abbreviation).Err? ==>
      r == Err(BatchBarrier(old(db.barriers), abbreviation).error) && db.closures == old(db.closures)
    ensures BatchBarrier(old(db.barriers), abbreviation).Ok? ==>
      var o := InsertAll(old(db.closures), BatchBarrier(old(db.barriers), abbreviation).value, closureData, db.acceptsClosure);
      db.closures == o.table && r == Ok(SkippedRecords(closureData, o.verdicts))
  {
    var barrier := BatchBarrier(db.barriers, abbreviation);
    if barrier.Err? {
      return Err(barrier.error);
    }
    var bid := barrier.value;
    var skippedRecords := [];
    var i := 0;
    while i < |closureData|
      invariant i <= |closureData|
      invariant db.barriers == old(db.barriers) && db.nextBarrierId == old(db.nextBarrierId)
      invariant db.closures == InsertAll(old(db.closures), bid, closureData[..i], db.acceptsClosure).table
      invariant skippedRecords == SkippedRecords(closureData[..i], InsertAll(old(db.closures), bid, closureData[..i], db.acceptsClosure).verdicts)
    {
      assert closureData[..i + 1][..i] == closureData[..i];
      var closure := WithDefaultResult(closureData[i]);
      var written := Write(db.closures, Some(bid), StartKey, closure);
      if written.Ok? && db.acceptsClosure(written.value.table[written.value.at]) {
        db.closures := written.value.table;
      } else {
        var error := if written.Err? then written.error else Rejected;
        skippedRecords := skippedRecords + [SkippedRecord(closure, error)];
      }
      i := i + 1;
    }
    assert closureData[..i] == closureData;
    r := Ok(skippedRecords);
  }

  // ---------------------------------------------------------------- single record

  /** The three answers of `insert_single_closure_event`: 404, 409, 201. */
  datatype SingleOutcome = NotFound | Duplicate | Created(event: ClosureRow)

  function StatusCode(o: SingleOutcome): (code: int)
    ensures code == 404 <==> o.NotFound?
    ensures code == 409 <==> o.Duplicate?
    ensures code == 201 <==> o.Created?
  {
    match o
    case NotFound => 404
    case Duplicate => 409
    case Created(_) => 201
  }

  /** `insert_single_closure_event`: the barrier by `.first()`; the
      duplicate check on (StartDate, EndDate, BarrierID); the ORM
      constructor; the commit. Raised errors are `Err`. */
  function SingleInsert(bs: seq<BarrierRow>, rows: seq<ClosureRow>, abbr: string, event: ClosureDict, accepts: ClosureRow -> bool): (r: Result<(seq<ClosureRow>, SingleOutcome), HandlerError>)
    ensures r == Ok((rows, NotFound)) <==> FirstBarrierId(bs, abbr).None?
    ensures r.Ok? && r.value.1.Duplicate? ==> r.value.0 == rows
    ensures r.Ok? && r.value.1.Created? ==> r.value.0 == rows + [r.value.1.event]
    ensures FirstBarrierId(bs, abbr).Some? && StartDate !in event ==> r == Err(KeyError("StartDate"))
    ensures FirstBarrierId(bs, abbr).Some? && StartDate in event && EndDate !in event ==> r == Err(KeyError("EndDate"))
    ensures FirstBarrierId(bs, abbr).Some? && HasKey(event, PeriodKey) ==>
      var row := ClosureRow(FirstBarrierId(bs, abbr), event);
      var isNew := FindClosure(rows, FirstBarrierId(bs, abbr), PeriodKey, KeyOf(event, PeriodKey)).None?;
      && (r == Ok((rows, Duplicate)) <==> !isNew)
      && (r == Err(InvalidKeyword) <==> isNew && !OnlyClosureColumns(event))
      && (r == Err(Rejected) <==> isNew && OnlyClosureColumns(event) && !accepts(row))
      && (r == Ok((rows + [row], Created(row))) <==> isNew && OnlyClosureColumns(event) && accepts(row))
  {
    match FirstBarrierId(bs, abbr)
    case None => Ok((rows, NotFound))
    case Some(id) =>
      if StartDate !in event then Err(KeyError("StartDate"))
      else if EndDate !in event then Err(KeyError("EndDate"))
      else if FindClosure(rows, Some(id), PeriodKey, KeyOf(event, PeriodKey)).Some? then Ok((rows, Duplicate))
      else if !OnlyClosureColumns(event) then Err(InvalidKeyword)
      else if !accepts(ClosureRow(Some(id), event)) then Err(Rejected)
      else Ok((rows + [ClosureRow(Some(id), event)], Created(ClosureRow(Some(id), event))))
  }

  /** 409 exactly when an event with the record's start date, end date and
      barrier is stored; 201 exactly when none is, every key names a column
      and the database accepts the event; 201 inserts exactly that record
      for the barrier, after which the same request answers 409. */
  lemma SingleInsertOutcomes(bs: seq<BarrierRow>, rows: seq<ClosureRow>, abbr: string, event: ClosureDict, accepts: ClosureRow -> bool)
    requires FirstBarrierId(bs, abbr).Some? && HasKey(event, PeriodKey)
    ensures var id := FirstBarrierId(bs, abbr).value;
      var r := SingleInsert(bs, rows, abbr, event, accepts);
      && ((r.Ok? && r.value.1.Duplicate?) <==>
            exists i :: 0 <= i < |rows| && Matches(rows[i], Some(id), PeriodKey, KeyOf(event, PeriodKey)))
      && ((r.Ok? && r.value.1.Created?) <==>
            && (forall i :: 0 <= i < |rows| ==> !Matches(rows[i], Some(id), PeriodKey, KeyOf(event, PeriodKey)))
            && OnlyClosureColumns(event)
            && accepts(ClosureRow(Some(id), event)))
      && (r.Ok? && r.value.1.Created? ==>
            && r.value.1.event == ClosureRow(Some(id), event)
            && SingleInsert(bs, r.value.0, abbr, event, accepts) == Ok((r.value.0, Duplicate)))
  {
    var id := FirstBarrierId(bs, abbr).value;
    var kv := KeyOf(event, PeriodKey);
    var r := SingleInsert(bs, rows, abbr, event, accepts);
    if r.Ok? && r.value.1.Created? {
      var t := r.value.0;
      assert Matches(t[|rows|], Some(id), PeriodKey, kv);
    }
  }

  /** A record that carries a `BarrierID` key of its own, as the closure
      dict of the HTTP route does, cannot be built next to the
      `BarrierID=` keyword: a new period raises TypeError whatever the
      database would accept. */
  lemma BarrierIdKeyRaises(bs: seq<BarrierRow>, rows: seq<ClosureRow>, abbr: string, event: ClosureDict, accepts: ClosureRow -> bool)
    requires FirstBarrierId(bs, abbr).Some? && HasKey(event, PeriodKey) && Extra("BarrierID") in event
    requires FindClosure(rows, FirstBarrierId(bs, abbr), PeriodKey, KeyOf(event, PeriodKey)).None?
    ensures SingleInsert(bs, rows, abbr, event, accepts) == Err(InvalidKeyword)
  {
  }

  /** `insert_single_closure_event` against the database. */
  method InsertSingleClosureEvent(db: Database, abbreviation: string, event: ClosureDict) returns (r: Result<SingleOutcome, HandlerError>)
    modifies db
    ensures db.barriers == old(db.barriers) && db.nextBarrierId == old(db.nextBarrierId)
    ensures var s := SingleInsert(old(db.barriers), old(db.closures), abbreviation, event, db.acceptsClosure);
      && (s.Ok? ==> r == Ok(s.value.1) && db.closures == s.value.0)
      && (s.Err? ==> r == Err(s.error) && db.closures == old(db.closures))
  {
    var s := SingleInsert(db.barriers, db.closures, abbreviation, event, db.acceptsClosure);
    if s.Err? {
      return Err(s.error);
    }
    db.closures := s.value.0;
    r := Ok(s.value.1);
  }
}
