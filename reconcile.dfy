/** The lookup-then-write step both closure handlers are built on: find the
    stored event with the incoming record's dedup key and barrier; overwrite
    its columns with the record's if there is one, else add one event built
    from the record. */
module Reconcile {
  import opened Common
  import opened Store

  /** The two columns that, with the barrier, identify a closure event. */
  datatype DedupKey = DedupKey(first: ClosureField, second: ClosureField)

  /** (StartDate, StartTime): the key of `insert_closure_events`. */
  const StartKey := DedupKey(StartDate, StartTime)

  /** (StartDate, EndDate): the key of `upsert_closure_data_list` and of
      both single-record inserts. */
  const PeriodKey := DedupKey(StartDate, EndDate)

  /** Whether the record has both key fields, so that reading them raises
      no KeyError. */
  predicate HasKey(d: ClosureDict, key: DedupKey) {
    key.first in d && key.second in d
  }

  /** The key values of a record or a stored row. */
  function KeyOf(d: ClosureDict, key: DedupKey): (Value, Value) {
    (Get(d, key.first), Get(d, key.second))
  }

  /** The `filter_by(<key columns>=..., BarrierID=bid)` condition. A None
      value matches NULL, as `filter_by` turns `== None` into `IS NULL`. */
  predicate Matches(row: ClosureRow, bid: Option<nat>, key: DedupKey, kv: (Value, Value)): (b: bool)
    ensures b && kv.0 != Null ==> key.first in row.attrs && row.attrs[key.first] == kv.0
    ensures b && kv.1 != Null ==> key.second in row.attrs && row.attrs[key.second] == kv.1
  {
    row.barrierId == bid && KeyOf(row.attrs, key) == kv
  }

  /** The `.first()` of that query: the first matching event in store order. */
  function FindClosure(rows: seq<ClosureRow>, bid: Option<nat>, key: DedupKey, kv: (Value, Value)): (r: Option<nat>)
    ensures r.Some? ==> r.value < |rows| && Matches(rows[r.value], bid, key, kv)
    ensures r.Some? ==> forall i :: 0 <= i < r.value ==> !Matches(rows[i], bid, key, kv)
    ensures r.None? ==> forall i :: 0 <= i < |rows| ==> !Matches(rows[i], bid, key, kv)
  {
    if rows == [] then None
    else if Matches(rows[0], bid, key, kv) then Some(0)
    else match FindClosure(rows[1..], bid, key, kv)
      case None => None
      case Some(k) => Some(k + 1)
  }

  /** Two tables on which the same positions match find the same event. */
  lemma FindClosureAgrees(rows: seq<ClosureRow>, rows': seq<ClosureRow>, bid: Option<nat>, key: DedupKey, kv: (Value, Value))
    requires |rows| <= |rows'|
    requires forall i :: 0 <= i < |rows| ==> (Matches(rows'[i], bid, key, kv) <==> Matches(rows[i], bid, key, kv))
    requires forall i :: |rows| <= i < |rows'| ==> !Matches(rows'[i], bid, key, kv)
    ensures FindClosure(rows', bid, key, kv) == FindClosure(rows, bid, key, kv)
  {
  }

  /** The entries of a record that `setattr` persists: those naming a column. */
  function ClosureColumns(d: ClosureDict): ClosureDict {
    map k | k in d && !k.Extra? :: d[k]
  }

  /** Whether the ORM constructor accepts every key of the record. */
  predicate OnlyClosureColumns(d: ClosureDict) {
    forall k :: k in d ==> !k.Extra?
  }

  /** The dict key a KeyError names. */
  function FieldName(f: ClosureField): string {
    match f
    case StartDate => "StartDate"
    case EndDate => "EndDate"
    case StartTime => "StartTime"
    case EndTime => "EndTime"
    case WaterLevel => "WaterLevel"
    case ClosureEventType => "ClosureEventType"
    case ClosureEventResult => "ClosureEventResult"
    case Extra(k) => k
  }

  /** The table after a write and the position of the event written. */
  datatype Written = Written(table: seq<ClosureRow>, at: nat)

  /** Reading the key fields (KeyError for the first one missing), then the
      lookup, then either the `setattr` loop over the record on the match
      or the ORM constructor, which raises TypeError on a key naming no
      column. */
  function Write(rows: seq<ClosureRow>, bid: Option<nat>, key: DedupKey, d: ClosureDict): (r: Result<Written, HandlerError>)
    ensures !HasKey(d, key) ==> r.Err? && r.error.KeyError?
    ensures r.Ok? ==> r.value.at < |r.value.table|
  {
    if key.first !in d then Err(KeyError(FieldName(key.first)))
    else if key.second !in d then Err(KeyError(FieldName(key.second)))
    else match FindClosure(rows, bid, key, KeyOf(d, key))
      case Some(k) => Ok(Written(rows[k := ClosureRow(rows[k].barrierId, rows[k].attrs + ClosureColumns(d))], k))
      case None =>
        if OnlyClosureColumns(d) then Ok(Written(rows + [ClosureRow(bid, d)], |rows|))
        else Err(InvalidKeyword)
  }

  /** A write keys the record's event under its key: on a match the matched
      event gets every column the record names, keeps every other column
      and its barrier, with nothing inserted; with no match exactly one event, carrying the
      barrier `bid` and the record's values, is appended. No other event
      changes, and the written event is the one the key now finds. */
  lemma WriteStores(rows: seq<ClosureRow>, bid: Option<nat>, key: DedupKey, d: ClosureDict)
    requires Write(rows, bid, key, d).Ok?
    ensures var w := Write(rows, bid, key, d).value;
      && HasKey(d, key)
      && w.at < |w.table|
      && (forall f :: f in d && !f.Extra? ==> Get(w.table[w.at].attrs, f) == d[f])
      && (forall i :: 0 <= i < |rows| && i != w.at ==> w.table[i] == rows[i])
      && (FindClosure(rows, bid, key, KeyOf(d, key)).Some? ==>
            && |w.table| == |rows|
            && w.at == FindClosure(rows, bid, key, KeyOf(d, key)).value
            && forall f :: f !in d || f.Extra? ==> Get(w.table[w.at].attrs, f) == Get(rows[w.at].attrs, f))
      && (FindClosure(rows, bid, key, KeyOf(d, key)).None? ==> w.table == rows + [ClosureRow(bid, d)])
      && w.table[w.at].barrierId == bid
      && FindClosure(w.table, bid, key, KeyOf(d, key)) == Some(w.at)
  {
    var w := Write(rows, bid, key, d).value;
    var kv := KeyOf(d, key);
    assert KeyOf(w.table[w.at].attrs, key) == kv;
    assert forall i :: 0 <= i < w.at ==> w.table[i] == rows[i];
    assert FindClosure(w.table, bid, key, kv) == Some(w.at);
  }

  /** Writing a record into the table it has just been written to changes
      nothing and lands on the same event. */
  lemma WriteAbsorbs(rows: seq<ClosureRow>, bid: Option<nat>, key: DedupKey, d: ClosureDict)
    requires Write(rows, bid, key, d).Ok?
    ensures var w := Write(rows, bid, key, d).value;
      Write(w.table, bid, key, d) == Ok(Written(w.table, w.at))
  {
    var w := Write(rows, bid, key, d).value;
    WriteStores(rows, bid, key, d);
    var row := w.table[w.at];
    if FindClosure(rows, bid, key, KeyOf(d, key)).None? {
      assert row.attrs == d;
    }
    assert row.attrs + ClosureColumns(d) == row.attrs;
    assert w.table[w.at := ClosureRow(row.barrierId, row.attrs + ClosureColumns(d))] == w.table;
  }

  /** A write under another key leaves the outcome of writing `d` as it
      was: the same error, or the same event written, and a write that
      changed nothing still changes nothing. */
  lemma WriteIndependent(rows: seq<ClosureRow>, bid: Option<nat>, key: DedupKey, d: ClosureDict, e: ClosureDict)
    requires Write(rows, bid, key, e).Ok?
    requires HasKey(d, key) ==> KeyOf(d, key) != KeyOf(e, key)
    ensures var rows' := Write(rows, bid, key, e).value.table;
      && (Write(rows, bid, key, d).Err? ==> Write(rows', bid, key, d) == Write(rows, bid, key, d))
      && (Write(rows, bid, key, d).Ok? ==>
            && Write(rows', bid, key, d).Ok?
            && var w, w' := Write(rows, bid, key, d).value, Write(rows', bid, key, d).value;
               && w'.table[w'.at] == w.table[w.at]
               && (w.table == rows ==> w'.table == rows'))
  {
    var we := Write(rows, bid, key, e).value;
    var rows' := we.table;
    WriteStores(rows, bid, key, e);
    if HasKey(d, key) {
      var kv := KeyOf(d, key);
      assert KeyOf(rows'[we.at].attrs, key) == KeyOf(e, key);
      if we.at < |rows| {
        assert Matches(rows[we.at], bid, key, KeyOf(e, key));
      }
      FindClosureAgrees(rows, rows', bid, key, kv);
      match FindClosure(rows, bid, key, kv)
      case Some(k) =>
        assert rows'[k] == rows[k];
        var w := Write(rows, bid, key, d).value;
        if w.table == rows {
          assert w.table[k] == rows[k];
        }
      case None =>
    }
  }
}
