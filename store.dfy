/** The database both handlers work on: the `StormSurgeBarriers` and
    `StormSurgeBarrierClosureEvents` tables, seen as sequences of rows in
    store order, with the lookups the handlers run against them and
    `upsert_barrier` / `get_all_abbreviations`, which both handler files
    define identically. */
module Store {
  import opened Common

  /** A value held in an incoming dict or a column: NULL (Python `None`),
      text, a number or a boolean. Dates and times are held as their text. */
  datatype Value = Null | Str(s: string) | Num(x: real) | Flag(b: bool)

  /** Keys of a barrier dict: the columns of `StormSurgeBarriers` other than
      the generated `ID`, and `OtherKey` for any key that names no column. */
  datatype BarrierField =
    | Name | Abbreviation | Location | ConstructionYear | GateConfiguration | GateType
    | OtherKey(key: string)

  type BarrierDict = map<BarrierField, Value>

  /** A stored barrier: its generated `ID` and its column values. */
  datatype BarrierRow = BarrierRow(id: nat, attrs: BarrierDict)

  /** Keys of a closure dict: the columns of `StormSurgeBarrierClosureEvents`
      other than `ID` and `BarrierID`, and `Extra` for any key that names no
      column. */
  datatype ClosureField =
    | StartDate | EndDate | StartTime | EndTime | WaterLevel | ClosureEventType | ClosureEventResult
    | Extra(key: string)

  type ClosureDict = map<ClosureField, Value>

  /** A stored closure event: the barrier it belongs to (NULL allowed) and
      its column values. */
  datatype ClosureRow = ClosureRow(barrierId: Option<nat>, attrs: ClosureDict)

  /** The exceptions the handlers raise or catch. `Rejected` is the
      database refusing a row at commit (a NOT NULL column left empty, a
      value its column type or enum does not admit). */
  datatype HandlerError =
    | KeyError(key: string)
    | InvalidKeyword
    | Rejected
    | NoBarrier(abbreviation: string)
    | MultipleBarriers(abbreviation: string)

  /** A column as SQL sees it: an attribute never set is NULL. */
  function Get<K>(d: map<K, Value>, k: K): Value {
    if k in d then d[k] else Null
  }

  /** The entries of a barrier dict that `setattr` persists: those naming a
      column. */
  function BarrierColumns(d: BarrierDict): BarrierDict {
    map k | k in d && !k.OtherKey? :: d[k]
  }

  /** Whether the ORM constructor accepts every key of `d` as a keyword. */
  predicate OnlyBarrierColumns(d: BarrierDict) {
    forall k :: k in d ==> !k.OtherKey?
  }

  // ---------------------------------------------------------------- lookups

  /** `query(StormSurgeBarriers).filter_by(Abbreviation=v).first()`: the
      position of the first barrier, in store order, whose abbreviation is
      `v`. */
  function FindBarrier(bs: seq<BarrierRow>, v: Value): (r: Option<nat>)
    ensures r.Some? ==> r.value < |bs| && Get(bs[r.value].attrs, Abbreviation) == v
    ensures r.Some? ==> forall i :: 0 <= i < r.value ==> Get(bs[i].attrs, Abbreviation) != v
    ensures r.None? ==> forall i :: 0 <= i < |bs| ==> Get(bs[i].attrs, Abbreviation) != v
  {
    if bs == [] then None
    else if Get(bs[0].attrs, Abbreviation) == v then Some(0)
    else match FindBarrier(bs[1..], v)
      case None => None
      case Some(k) => Some(k + 1)
  }

  /** How many barriers carry the abbreviation `v`. */
  function CountBarriers(bs: seq<BarrierRow>, v: Value): (n: nat)
    ensures n <= |bs|
    ensures n == 0 <==> FindBarrier(bs, v).None?
  {
    if bs == [] then 0
    else (if Get(bs[0].attrs, Abbreviation) == v then 1 else 0) + CountBarriers(bs[1..], v)
  }

  /** `query(StormSurgeBarriers.ID).filter_by(Abbreviation=abbr).scalar()`:
      no row gives None, one row gives its ID, several rows raise. */
  function ScalarBarrierId(bs: seq<BarrierRow>, abbr: string): (r: Result<Option<nat>, HandlerError>)
    ensures r == Ok(None) <==> CountBarriers(bs, Str(abbr)) == 0
    ensures r.Ok? && r.value.Some? <==> CountBarriers(bs, Str(abbr)) == 1
    ensures r.Ok? && r.value.Some? ==> r.value.value == bs[FindBarrier(bs, Str(abbr)).value].id
    ensures r.Err? ==> r.error == MultipleBarriers(abbr)
  {
    var n := CountBarriers(bs, Str(abbr));
    if n == 0 then Ok(None)
    else if n == 1 then Ok(Some(bs[FindBarrier(bs, Str(abbr)).value].id))
    else Err(MultipleBarriers(abbr))
  }

  /** `query(StormSurgeBarriers.ID).filter_by(Abbreviation=abbr).first()`:
      the ID of the first matching barrier, None when there is none. */
  function FirstBarrierId(bs: seq<BarrierRow>, abbr: string): (r: Option<nat>)
    ensures r.Some? <==> exists i :: 0 <= i < |bs| && Get(bs[i].attrs, Abbreviation) == Str(abbr)
  {
    match FindBarrier(bs, Str(abbr))
    case None => None
    case Some(k) => Some(bs[k].id)
  }

  // ---------------------------------------------------------------- abbreviations

  /** `get_all_abbreviations`: the abbreviation column, one entry per
      barrier, in store order. */
  function Abbreviations(bs: seq<BarrierRow>): (r: seq<Value>)
    ensures |r| == |bs|
    ensures forall i :: 0 <= i < |bs| ==> r[i] == Get(bs[i].attrs, Abbreviation)
  {
    seq(|bs|, i requires 0 <= i < |bs| => Get(bs[i].attrs, Abbreviation))
  }

  /** No abbreviation appears twice. */
  predicate Distinct(vs: seq<Value>) {
    forall i, j :: 0 <= i < j < |vs| ==> vs[i] != vs[j]
  }

  /** When abbreviations are unique, the first match is the only one: the
      `.first()` and `.scalar()` lookups agree. */
  lemma {:induction false} UniqueAbbreviationIsScalar(bs: seq<BarrierRow>, abbr: string)
    requires Distinct(Abbreviations(bs))
    ensures ScalarBarrierId(bs, abbr) == Ok(FirstBarrierId(bs, abbr))
  {
    CountAtMostOne(bs, Str(abbr));
  }

  lemma {:induction false} CountAtMostOne(bs: seq<BarrierRow>, v: Value)
    requires Distinct(Abbreviations(bs))
    ensures CountBarriers(bs, v) <= 1
  {
    if bs != [] {
      assert Abbreviations(bs[1..]) == Abbreviations(bs)[1..];
      CountAtMostOne(bs[1..], v);
      if Get(bs[0].attrs, Abbreviation) == v {
        forall i | 0 <= i < |bs| - 1
          ensures Get(bs[1..][i].attrs, Abbreviation) != v
        {
          assert Abbreviations(bs)[0] != Abbreviations(bs)[i + 1];
        }
      }
    }
  }

  // ---------------------------------------------------------------- upsert_barrier

  /** `upsert_barrier`: the barrier with the dict's abbreviation, if any, has
      every column the dict names overwritten (keys naming no column are set
      on the object but never stored); otherwise a new barrier with ID
      `nextId` is built from the dict, which fails if a key names no column.
      The commit then fails if the database rejects the written row. */
  function UpsertedBarriers(bs: seq<BarrierRow>, nextId: nat, d: BarrierDict, accepts: BarrierRow -> bool): (r: Result<seq<BarrierRow>, HandlerError>)
    ensures Abbreviation !in d ==> r == Err(KeyError("Abbreviation"))
    ensures r.Err? ==> r.error in {KeyError("Abbreviation"), InvalidKeyword, Rejected}
  {
    if Abbreviation !in d then Err(KeyError("Abbreviation"))
    else match FindBarrier(bs, d[Abbreviation])
      case Some(k) =>
        var row := BarrierRow(bs[k].id, bs[k].attrs + BarrierColumns(d));
        if accepts(row) then Ok(bs[k := row]) else Err(Rejected)
      case None =>
        if !OnlyBarrierColumns(d) then Err(InvalidKeyword)
        else if accepts(BarrierRow(nextId, d)) then Ok(bs + [BarrierRow(nextId, d)])
        else Err(Rejected)
  }

  /** After an upsert, the dict's abbreviation finds a barrier holding every
      column value the dict gave, and every other barrier is as it was. On
      a match the barrier keeps its ID and every column the dict does not
      name; otherwise exactly the new barrier is added, at the end. */
  lemma UpsertBarrierStores(bs: seq<BarrierRow>, nextId: nat, d: BarrierDict, accepts: BarrierRow -> bool)
    requires UpsertedBarriers(bs, nextId, d, accepts).Ok?
    ensures var r := UpsertedBarriers(bs, nextId, d, accepts).value;
      && |bs| <= |r| <= |bs| + 1
      && FindBarrier(r, d[Abbreviation]).Some?
      && var k := FindBarrier(r, d[Abbreviation]).value;
         && accepts(r[k])
         && (forall f :: f in d && !f.OtherKey? ==> Get(r[k].attrs, f) == d[f])
         && (forall i :: 0 <= i < |bs| && i != k ==> r[i] == bs[i])
         && (FindBarrier(bs, d[Abbreviation]).Some? ==>
               && |r| == |bs|
               && k == FindBarrier(bs, d[Abbreviation]).value
               && r[k].id == bs[k].id
               && forall f :: f !in d || f.OtherKey? ==> Get(r[k].attrs, f) == Get(bs[k].attrs, f))
         && (FindBarrier(bs, d[Abbreviation]).None? ==> r == bs + [BarrierRow(nextId, d)])
  {
    var r := UpsertedBarriers(bs, nextId, d, accepts).value;
    var v := d[Abbreviation];
    match FindBarrier(bs, v)
    case Some(k) =>
      assert Get(r[k].attrs, Abbreviation) == v;
      assert forall i :: 0 <= i < k ==> r[i] == bs[i];
      assert FindBarrier(r, v) == Some(k);
    case None =>
      assert forall i :: 0 <= i < |bs| ==> r[i] == bs[i];
      assert Get(r[|bs|].attrs, Abbreviation) == v;
      assert FindBarrier(r, v) == Some(|bs|);
  }

  /** The abbreviation list after an upsert is the old one, or the old one
      with the new barrier's abbreviation appended; unique abbreviations
      stay unique. */
  lemma UpsertBarrierKeepsAbbreviationsUnique(bs: seq<BarrierRow>, nextId: nat, d: BarrierDict, accepts: BarrierRow -> bool)
    requires UpsertedBarriers(bs, nextId, d, accepts).Ok?
    ensures var r := UpsertedBarriers(bs, nextId, d, accepts).value;
      || (FindBarrier(bs, d[Abbreviation]).Some? && Abbreviations(r) == Abbreviations(bs))
      || (FindBarrier(bs, d[Abbreviation]).None? && Abbreviations(r) == Abbreviations(bs) + [d[Abbreviation]])
    ensures Distinct(Abbreviations(bs)) ==> Distinct(Abbreviations(UpsertedBarriers(bs, nextId, d, accepts).value))
  {
    var r := UpsertedBarriers(bs, nextId, d, accepts).value;
    var v := d[Abbreviation];
    match FindBarrier(bs, v)
    case Some(k) =>
      assert Get(r[k].attrs, Abbreviation) == v;
      assert Abbreviations(r) == Abbreviations(bs);
    case None =>
      assert Abbreviations(r) == Abbreviations(bs) + [v];
  }

  /** Upserting the same dict again changes nothing. */
  lemma UpsertBarrierIdempotent(bs: seq<BarrierRow>, nextId: nat, nextId': nat, d: BarrierDict, accepts: BarrierRow -> bool)
    requires UpsertedBarriers(bs, nextId, d, accepts).Ok?
    ensures var r := UpsertedBarriers(bs, nextId, d, accepts).value;
      UpsertedBarriers(r, nextId', d, accepts) == Ok(r)
  {
    var r := UpsertedBarriers(bs, nextId, d, accepts).value;
    UpsertBarrierStores(bs, nextId, d, accepts);
    var k := FindBarrier(r, d[Abbreviation]).value;
    var row := BarrierRow(r[k].id, r[k].attrs + BarrierColumns(d));
    assert r[k].attrs + BarrierColumns(d) == r[k].attrs;
    assert r[k := row] == r;
  }

  // ---------------------------------------------------------------- the database

  /** The database, with the constraints its schema enforces on a row at
      commit. */
  class Database {
    var barriers: seq<BarrierRow>
    var closures: seq<ClosureRow>
    var nextBarrierId: nat
    const acceptsBarrier: BarrierRow -> bool
    const acceptsClosure: ClosureRow -> bool

    constructor (acceptsBarrier: BarrierRow -> bool, acceptsClosure: ClosureRow -> bool)
      ensures barriers == [] && closures == [] && nextBarrierId == 1
      ensures this.acceptsBarrier == acceptsBarrier && this.acceptsClosure == acceptsClosure
    {
      barriers := [];
      closures := [];
      nextBarrierId := 1;
      this.acceptsBarrier := acceptsBarrier;
      this.acceptsClosure := acceptsClosure;
    }

    /** `get_all_abbreviations`. */
    function AllAbbreviations(): (r: seq<Value>)
      reads this
      ensures |r| == |barriers|
      ensures forall i :: 0 <= i < |barriers| ==> r[i] == Get(barriers[i].attrs, Abbreviation)
    {
      Abbreviations(barriers)
    }

    /** `upsert_barrier`: on success the barrier table is the upserted one
      and a newly inserted barrier used up one ID; on failure (the raised
      KeyError or TypeError, or a rejected commit) nothing is stored. */
    method UpsertBarrier(d: BarrierDict) returns (r: Result<(), HandlerError>)
      modifies this
      ensures closures == old(closures)
      ensures r.Ok? <==> UpsertedBarriers(old(barriers), old(nextBarrierId), d, acceptsBarrier).Ok?
      ensures r.Ok? ==> barriers == UpsertedBarriers(old(barriers), old(nextBarrierId), d, acceptsBarrier).value
      ensures r.Ok? ==> nextBarrierId == old(nextBarrierId) + |barriers| - |old(barriers)|
      ensures r.Err? ==> r.error == UpsertedBarriers(old(barriers), old(nextBarrierId), d, acceptsBarrier).error
      ensures r.Err? ==> barriers == old(barriers) && nextBarrierId == old(nextBarrierId)
    {
      var outcome := UpsertedBarriers(barriers, nextBarrierId, d, acceptsBarrier);
      if outcome.Err? {
        return Err(outcome.error);
      }
      if |outcome.value| > |barriers| {
        nextBarrierId := nextBarrierId + 1;
      }
      barriers := outcome.value;
      r := Ok(());
    }
  }
}
