/** The reliability estimators of the top-level handler: the rule-of-N
    upper bound on the failure rate and the beta-binomial posterior mean,
    both over the counts of a barrier's stored closure events. */
module Estimators {
  import opened Common
  import opened Store

  /** The exceptions the estimators can raise. */
  datatype EstimatorError = ZeroDivision | NoneOperand

  /** Python truthiness of the optional `closure_type` argument. */
  predicate TypeGiven(closureType: Option<string>) {
    closureType.Some? && closureType.value != ""
  }

  /** The `filter_by` of a count query: the barrier, the result, and the
      type when a type filter is given (a None filter value matching NULL). */
  predicate Counted(row: ClosureRow, bid: nat, result: string, typeFilter: Option<Value>) {
    row.barrierId == Some(bid) && Get(row.attrs, ClosureEventResult) == Str(result) &&
    (typeFilter.Some? ==> Get(row.attrs, ClosureEventType) == typeFilter.value)
  }

  /** A counted event belongs to a barrier and has a stored result, and a
      stored type whenever it is counted under a non-null type filter. */
  lemma CountedHasColumns(row: ClosureRow, bid: nat, result: string, typeFilter: Option<Value>)
    requires Counted(row, bid, result, typeFilter)
    ensures row.barrierId.Some? && ClosureEventResult in row.attrs
    ensures typeFilter.Some? && typeFilter.value != Null ==> ClosureEventType in row.attrs
  {
  }

  /** The `.count()` of that query. */
  function CountEvents(rows: seq<ClosureRow>, bid: nat, result: string, typeFilter: Option<Value>): (n: nat)
    ensures n <= |rows|
    ensures n == 0 <==> forall i :: 0 <= i < |rows| ==> !Counted(rows[i], bid, result, typeFilter)
  {
    if rows == [] then 0
    else (if Counted(rows[0], bid, result, typeFilter) then 1 else 0) + CountEvents(rows[1..], bid, result, typeFilter)
  }

  /** A new event raises the count by one if the query counts it, and
      leaves it otherwise. */
  lemma {:induction false} CountEventsAppend(rows: seq<ClosureRow>, row: ClosureRow, bid: nat, result: string, typeFilter: Option<Value>)
    ensures CountEvents(rows + [row], bid, result, typeFilter) ==
      CountEvents(rows, bid, result, typeFilter) + (if Counted(row, bid, result, typeFilter) then 1 else 0)
  {
    if rows != [] {
      assert (rows + [row])[1..] == rows[1..] + [row];
      CountEventsAppend(rows[1..], row, bid, result, typeFilter);
    }
  }

  /** The type filter of the SUCCESS count: the type when one is given. */
  function TypeFilter(closureType: Option<string>): Option<Value> {
    if TypeGiven(closureType) then Some(Str(closureType.value)) else None
  }

  /** `successful_closures`. */
  function Successes(rows: seq<ClosureRow>, bid: nat, closureType: Option<string>): (n: nat)
    ensures n <= |rows|
  {
    CountEvents(rows, bid, "SUCCESS", TypeFilter(closureType))
  }

  /** `int(x)`: truncation toward zero. */
  function Truncate(x: real): (n: int)
    ensures x >= 0.0 ==> n as real <= x < n as real + 1.0
    ensures x < 0.0 ==> n as real - 1.0 < x <= n as real
  {
    if x >= 0.0 then x.Floor else -((-x).Floor)
  }

  // ---------------------------------------------------------------- rule of N

  /** The answers of `calculate_rule_of_three`. */
  datatype RuleOfN =
    | RuleNoBarrier(abbreviation: string)
    | NotApplicable(barrierName: Value, ruleNumber: int)
    | UpperBound(barrierName: Value, confidence: real, bound: real, successes: nat, oneIn: int)

  /** `calculate_rule_of_three`: the barrier by `.first()`, its SUCCESS
      count `s`, the confidence level (a function of `rule_number` only,
      standing for the exponential and the rounding), then "not applicable"
      for `s = 0` and the bound `rule_number / s` otherwise; the message's
      `int(1 / bound)` divides by zero when `rule_number` is 0. */
  function RuleOfThree(bs: seq<BarrierRow>, rows: seq<ClosureRow>, abbr: string, closureType: Option<string>,
                       ruleNumber: int, confidenceOf: int -> real): (r: Result<RuleOfN, EstimatorError>)
    ensures FindBarrier(bs, Str(abbr)).None? <==> r == Ok(RuleNoBarrier(abbr))
    ensures r.Err? ==> ruleNumber == 0 && r.error == ZeroDivision
  {
    match FindBarrier(bs, Str(abbr))
    case None => Ok(RuleNoBarrier(abbr))
    case Some(k) =>
      var name := Get(bs[k].attrs, Name);
      var s := Successes(rows, bs[k].id, closureType);
      var confidence := confidenceOf(ruleNumber);
      if s == 0 then Ok(NotApplicable(name, ruleNumber))
      else
        var bound := Bound(ruleNumber, s);
        if bound == 0.0 then Err(ZeroDivision)
        else Ok(UpperBound(name, confidence, bound, s, Truncate(1.0 / bound)))
  }

  /** `rule_number / successful_closures`. */
  function Bound(ruleNumber: int, s: nat): (b: real)
    requires s > 0
    ensures b * s as real == ruleNumber as real
    ensures b == 0.0 <==> ruleNumber == 0
  {
    ruleNumber as real / s as real
  }

  /** Which answer `calculate_rule_of_three` gives for a barrier it finds,
      and that the answer names that barrier. */
  lemma RuleOfThreeOutcome(bs: seq<BarrierRow>, rows: seq<ClosureRow>, abbr: string, closureType: Option<string>,
                           ruleNumber: int, confidenceOf: int -> real)
    requires FindBarrier(bs, Str(abbr)).Some?
    ensures var bid := bs[FindBarrier(bs, Str(abbr)).value].id;
      var s := Successes(rows, bid, closureType);
      var r := RuleOfThree(bs, rows, abbr, closureType, ruleNumber, confidenceOf);
      && (s == 0 <==> r.Ok? && r.value.NotApplicable?)
      && (s > 0 && ruleNumber != 0 <==> r.Ok? && r.value.UpperBound?)
      && (r.Ok? ==> r.value.barrierName == Get(bs[FindBarrier(bs, Str(abbr)).value].attrs, Name))
  {
    var k := FindBarrier(bs, Str(abbr)).value;
    var s := Successes(rows, bs[k].id, closureType);
    var r := RuleOfThree(bs, rows, abbr, closureType, ruleNumber, confidenceOf);
    if s == 0 {
      assert r.Ok? && r.value.NotApplicable?;
    } else if ruleNumber == 0 {
      assert r.Err?;
    } else {
      assert r.Ok? && r.value.UpperBound?;
    }
  }

  /** The fields of an upper-bound answer. */
  lemma RuleOfThreeFields(bs: seq<BarrierRow>, rows: seq<ClosureRow>, abbr: string, closureType: Option<string>,
                          ruleNumber: int, confidenceOf: int -> real)
    requires FindBarrier(bs, Str(abbr)).Some?
    ensures var bid := bs[FindBarrier(bs, Str(abbr)).value].id;
      var s := Successes(rows, bid, closureType);
      var r := RuleOfThree(bs, rows, abbr, closureType, ruleNumber, confidenceOf);
      r.Ok? && r.value.UpperBound? ==>
        && r.value.successes == s > 0
        && r.value.bound == ruleNumber as real / s as real
        && r.value.oneIn == Truncate(1.0 / r.value.bound)
        && r.value.confidence == confidenceOf(ruleNumber)
  {
    var k := FindBarrier(bs, Str(abbr)).value;
    var s := Successes(rows, bs[k].id, closureType);
    var r := RuleOfThree(bs, rows, abbr, closureType, ruleNumber, confidenceOf);
    if s > 0 && ruleNumber != 0 {
      var b := Bound(ruleNumber, s);
      assert FindBarrier(bs, Str(abbr)) == Some(k);
      assert b != 0.0;
      assert r.Ok? && r.value.UpperBound? && r.value.bound == b;
    } else {
      RuleOfThreeOutcome(bs, rows, abbr, closureType, ruleNumber, confidenceOf);
    }
  }

  /** A bound is given exactly when the barrier has SUCCESS events (of the
      type, if one is given) and `rule_number` is not 0; it is
      `rule_number / s`, the "1 in N" is its reciprocal truncated, the
      answer names the barrier found, and its confidence level does not
      depend on the store. */
  lemma RuleOfThreeBound(bs: seq<BarrierRow>, rows: seq<ClosureRow>, abbr: string, closureType: Option<string>,
                         ruleNumber: int, confidenceOf: int -> real)
    requires FindBarrier(bs, Str(abbr)).Some?
    ensures var bid := bs[FindBarrier(bs, Str(abbr)).value].id;
      var s := Successes(rows, bid, closureType);
      var r := RuleOfThree(bs, rows, abbr, closureType, ruleNumber, confidenceOf);
      && (s == 0 <==> r.Ok? && r.value.NotApplicable?)
      && (s > 0 && ruleNumber != 0 <==> r.Ok? && r.value.UpperBound?)
      && (r.Ok? ==> r.value.barrierName == Get(bs[FindBarrier(bs, Str(abbr)).value].attrs, Name))
      && (r.Ok? && r.value.UpperBound? ==>
            && r.value.successes == s > 0
            && r.value.bound == ruleNumber as real / s as real
            && r.value.oneIn == Truncate(1.0 / r.value.bound)
            && r.value.confidence == confidenceOf(ruleNumber))
  {
    RuleOfThreeOutcome(bs, rows, abbr, closureType, ruleNumber, confidenceOf);
    RuleOfThreeFields(bs, rows, abbr, closureType, ruleNumber, confidenceOf);
  }

  /** One more SUCCESS event for the barrier makes the rule applicable or
      lowers a positive bound. */
  lemma RuleOfThreeShrinks(bs: seq<BarrierRow>, rows: seq<ClosureRow>, abbr: string, closureType: Option<string>,
                           ruleNumber: int, confidenceOf: int -> real, event: ClosureRow)
    requires FindBarrier(bs, Str(abbr)).Some? && ruleNumber > 0
    requires Counted(event, bs[FindBarrier(bs, Str(abbr)).value].id, "SUCCESS", TypeFilter(closureType))
    ensures var before := RuleOfThree(bs, rows, abbr, closureType, ruleNumber, confidenceOf);
      var after := RuleOfThree(bs, rows + [event], abbr, closureType, ruleNumber, confidenceOf);
      && after.Ok? && after.value.UpperBound?
      && (before.Ok? && before.value.UpperBound? ==> after.value.bound < before.value.bound)
  {
    var bid := bs[FindBarrier(bs, Str(abbr)).value].id;
    CountEventsAppend(rows, event, bid, "SUCCESS", TypeFilter(closureType));
    var s := Successes(rows, bid, closureType);
    if s > 0 {
      var n := ruleNumber as real;
      DivLt(n, (s + 1) as real, n, s as real);
    }
  }

  // ---------------------------------------------------------------- beta distribution

  /** The answers of `calculate_beta_distribution`. */
  datatype BetaEstimate =
    | BetaNoBarrier(abbreviation: string)
    | Posterior(barrierName: Value, prior: Option<real>, mean: real, informative: bool)

  /** Python truthiness of the optional prior: neither None nor 0. */
  predicate PriorGiven(prior: Option<real>) {
    prior.Some? && prior.value != 0.0
  }

  /** The prior's `b`: `1/p - 1` for a prior `p`, else 1 (and `a` is 1),
      so that the Beta(1, b) prior has mean `1 / (1 + b) = p`, or 1/2. */
  function PriorB(prior: Option<real>): (b: real)
    ensures PriorGiven(prior) ==> (1.0 + b) * prior.value == 1.0
    ensures !PriorGiven(prior) ==> b == 1.0
  {
    if PriorGiven(prior) then 1.0 / prior.value - 1.0 else 1.0
  }

  /** The posterior mean `a' / (a' + b')` with `a' = 1 + f` and
      `b' = b + s`, or None where `a' + b'` is 0. */
  function PosteriorMean(b: real, failures: nat, successes: nat): (r: Option<real>)
    ensures r.None? <==> 1.0 + failures as real + b + successes as real == 0.0
    ensures r.Some? ==> r.value * (1.0 + failures as real + b + successes as real) == 1.0 + failures as real
  {
    var a', b' := 1.0 + failures as real, b + successes as real;
    if a' + b' == 0.0 then None else Some(a' / (a' + b'))
  }

  /** `calculate_beta_distribution` as written: the FAILURE count filters
      `ClosureEventType = None`, that is IS NULL, when no type is given,
      and the message computes `int(1/prior_failure_rate)` whatever the
      prior, which raises for None (TypeError) and 0 (ZeroDivisionError). */
  function BetaAsWritten(bs: seq<BarrierRow>, rows: seq<ClosureRow>, abbr: string, closureType: Option<string>,
                         prior: Option<real>): (r: Result<BetaEstimate, EstimatorError>)
    ensures FindBarrier(bs, Str(abbr)).None? <==> r == Ok(BetaNoBarrier(abbr))
    ensures PriorGiven(prior) && TypeGiven(closureType) ==> r == BetaDistribution(bs, rows, abbr, closureType, prior)
  {
    match FindBarrier(bs, Str(abbr))
    case None => Ok(BetaNoBarrier(abbr))
    case Some(k) =>
      var bid := bs[k].id;
      var s := Successes(rows, bid, closureType);
      var f := CountEvents(rows, bid, "FAILURE", Some(if TypeGiven(closureType) then Str(closureType.value) else Null));
      match PosteriorMean(PriorB(prior), f, s)
      case None => Err(ZeroDivision)
      case Some(mean) =>
        if prior.None? then Err(NoneOperand)
        else if prior.value == 0.0 then Err(ZeroDivision)
        else Ok(Posterior(Get(bs[k].attrs, Name), prior, mean, true))
  }

  /** `calculate_beta_distribution` with both counts under the same filter
      and the "1 in N" for the prior given only when there is a prior: a
      falsy prior is the uniform Beta(1, 1). */
  function BetaDistribution(bs: seq<BarrierRow>, rows: seq<ClosureRow>, abbr: string, closureType: Option<string>,
                            prior: Option<real>): (r: Result<BetaEstimate, EstimatorError>)
    ensures FindBarrier(bs, Str(abbr)).None? <==> r == Ok(BetaNoBarrier(abbr))
    ensures r.Ok? && r.value.Posterior? ==> r.value.informative == PriorGiven(prior)
  {
    match FindBarrier(bs, Str(abbr))
    case None => Ok(BetaNoBarrier(abbr))
    case Some(k) =>
      var bid := bs[k].id;
      var s := Successes(rows, bid, closureType);
      var f := CountEvents(rows, bid, "FAILURE", TypeFilter(closureType));
      match PosteriorMean(PriorB(prior), f, s)
      case None => Err(ZeroDivision)
      case Some(mean) =>
        Ok(Posterior(Get(bs[k].attrs, Name), if PriorGiven(prior) then prior else None, mean, PriorGiven(prior)))
  }

  /** The failure counts of the corrected estimator. */
  function Failures(rows: seq<ClosureRow>, bid: nat, closureType: Option<string>): (n: nat)
    ensures n <= |rows|
  {
    CountEvents(rows, bid, "FAILURE", TypeFilter(closureType))
  }

  /** With a barrier found and a prior `p` in (0, 1], or none, the posterior
      mean is `(1 + f) / (1 + f + b + s)` over the barrier's FAILURE and
      SUCCESS counts; it lies in (0, 1], below 1 once there is a success. */
  lemma BetaPosteriorMean(bs: seq<BarrierRow>, rows: seq<ClosureRow>, abbr: string, closureType: Option<string>, prior: Option<real>)
    requires FindBarrier(bs, Str(abbr)).Some?
    requires prior.Some? ==> prior.value <= 1.0 && prior.value >= 0.0
    ensures var bid := bs[FindBarrier(bs, Str(abbr)).value].id;
      var f, s := Failures(rows, bid, closureType), Successes(rows, bid, closureType);
      var r := BetaDistribution(bs, rows, abbr, closureType, prior);
      && r.Ok? && r.value.Posterior?
      && r.value.mean == (1.0 + f as real) / (1.0 + f as real + (PriorB(prior) + s as real))
      && 0.0 < r.value.mean <= 1.0
      && (s > 0 ==> r.value.mean < 1.0)
  {
    var bid := bs[FindBarrier(bs, Str(abbr)).value].id;
    var f, s := Failures(rows, bid, closureType), Successes(rows, bid, closureType);
    PriorBNonNegative(prior);
    MeanBounds(PriorB(prior), f, s);
    BetaMeanIs(bs, rows, abbr, closureType, prior);
  }

  /** Where the posterior mean exists, it is the estimate's mean. */
  lemma BetaMeanIs(bs: seq<BarrierRow>, rows: seq<ClosureRow>, abbr: string, closureType: Option<string>, prior: Option<real>)
    requires FindBarrier(bs, Str(abbr)).Some?
    requires var bid := bs[FindBarrier(bs, Str(abbr)).value].id;
      PosteriorMean(PriorB(prior), Failures(rows, bid, closureType), Successes(rows, bid, closureType)).Some?
    ensures var bid := bs[FindBarrier(bs, Str(abbr)).value].id;
      var r := BetaDistribution(bs, rows, abbr, closureType, prior);
      && r.Ok? && r.value.Posterior?
      && r.value.mean == PosteriorMean(PriorB(prior), Failures(rows, bid, closureType), Successes(rows, bid, closureType)).value
  {
  }

  /** A prior in (0, 1], or none, gives a non-negative `b`. */
  lemma PriorBNonNegative(prior: Option<real>)
    requires prior.Some? ==> 0.0 <= prior.value <= 1.0
    ensures PriorB(prior) >= 0.0
  {
    if PriorGiven(prior) {
      DivLe(1.0, 1.0, 1.0, prior.value);
    }
  }

  /** For `b >= 0` the posterior mean exists and lies in (0, 1], below 1
      once `s > 0`. */
  lemma MeanBounds(b: real, f: nat, s: nat)
    requires b >= 0.0
    ensures var m := PosteriorMean(b, f, s);
      && m.Some?
      && 0.0 < m.value <= 1.0
      && (s > 0 ==> m.value < 1.0)
  {
    var a' := 1.0 + f as real;
    var total := a' + (b + s as real);
    assert total >= a' > 0.0;
    DivLe(a', total, 1.0, 1.0);
    if s > 0 {
      DivLt(a', total, 1.0, 1.0);
    }
  }

  /** For `b >= 0` one more failure does not lower the posterior mean. */
  lemma MeanRisesWithFailure(b: real, f: nat, s: nat)
    requires b >= 0.0
    ensures PosteriorMean(b, f, s).Some? && PosteriorMean(b, f + 1, s).Some?
    ensures PosteriorMean(b, f, s).value <= PosteriorMean(b, f + 1, s).value
  {
    MeanGrows(1.0 + f as real, b + s as real);
    assert 1.0 + (f + 1) as real == 1.0 + f as real + 1.0;
  }

  /** With no events recorded, the posterior mean is the prior `p`. */
  lemma BetaRecoversPrior(bs: seq<BarrierRow>, rows: seq<ClosureRow>, abbr: string, closureType: Option<string>, p: real)
    requires FindBarrier(bs, Str(abbr)).Some? && p != 0.0
    requires var bid := bs[FindBarrier(bs, Str(abbr)).value].id;
      Failures(rows, bid, closureType) == 0 && Successes(rows, bid, closureType) == 0
    ensures var r := BetaDistribution(bs, rows, abbr, closureType, Some(p));
      r.Ok? && r.value.Posterior? && r.value.mean == p
  {
    assert 1.0 + (1.0 / p - 1.0) == 1.0 / p;
    assert 1.0 / (1.0 / p) == p;
  }

  /** One more FAILURE event for the barrier raises the posterior mean. */
  lemma BetaFailureRaisesMean(bs: seq<BarrierRow>, rows: seq<ClosureRow>, abbr: string, closureType: Option<string>,
                              prior: Option<real>, event: ClosureRow)
    requires FindBarrier(bs, Str(abbr)).Some?
    requires prior.Some? ==> 0.0 <= prior.value <= 1.0
    requires Counted(event, bs[FindBarrier(bs, Str(abbr)).value].id, "FAILURE", TypeFilter(closureType))
    ensures var before := BetaDistribution(bs, rows, abbr, closureType, prior);
      var after := BetaDistribution(bs, rows + [event], abbr, closureType, prior);
      before.Ok? && before.value.Posterior? && after.Ok? && after.value.Posterior? &&
      before.value.mean <= after.value.mean
  {
    var bid := bs[FindBarrier(bs, Str(abbr)).value].id;
    CountEventsAppend(rows, event, bid, "FAILURE", TypeFilter(closureType));
    CountEventsAppend(rows, event, bid, "SUCCESS", TypeFilter(closureType));
    PriorBNonNegative(prior);
    MeanRisesWithFailure(PriorB(prior), Failures(rows, bid, closureType), Successes(rows, bid, closureType));
    BetaMeanIs(bs, rows, abbr, closureType, prior);
    BetaMeanIs(bs, rows + [event], abbr, closureType, prior);
  }

  /** `a / (a + c) <= (a + 1) / (a + 1 + c)` for `a > 0`, `c >= 0`. */
  lemma MeanGrows(a: real, c: real)
    requires a > 0.0 && c >= 0.0
    ensures a / (a + c) <= (a + 1.0) / (a + 1.0 + c)
  {
    DivLe(a, a + c, a + 1.0, a + 1.0 + c);
  }

  /** `u <= 0` when `u * v <= 0` for a positive `v`. */
  lemma SignOfProduct(u: real, v: real)
    requires v > 0.0 && u * v <= 0.0
    ensures u <= 0.0
  {
  }

  /** `u < 0` when `u * v < 0` for a positive `v`. */
  lemma StrictSignOfProduct(u: real, v: real)
    requires v > 0.0 && u * v < 0.0
    ensures u < 0.0
  {
  }

  /** Cross-multiplication: `p/q <= r/s` for positive `q`, `s` with `p*s <= r*q`. */
  lemma DivLe(p: real, q: real, r: real, s: real)
    requires q > 0.0 && s > 0.0 && p * s <= r * q
    ensures p / q <= r / s
  {
    var x, y := p / q, r / s;
    assert x * q == p;
    assert y * s == r;
    assert (x - y) * (q * s) == p * s - r * q;
    SignOfProduct(x - y, q * s);
  }

  /** Cross-multiplication: `p/q < r/s` for positive `q`, `s` with `p*s < r*q`. */
  lemma DivLt(p: real, q: real, r: real, s: real)
    requires q > 0.0 && s > 0.0 && p * s < r * q
    ensures p / q < r / s
  {
    var x, y := p / q, r / s;
    assert x * q == p;
    assert y * s == r;
    assert (x - y) * (q * s) == p * s - r * q;
    StrictSignOfProduct(x - y, q * s);
  }

  /** Uniform prior: two failures and eight successes give a posterior mean
      of 3/12 = 0.25. */
  lemma BetaUniformExample(bs: seq<BarrierRow>, rows: seq<ClosureRow>, abbr: string)
    requires FindBarrier(bs, Str(abbr)).Some?
    requires var bid := bs[FindBarrier(bs, Str(abbr)).value].id;
      Failures(rows, bid, None) == 2 && Successes(rows, bid, None) == 8
    ensures BetaDistribution(bs, rows, abbr, None, None).Ok?
    ensures BetaDistribution(bs, rows, abbr, None, None).value.mean == 0.25
  {
  }

  // ---------------------------------------------------------------- the two faults

  /** Where the code as written does not go wrong, with a prior in (0, 1]
      and a type given, its estimate is the posterior mean
      `(1 + f) / (1 + f + b + s)` in (0, 1], below 1 once there is a
      success. */
  lemma BetaAsWrittenPosteriorMean(bs: seq<BarrierRow>, rows: seq<ClosureRow>, abbr: string, closureType: Option<string>, p: real)
    requires FindBarrier(bs, Str(abbr)).Some? && TypeGiven(closureType)
    requires 0.0 < p <= 1.0
    ensures var bid := bs[FindBarrier(bs, Str(abbr)).value].id;
      var f, s := Failures(rows, bid, closureType), Successes(rows, bid, closureType);
      var r := BetaAsWritten(bs, rows, abbr, closureType, Some(p));
      && r.Ok? && r.value.Posterior? && r.value.informative
      && r.value.mean == (1.0 + f as real) / (1.0 + f as real + (1.0 / p - 1.0 + s as real))
      && 0.0 < r.value.mean <= 1.0
      && (s > 0 ==> r.value.mean < 1.0)
  {
    BetaPosteriorMean(bs, rows, abbr, closureType, Some(p));
  }

  /** As written, a barrier that exists and a prior that is None or 0 make
      `calculate_beta_distribution` raise, whatever is stored. */
  lemma BetaAsWrittenFalsyPriorRaises(bs: seq<BarrierRow>, rows: seq<ClosureRow>, abbr: string, closureType: Option<string>, prior: Option<real>)
    requires FindBarrier(bs, Str(abbr)).Some? && !PriorGiven(prior)
    ensures BetaAsWritten(bs, rows, abbr, closureType, prior).Err?
  {
  }

  /** Corrected, a barrier that exists and no prior (or 0) give the
      uniform-prior estimate `(1 + f) / (2 + f + s)`, marked uninformative. */
  lemma BetaUniformPriorAnswers(bs: seq<BarrierRow>, rows: seq<ClosureRow>, abbr: string, closureType: Option<string>, prior: Option<real>)
    requires FindBarrier(bs, Str(abbr)).Some? && !PriorGiven(prior)
    ensures var bid := bs[FindBarrier(bs, Str(abbr)).value].id;
      var f, s := Failures(rows, bid, closureType), Successes(rows, bid, closureType);
      var r := BetaDistribution(bs, rows, abbr, closureType, prior);
      && r.Ok? && r.value.Posterior? && !r.value.informative && r.value.prior.None?
      && r.value.mean == (1.0 + f as real) / (2.0 + f as real + s as real)
  {
  }

  /** As written, with a prior but no type given, a stored FAILURE event of
      type STORM is not counted: for one such event and prior 0.5 the mean
      is 1/2, where counting it gives 2/3. */
  lemma BetaAsWrittenMissesTypedFailures(name: Value)
    ensures var bs := [BarrierRow(1, map[Abbreviation := Str("HIJK"), Name := name])];
      var rows := [ClosureRow(Some(1), map[ClosureEventResult := Str("FAILURE"), ClosureEventType := Str("STORM")])];
      && BetaAsWritten(bs, rows, "HIJK", None, Some(0.5)) == Ok(Posterior(name, Some(0.5), 0.5, true))
      && BetaDistribution(bs, rows, "HIJK", None, Some(0.5)) == Ok(Posterior(name, Some(0.5), 2.0 / 3.0, true))
  {
    var bs := [BarrierRow(1, map[Abbreviation := Str("HIJK"), Name := name])];
    var rows := [ClosureRow(Some(1), map[ClosureEventResult := Str("FAILURE"), ClosureEventType := Str("STORM")])];
    assert FindBarrier(bs, Str("HIJK")) == Some(0);
    assert !Counted(rows[0], 1, "FAILURE", Some(Null));
    assert Counted(rows[0], 1, "FAILURE", None);
    assert CountEvents(rows, 1, "FAILURE", Some(Null)) == 0;
    assert CountEvents(rows, 1, "FAILURE", None) == 1;
    assert CountEvents(rows, 1, "SUCCESS", None) == 0;
    assert PriorB(Some(0.5)) == 1.0;
    assert PosteriorMean(1.0, 0, 0) == Some(0.5);
    assert PosteriorMean(1.0, 1, 0) == Some(2.0 / 3.0);
  }

  /** As written, whenever every stored event has a type (the column is NOT
      NULL) and no type is given, the FAILURE count is 0; corrected, it is
      the number of the barrier's FAILURE events. */
  lemma UntypedFailureCountIsZero(rows: seq<ClosureRow>, bid: nat)
    requires forall i :: 0 <= i < |rows| ==> Get(rows[i].attrs, ClosureEventType) != Null
    ensures CountEvents(rows, bid, "FAILURE", Some(Null)) == 0
  {
  }
}
