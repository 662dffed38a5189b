/**
  `Features.add_features` (src/feature_engineering.py:6-82) as a whole:
  type conversion, row and cohort columns, the trailing-year aggregates
  joined back, the two progression ratios, the warm-up trim and the
  collapse to one row per remaining column combination.

  `AddFeaturesSpec` states the result against a reference definition of
  every output column written directly over the input table
  (`ExpectedFeatureRow`).
 */
module Features {
  import opened Calendar
  import opened Wrappers
  import opened Seqs
  import opened Rows
  import opened RowFeatures
  import opened Rolling
  import opened Join

  // ----- the progression ratios (lines 60-63) -----

  /** A Float64 result of dividing two counts. */
  datatype F64 = Finite(value: real) | NaN | PosInf

  /** `n / d` on counts in floating point: 0/0 is NaN, n/0 is +inf. */
  function Divide(n: nat, d: nat): (q: F64)
    ensures d > 0 ==> q == Finite(n as real / d as real)
    ensures d == 0 ==> (q == NaN <==> n == 0) && (q == PosInf <==> n > 0)
  {
    if d > 0 then Finite(n as real / d as real) else if n == 0 then NaN else PosInf
  }

  /** `fill_nan(v)`. */
  function FillNan(x: F64, v: real): F64 {
    if x.NaN? then Finite(v) else x
  }

  datatype Full = Full(
    joined: Joined,
    progressionToSemiLastYear: Option<F64>,
    progressionToFinalLastYear: Option<F64>)

  /** `(semis / events).fill_nan(0)` and `(finals / events).fill_nan(0)`; null aggregates give null ratios. */
  function WithRatiosRow(j: Joined): Full {
    match j.trailing
    case None => Full(j, None, None)
    case Some(t) =>
      Full(j,
        Some(FillNan(Divide(t.semisLastYear, t.eventsLastYear), 0.0)),
        Some(FillNan(Divide(t.finalsLastYear, t.eventsLastYear), 0.0)))
  }

  function WithRatiosRowFn(): Joined -> Full {
    (j: Joined) => WithRatiosRow(j)
  }

  function WithRatios(rows: seq<Joined>): seq<Full> {
    Map(rows, WithRatiosRowFn())
  }

  /** The ratio a window's counts give: num/events, or 0 when there are no events. */
  function SafeRatio(num: nat, events: nat): real {
    if events > 0 then num as real / events as real else 0.0
  }

  /**
    For aggregates that come from a window, both ratios are finite and
    non-negative: the ratio when there were events, 0 otherwise (no +inf can
    arise, because an empty window also has no semi-finals and no finals).
   */
  lemma RatiosAreSafe(w: seq<Enriched>, e: Enriched)
    ensures WithRatiosRow(Joined(e, Some(Aggregate(w)))).progressionToSemiLastYear ==
      Some(Finite(SafeRatio(Aggregate(w).semisLastYear, Aggregate(w).eventsLastYear)))
    ensures WithRatiosRow(Joined(e, Some(Aggregate(w)))).progressionToFinalLastYear ==
      Some(Finite(SafeRatio(Aggregate(w).finalsLastYear, Aggregate(w).eventsLastYear)))
    ensures SafeRatio(Aggregate(w).semisLastYear, Aggregate(w).eventsLastYear) >= 0.0
    ensures SafeRatio(Aggregate(w).finalsLastYear, Aggregate(w).eventsLastYear) >= 0.0
  {
    AggregateCounts(w);
  }

  // ----- the warm-up trim (lines 67-69) -----

  function DateOf(f: Full): Date {
    f.joined.base.row.statusAsOf
  }

  /** `df.select('status_as_of').min().item()` on a non-empty table. */
  function MinDate(rows: seq<Full>): (m: Date)
    requires |rows| > 0
    ensures exists i :: 0 <= i < |rows| && DateOf(rows[i]) == m
    ensures forall f :: f in rows ==> AtOrBefore(m, DateOf(f))
    decreases |rows|
  {
    if |rows| == 1 then DateOf(rows[0])
    else
      var rest := MinDate(rows[1..]);
      assert rows == [rows[0]] + rows[1..];
      if Before(DateOf(rows[0]), rest) then
        assert forall f :: f in rows[1..] ==> AtOrBefore(DateOf(rows[0]), DateOf(f)) by {
          forall f | f in rows[1..] ensures AtOrBefore(DateOf(rows[0]), DateOf(f)) {
            DateOrderTransitive(DateOf(rows[0]), rest, DateOf(f));
          }
        }
        DateOf(rows[0])
      else
        assert exists i :: 1 <= i < |rows| && DateOf(rows[i]) == rest by {
          var k :| 0 <= k < |rows[1..]| && DateOf(rows[1..][k]) == rest;
          assert DateOf(rows[k + 1]) == rest;
        }
        rest
  }

  function MinYear(rows: seq<Full>): int
    requires |rows| > 0
  {
    MinDate(rows).year
  }

  function YearAbove(y: int): Full -> bool {
    (f: Full) => DateOf(f).year > y
  }

  /** `df.filter(status_as_of.dt.year() > min_year)`. */
  function TrimWarmUp(rows: seq<Full>): seq<Full>
    requires |rows| > 0
  {
    Filter(rows, YearAbove(MinYear(rows)))
  }

  /**
    The minimum year is the smallest year in the table and some row has it;
    the trim drops exactly the rows of that year (so at least one row) and
    keeps every other row, in order.
   */
  lemma TrimWarmUpSpec(rows: seq<Full>)
    requires |rows| > 0
    ensures exists f :: f in rows && DateOf(f).year == MinYear(rows)
    ensures forall f :: f in rows ==> DateOf(f).year >= MinYear(rows)
    ensures forall f :: f in TrimWarmUp(rows) <==> f in rows && DateOf(f).year != MinYear(rows)
    ensures |TrimWarmUp(rows)| < |rows|
    ensures IsSubsequence(TrimWarmUp(rows), rows)
  {
    var i :| 0 <= i < |rows| && DateOf(rows[i]) == MinDate(rows);
    assert rows[i] in rows;
    FilterDropsSome(rows, YearAbove(MinYear(rows)), rows[i]);
    FilterIsSubsequence(rows, YearAbove(MinYear(rows)));
  }

  // ----- the collapse (lines 71-80) -----

  /** A row of the output table: no `round`, `score` or `round_rank` column. */
  datatype FeatureRow = FeatureRow(
    eventId: int,
    athleteId: int,
    athleteCountry: string,
    dcat: string,
    compRank: int,
    statusAsOf: Date,
    birthday: Date,
    firstSeason: int,
    other: seq<string>,
    athleteAgeInDays: int,
    athleteYearsActive: int,
    isOnPodium: nat,
    cohort: Cohort,
    trailing: Option<Trailing>,
    progressionToSemiLastYear: Option<F64>,
    progressionToFinalLastYear: Option<F64>)

  /** `df.drop(['round', 'score', 'round_rank'])` on one row. */
  function DropRoundColumns(f: Full): FeatureRow {
    var e := f.joined.base;
    var r := e.row;
    FeatureRow(r.eventId, r.athleteId, r.athleteCountry, r.dcat, r.compRank, r.statusAsOf, r.birthday,
      r.firstSeason, r.other, e.athleteAgeInDays, e.athleteYearsActive, e.isOnPodium, e.cohort,
      f.joined.trailing, f.progressionToSemiLastYear, f.progressionToFinalLastYear)
  }

  function DropRoundColumnsFn(): Full -> FeatureRow {
    (f: Full) => DropRoundColumns(f)
  }

  /** `f` with the three round columns cleared. */
  function WithoutRoundColumns(f: Full): Full {
    var r := f.joined.base.row.(round := "", score := "", roundRank := 0);
    f.(joined := f.joined.(base := f.joined.base.(row := r)))
  }

  /** Two rows collapse into one exactly when they differ in the round columns at most. */
  lemma DropRoundColumnsKeepsTheRest(x: Full, y: Full)
    ensures DropRoundColumns(x) == DropRoundColumns(y) <==> WithoutRoundColumns(x) == WithoutRoundColumns(y)
  {
    if DropRoundColumns(x) == DropRoundColumns(y) {
      assert x.joined.base.row.eventId == y.joined.base.row.eventId;
    }
  }

  /** `df.drop(cols_to_remove).unique()`. */
  function Collapse(rows: seq<Full>): seq<FeatureRow> {
    Dedup(Map(rows, DropRoundColumnsFn()))
  }

  /**
    The collapsed table has no duplicate rows, holds exactly the dropped-column
    images of the input rows, and a second `unique()` leaves it unchanged.
   */
  lemma CollapseSpec(rows: seq<Full>)
    ensures NoDup(Collapse(rows))
    ensures forall o :: o in Collapse(rows) <==> exists f :: f in rows && o == DropRoundColumns(f)
    ensures Dedup(Collapse(rows)) == Collapse(rows)
  {
    MapElements(rows, DropRoundColumnsFn());
    assert forall o :: o in Collapse(rows) <==> o in Elements(Map(rows, DropRoundColumnsFn()));
    DedupIdempotent(Map(rows, DropRoundColumnsFn()));
  }

  // ----- the whole pipeline -----

  /** `rows` after lines 11-63: enriched, joined with its rolling aggregates, with ratios. */
  function JoinedTable(df: seq<Row>): seq<Full> {
    var enriched := Enrich(df);
    WithRatios(LeftJoin(enriched, RollingData(enriched)))
  }

  /**
    `Features.add_features`. Fails as the conversion fails, and on an empty
    table, where `min().item()` is `None` and taking its `.year` raises.
   */
  function AddFeatures(raw: seq<Row>): Result<seq<FeatureRow>, Error> {
    match ConvertTypes(raw)
    case Err(e) => Err(e)
    case Ok(df) =>
      var full := JoinedTable(df);
      if |full| == 0 then Err(EmptyTable) else Ok(Collapse(TrimWarmUp(full)))
  }
}
