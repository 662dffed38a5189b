/**
  A reference definition of the feature builder's output, written directly
  over the typed input table without sorting, rolling, de-duplicating or
  joining, and the theorem that `Features.AddFeatures` computes it.
 */
module FeaturesSpec {
  import opened Calendar
  import opened Wrappers
  import opened Seqs
  import opened Rows
  import opened RowFeatures
  import opened Rolling
  import opened Join
  import opened Features

  /** Row `r` belongs to the trailing year of athlete `athleteId` before date `t`. */
  predicate InRowWindow(athleteId: int, t: Date, r: Row) {
    r.athleteId == athleteId && InTrailingYear(t, r.statusAsOf)
  }

  function RowWindowPred(athleteId: int, t: Date): Row -> bool {
    (r: Row) => InRowWindow(athleteId, t, r)
  }

  function RowWindow(df: seq<Row>, athleteId: int, t: Date): seq<Row> {
    Filter(df, RowWindowPred(athleteId, t))
  }

  function RowIsFinal(): Row -> bool {
    (r: Row) => r.round == "Final"
  }

  function RowIsSemiFinal(): Row -> bool {
    (r: Row) => ToLower(r.round) == "semi-final"
  }

  function RowCompRank(): Row -> int {
    (r: Row) => r.compRank
  }

  /** The trailing-year columns of (`athleteId`, `t`), from their meaning. */
  function ExpectedTrailing(df: seq<Row>, athleteId: int, t: Date): Trailing {
    var w := RowWindow(df, athleteId, t);
    Trailing(
      |set r | r in df && InRowWindow(athleteId, t, r) :: r.eventId|,
      |set r | r in df && InRowWindow(athleteId, t, r) && r.compRank <= 3 :: r.eventId|,
      |Filter(w, RowIsFinal())|,
      |Filter(w, RowIsSemiFinal())|,
      if |w| == 0 then None else Some(SumOf(w, RowCompRank()) as real / |w| as real))
  }

  /** The output row that input row `x` of `df` should become. */
  function ExpectedFeatureRow(df: seq<Row>, x: Row): FeatureRow {
    var tr := ExpectedTrailing(df, x.athleteId, x.statusAsOf);
    var janja := if exists r :: r in df && r.eventId == x.eventId && r.dcat == x.dcat && r.athleteId == JanjaId then 1 else 0;
    FeatureRow(
      x.eventId, x.athleteId, x.athleteCountry, x.dcat, x.compRank, x.statusAsOf, x.birthday,
      x.firstSeason, x.other,
      AgeInDays(x),
      YearsActive(x),
      if x.compRank <= 3 then 1 else 0,
      Cohort(|CountryAthletes(df, x.eventId, x.dcat, "JPN")|, |CountryAthletes(df, x.eventId, x.dcat, "FRA")|, janja),
      Some(tr),
      Some(Finite(SafeRatio(tr.semisLastYear, tr.eventsLastYear))),
      Some(Finite(SafeRatio(tr.finalsLastYear, tr.eventsLastYear))))
  }

  /** Some row of `df` lies in an earlier calendar year than `x`. */
  predicate HasEarlierYear(df: seq<Row>, x: Row) {
    exists z :: z in df && z.statusAsOf.year < x.statusAsOf.year
  }

  /** The window over the enriched table is the enriched window over the table. */
  lemma WindowOfEnrich(df: seq<Row>, athleteId: int, t: Date)
    ensures Window(Enrich(df), athleteId, t) == Map(RowWindow(df, athleteId, t), EnrichRowIn(df))
  {
    FilterMap(df, EnrichRowIn(df), InWindow(athleteId, t), RowWindowPred(athleteId, t));
  }

  lemma EventSetIsExpected(df: seq<Row>, athleteId: int, t: Date)
    ensures EventSet(Map(RowWindow(df, athleteId, t), EnrichRowIn(df))) ==
      set r | r in df && InRowWindow(athleteId, t, r) :: r.eventId
  {
    var g := EnrichRowIn(df);
    var w := RowWindow(df, athleteId, t);
    var big := Map(w, g);
    MapElements(w, g);
    forall id | id in EventSet(big)
      ensures id in set r | r in df && InRowWindow(athleteId, t, r) :: r.eventId
    {
      var e :| e in big && e.row.eventId == id;
      assert e in Elements(big);
      var r :| r in w && g(r) == e;
    }
    forall id | id in set r | r in df && InRowWindow(athleteId, t, r) :: r.eventId
      ensures id in EventSet(big)
    {
      var r :| r in df && InRowWindow(athleteId, t, r) && r.eventId == id;
      assert r in w;
      assert g(r) in Elements(big);
    }
  }

  lemma PodiumEventSetIsExpected(df: seq<Row>, athleteId: int, t: Date)
    ensures PodiumEventSet(Map(RowWindow(df, athleteId, t), EnrichRowIn(df))) ==
      set r | r in df && InRowWindow(athleteId, t, r) && r.compRank <= 3 :: r.eventId
  {
    PodiumEventsAreExpected(df, athleteId, t);
    ExpectedPodiumEventsAreFound(df, athleteId, t);
  }

  lemma PodiumEventsAreExpected(df: seq<Row>, athleteId: int, t: Date)
    ensures forall id :: id in PodiumEventSet(Map(RowWindow(df, athleteId, t), EnrichRowIn(df))) ==>
      id in set r | r in df && InRowWindow(athleteId, t, r) && r.compRank <= 3 :: r.eventId
  {
    var g := EnrichRowIn(df);
    var w := RowWindow(df, athleteId, t);
    var big := Map(w, g);
    MapElements(w, g);
    forall id | id in PodiumEventSet(big)
      ensures id in set r | r in df && InRowWindow(athleteId, t, r) && r.compRank <= 3 :: r.eventId
    {
      var e :| e in big && e.isOnPodium > 0 && e.row.eventId == id;
      assert e in Elements(big);
      var r :| r in w && g(r) == e;
    }
  }

  lemma ExpectedPodiumEventsAreFound(df: seq<Row>, athleteId: int, t: Date)
    ensures forall id :: id in (set r | r in df && InRowWindow(athleteId, t, r) && r.compRank <= 3 :: r.eventId) ==>
      id in PodiumEventSet(Map(RowWindow(df, athleteId, t), EnrichRowIn(df)))
  {
    var g := EnrichRowIn(df);
    var w := RowWindow(df, athleteId, t);
    var big := Map(w, g);
    MapElements(w, g);
    forall id | id in set r | r in df && InRowWindow(athleteId, t, r) && r.compRank <= 3 :: r.eventId
      ensures id in PodiumEventSet(big)
    {
      var r :| r in df && InRowWindow(athleteId, t, r) && r.compRank <= 3 && r.eventId == id;
      assert r in w;
      assert g(r) in Elements(big);
    }
  }

  /** The rolling aggregates of a key equal the reference trailing-year columns. */
  lemma AggregateIsExpected(df: seq<Row>, athleteId: int, t: Date)
    ensures Aggregate(Window(Enrich(df), athleteId, t)) == ExpectedTrailing(df, athleteId, t)
  {
    var g := EnrichRowIn(df);
    var w := RowWindow(df, athleteId, t);
    var big := Map(w, g);
    WindowOfEnrich(df, athleteId, t);
    EventsAreDistinctEvents(big);
    PodiumsAreDistinctPodiumEvents(big);
    EventSetIsExpected(df, athleteId, t);
    PodiumEventSetIsExpected(df, athleteId, t);
    FilterMap(w, g, IsFinal(), RowIsFinal());
    FilterMap(w, g, IsSemiFinal(), RowIsSemiFinal());
    SumOfMap(w, g, CompRankOf(), RowCompRank());
  }

  /** The cohort columns equal their reference counts. */
  lemma CohortIsExpected(df: seq<Row>, x: Row)
    ensures CohortOf(df, x.eventId, x.dcat) ==
      Cohort(|CountryAthletes(df, x.eventId, x.dcat, "JPN")|, |CountryAthletes(df, x.eventId, x.dcat, "FRA")|,
        if exists r :: r in df && r.eventId == x.eventId && r.dcat == x.dcat && r.athleteId == JanjaId then 1 else 0)
  {
    CountryAthletesCountIsDistinct(df, x.eventId, x.dcat, "JPN");
    CountryAthletesCountIsDistinct(df, x.eventId, x.dcat, "FRA");
  }

  /**
    Lines 11-63 keep every row, in order: the left join adds none, since
    after `unique()` each key has one aggregate row.
   */
  lemma JoinedTableShape(df: seq<Row>)
    ensures |JoinedTable(df)| == |df|
    ensures forall i :: 0 <= i < |df| ==>
      JoinedTable(df)[i] == WithRatiosRow(Joined(Enrich(df)[i],
        Some(Aggregate(Window(Enrich(df), df[i].athleteId, df[i].statusAsOf)))))
  {
    var enriched := Enrich(df);
    var right := RollingData(enriched);
    RollingKeysUnique(enriched);
    LeftJoinOneToOne(enriched, right);
    forall i | 0 <= i < |df|
      ensures Lookup(right, df[i].athleteId, df[i].statusAsOf) ==
        Some(Aggregate(Window(enriched, df[i].athleteId, df[i].statusAsOf)))
    {
      LookupOfRow(df, i);
    }
  }

  /** Every key of the table matches at most one rolling row. */
  lemma RollingKeysUnique(enriched: seq<Enriched>)
    ensures forall l :: l in enriched ==> |Matches(RollingData(enriched), l.row.athleteId, l.row.statusAsOf)| <= 1
  {
    forall l | l in enriched
      ensures |Matches(RollingData(enriched), l.row.athleteId, l.row.statusAsOf)| <= 1
    {
      RollingDataLookup(enriched, l.row.athleteId, l.row.statusAsOf);
    }
  }

  /** Input row i finds the aggregates of its own window in the rolling table. */
  lemma LookupOfRow(df: seq<Row>, i: int)
    requires 0 <= i < |df|
    ensures Lookup(RollingData(Enrich(df)), df[i].athleteId, df[i].statusAsOf) ==
      Some(Aggregate(Window(Enrich(df), df[i].athleteId, df[i].statusAsOf)))
  {
    var enriched := Enrich(df);
    assert enriched[i] in enriched;
    RollingDataLookup(enriched, df[i].athleteId, df[i].statusAsOf);
  }

  /** Each row of the joined table keeps the date of its input row. */
  lemma JoinedTableDates(df: seq<Row>)
    ensures |JoinedTable(df)| == |df|
    ensures forall i :: 0 <= i < |df| ==> DateOf(JoinedTable(df)[i]) == df[i].statusAsOf
  {
    JoinedTableShape(df);
  }

  /** Row i of the joined table, its round columns dropped, is the reference row of input row i. */
  lemma JoinedTableRows(df: seq<Row>)
    ensures |JoinedTable(df)| == |df|
    ensures forall i :: 0 <= i < |df| ==> DropRoundColumns(JoinedTable(df)[i]) == ExpectedFeatureRow(df, df[i])
  {
    var enriched := Enrich(df);
    JoinedTableShape(df);
    forall i | 0 <= i < |df|
      ensures DropRoundColumns(JoinedTable(df)[i]) == ExpectedFeatureRow(df, df[i])
    {
      var x := df[i];
      var w := Window(enriched, x.athleteId, x.statusAsOf);
      RatiosAreSafe(w, enriched[i]);
      AggregateIsExpected(df, x.athleteId, x.statusAsOf);
      CohortIsExpected(df, x);
    }
  }

  /**
    A table whose rows carry the dates of `raw`, row for row, loses a row
    in the trim exactly when that input row is in the earliest year.
   */
  lemma TrimMatchesEarlierYear(raw: seq<Row>, full: seq<Full>, i: int)
    requires |full| == |raw| && 0 <= i < |raw|
    requires forall k :: 0 <= k < |raw| ==> DateOf(full[k]) == raw[k].statusAsOf
    ensures DateOf(full[i]).year != MinYear(full) <==> HasEarlierYear(raw, raw[i])
  {
    TrimWarmUpSpec(full);
    var minYear := MinYear(full);
    assert full[i] in full;
    if HasEarlierYear(raw, raw[i]) {
      var z :| z in raw && z.statusAsOf.year < raw[i].statusAsOf.year;
      var k :| 0 <= k < |raw| && raw[k] == z;
      assert full[k] in full;
    } else {
      var f :| f in full && DateOf(f).year == minYear;
      var k :| 0 <= k < |full| && full[k] == f;
      assert raw[k] in raw;
    }
  }

  /**
    For a table whose rows carry the dates of `raw` and whose rows, the round
    columns dropped, are the images of `raw` under `image`, row for row,
    trimming and collapsing leaves exactly the images of the input rows not
    in the earliest year.
   */
  lemma OutputRowsAreImages(raw: seq<Row>, full: seq<Full>, image: Row -> FeatureRow, o: FeatureRow)
    requires |full| == |raw| > 0
    requires forall k :: 0 <= k < |raw| ==> DateOf(full[k]) == raw[k].statusAsOf
    requires forall k :: 0 <= k < |raw| ==> DropRoundColumns(full[k]) == image(raw[k])
    ensures o in Collapse(TrimWarmUp(full)) <==> exists x :: x in raw && HasEarlierYear(raw, x) && o == image(x)
  {
    if o in Collapse(TrimWarmUp(full)) {
      OutputRowIsImage(raw, full, image, o);
    }
    if exists x :: x in raw && HasEarlierYear(raw, x) && o == image(x) {
      var x :| x in raw && HasEarlierYear(raw, x) && o == image(x);
      ImageIsOutputRow(raw, full, image, x);
    }
  }

  lemma OutputRowIsImage(raw: seq<Row>, full: seq<Full>, image: Row -> FeatureRow, o: FeatureRow)
    requires |full| == |raw| > 0
    requires forall k :: 0 <= k < |raw| ==> DateOf(full[k]) == raw[k].statusAsOf
    requires forall k :: 0 <= k < |raw| ==> DropRoundColumns(full[k]) == image(raw[k])
    requires o in Collapse(TrimWarmUp(full))
    ensures exists x :: x in raw && HasEarlierYear(raw, x) && o == image(x)
  {
    var trimmed := TrimWarmUp(full);
    TrimWarmUpSpec(full);
    CollapseSpec(trimmed);
    var f :| f in trimmed && o == DropRoundColumns(f);
    var i :| 0 <= i < |full| && full[i] == f;
    TrimMatchesEarlierYear(raw, full, i);
    assert raw[i] in raw && HasEarlierYear(raw, raw[i]) && o == image(raw[i]);
  }

  lemma ImageIsOutputRow(raw: seq<Row>, full: seq<Full>, image: Row -> FeatureRow, x: Row)
    requires |full| == |raw| > 0
    requires forall k :: 0 <= k < |raw| ==> DateOf(full[k]) == raw[k].statusAsOf
    requires forall k :: 0 <= k < |raw| ==> DropRoundColumns(full[k]) == image(raw[k])
    requires x in raw && HasEarlierYear(raw, x)
    ensures image(x) in Collapse(TrimWarmUp(full))
  {
    var trimmed := TrimWarmUp(full);
    TrimWarmUpSpec(full);
    CollapseSpec(trimmed);
    var i :| 0 <= i < |raw| && raw[i] == x;
    TrimMatchesEarlierYear(raw, full, i);
    assert full[i] in full;
    assert full[i] in trimmed;
  }

  /** `add_features` fails exactly when the conversion fails or the table is empty, with that error. */
  lemma AddFeaturesFails(raw: seq<Row>)
    ensures AddFeatures(raw).Ok? <==> AllTyped(raw) && raw != []
    ensures !AllTyped(raw) ==> AddFeatures(raw) == Err(ConvertTypes(raw).error)
    ensures AllTyped(raw) && raw == [] ==> AddFeatures(raw) == Err(EmptyTable)
  {
    JoinedTableDates(raw);
  }

  /** On a typed, non-empty table `add_features` returns the collapsed, trimmed joined table. */
  lemma AddFeaturesOk(raw: seq<Row>)
    requires AllTyped(raw) && raw != []
    ensures |JoinedTable(raw)| > 0
    ensures AddFeatures(raw) == Ok(Collapse(TrimWarmUp(JoinedTable(raw))))
  {
    JoinedTableDates(raw);
  }

  /**
    On a typed, non-empty table a row is in the output of `add_features`
    exactly when it is the reference row of an input row not in the earliest
    year present.
   */
  lemma AddFeaturesRow(raw: seq<Row>, o: FeatureRow)
    requires AllTyped(raw) && raw != []
    ensures AddFeatures(raw).Ok?
    ensures o in AddFeatures(raw).value <==>
      exists x :: x in raw && HasEarlierYear(raw, x) && o == ExpectedFeatureRow(raw, x)
  {
    AddFeaturesOk(raw);
    JoinedTableDates(raw);
    JoinedTableRows(raw);
    OutputRowsAreImages(raw, JoinedTable(raw), (x: Row) => ExpectedFeatureRow(raw, x), o);
  }

  /**
    `add_features` fails exactly when the conversion fails or the table is
    empty. Otherwise its rows are free of duplicates and are exactly the
    reference rows of the input rows not in the earliest year present.
   */
  lemma AddFeaturesSpec(raw: seq<Row>)
    ensures AddFeatures(raw).Ok? <==> AllTyped(raw) && raw != []
    ensures !AllTyped(raw) ==> AddFeatures(raw) == Err(ConvertTypes(raw).error)
    ensures AllTyped(raw) && raw == [] ==> AddFeatures(raw) == Err(EmptyTable)
    ensures AddFeatures(raw).Ok? ==> NoDup(AddFeatures(raw).value)
    ensures AddFeatures(raw).Ok? ==> forall o :: o in AddFeatures(raw).value <==>
      exists x :: x in raw && HasEarlierYear(raw, x) && o == ExpectedFeatureRow(raw, x)
  {
    AddFeaturesFails(raw);
    if AllTyped(raw) && raw != [] {
      AddFeaturesOk(raw);
      CollapseSpec(TrimWarmUp(JoinedTable(raw)));
      forall o
        ensures o in AddFeatures(raw).value <==>
          exists x :: x in raw && HasEarlierYear(raw, x) && o == ExpectedFeatureRow(raw, x)
      {
        AddFeaturesRow(raw, o);
      }
    }
  }

  /** No output row is dated in the earliest year of the input. */
  lemma NoRowFromFirstYear(raw: seq<Row>, o: FeatureRow)
    requires AddFeatures(raw).Ok? && o in AddFeatures(raw).value
    ensures exists z :: z in raw && z.statusAsOf.year < o.statusAsOf.year
  {
    AddFeaturesSpec(raw);
    var x :| x in raw && HasEarlierYear(raw, x) && o == ExpectedFeatureRow(raw, x);
  }
}
