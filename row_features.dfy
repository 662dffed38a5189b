/**
  The per-row columns and the cohort (group-broadcast) columns of
  `Features.add_features` (src/feature_engineering.py:11-39).

  A cohort is the set of rows sharing (`event_id`, `dcat`). Each cohort
  column is computed once per cohort and copied onto every row of it, as
  polars `expr.over(['event_id', 'dcat'])` does.
 */
module RowFeatures {
  import opened Calendar
  import opened Seqs
  import opened Rows

  /** The athlete id whose presence `is_janja_competing` flags. */
  const JanjaId: int := 1147

  datatype Cohort = Cohort(jpnAthletesCount: nat, fraAthletesCount: nat, isJanjaCompeting: nat)

  /** A row with the columns added at lines 11-39. */
  datatype Enriched = Enriched(
    row: Row,
    athleteAgeInDays: int,
    athleteYearsActive: int,
    isOnPodium: nat,
    cohort: Cohort)

  /** `(comp_rank <= 3).cast(UInt8)`. */
  function PodiumFlag(compRank: int): (flag: nat)
    ensures flag <= 1
    ensures flag == 1 <==> compRank <= 3
  {
    if compRank <= 3 then 1 else 0
  }

  /** `status_as_of - birthday`, as a whole number of days. */
  function AgeInDays(r: Row): int {
    DaysBetween(r.statusAsOf, r.birthday)
  }

  /** An athlete is older than zero days exactly when born before the observation date. */
  lemma AgeInDaysPositive(r: Row)
    requires Typed(r)
    ensures AgeInDays(r) > 0 <==> Before(r.birthday, r.statusAsOf)
  {
    DaysBetweenSign(r.statusAsOf, r.birthday);
  }

  /** `status_as_of.dt.year() - first_season` (Int32 minus UInt32 is computed in Int64: no wrap). */
  function YearsActive(r: Row): int {
    r.statusAsOf.year - r.firstSeason
  }

  function InCohort(eventId: int, dcat: string): Row -> bool {
    (r: Row) => r.eventId == eventId && r.dcat == dcat
  }

  function FromCountry(country: string): Row -> bool {
    (r: Row) => r.athleteCountry == country
  }

  function AthleteIdOf(): Row -> int {
    (r: Row) => r.athleteId
  }

  /** The rows of one cohort, in table order. */
  function CohortRows(df: seq<Row>, eventId: int, dcat: string): seq<Row> {
    Filter(df, InCohort(eventId, dcat))
  }

  /** `athlete_id.filter(athlete_country == country).n_unique().over(['event_id', 'dcat'])`. */
  function CountryAthletesCount(df: seq<Row>, eventId: int, dcat: string, country: string): nat {
    NUnique(Map(Filter(CohortRows(df, eventId, dcat), FromCountry(country)), AthleteIdOf()))
  }

  /** The distinct athletes of `country` in a cohort, as a set. */
  function CountryAthletes(df: seq<Row>, eventId: int, dcat: string, country: string): set<int> {
    set r | r in df && r.eventId == eventId && r.dcat == dcat && r.athleteCountry == country :: r.athleteId
  }

  /** The count column is the number of distinct athletes of that country in the cohort, 0 when there is none. */
  lemma CountryAthletesCountIsDistinct(df: seq<Row>, eventId: int, dcat: string, country: string)
    ensures CountryAthletesCount(df, eventId, dcat, country) == |CountryAthletes(df, eventId, dcat, country)|
    ensures CountryAthletesCount(df, eventId, dcat, country) == 0 <==>
      forall r :: r in df && r.eventId == eventId && r.dcat == dcat ==> r.athleteCountry != country
  {
    var rows := Filter(CohortRows(df, eventId, dcat), FromCountry(country));
    var ids := Map(rows, AthleteIdOf());
    NUniqueIsCardinality(ids);
    MapElements(rows, AthleteIdOf());
    assert Elements(ids) == CountryAthletes(df, eventId, dcat, country);
    assert CountryAthletesCount(df, eventId, dcat, country) == |Elements(ids)|;
    if CountryAthletes(df, eventId, dcat, country) == {} {
      forall r | r in df && r.eventId == eventId && r.dcat == dcat
        ensures r.athleteCountry != country
      {
        assert r.athleteCountry == country ==> r.athleteId in CountryAthletes(df, eventId, dcat, country);
      }
    }
  }

  /** `(athlete_id == 1147).any().over(['event_id', 'dcat']).cast(UInt8)`. */
  function JanjaFlag(df: seq<Row>, eventId: int, dcat: string): (flag: nat)
    ensures flag <= 1
    ensures flag == 1 <==> exists r :: r in df && r.eventId == eventId && r.dcat == dcat && r.athleteId == JanjaId
  {
    if exists r :: r in CohortRows(df, eventId, dcat) && r.athleteId == JanjaId then 1 else 0
  }

  function CohortOf(df: seq<Row>, eventId: int, dcat: string): Cohort {
    Cohort(
      CountryAthletesCount(df, eventId, dcat, "JPN"),
      CountryAthletesCount(df, eventId, dcat, "FRA"),
      JanjaFlag(df, eventId, dcat))
  }

  /** Lines 11-39 for one row of `df`. */
  function EnrichRow(df: seq<Row>, r: Row): Enriched {
    Enriched(r, AgeInDays(r), YearsActive(r), PodiumFlag(r.compRank), CohortOf(df, r.eventId, r.dcat))
  }

  function EnrichRowIn(df: seq<Row>): Row -> Enriched {
    (r: Row) => EnrichRow(df, r)
  }

  /**
    The table after lines 11-39: the same rows in the same order, each with
    its new columns; every row of a cohort carries the same cohort columns.
   */
  function Enrich(df: seq<Row>): (res: seq<Enriched>)
    ensures |res| == |df|
    ensures forall i :: 0 <= i < |df| ==> res[i].row == df[i]
    ensures forall i, j :: 0 <= i < |df| && 0 <= j < |df| && df[i].eventId == df[j].eventId && df[i].dcat == df[j].dcat ==>
      res[i].cohort == res[j].cohort
  {
    Map(df, EnrichRowIn(df))
  }
}
