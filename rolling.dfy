/**
  The per-athlete trailing-year aggregates of `Features.add_features`
  (src/feature_engineering.py:41-56):

    df.sort("status_as_of")
      .rolling(index_column="status_as_of", period="1y",
               group_by=["athlete_id"], closed="left")
      .agg([...]).unique()

  polars evaluates a rolling window on data sorted by the index column: for
  the row at sorted position i it aggregates the earlier rows of the same
  athlete whose date lies in [date - 1y, date). `LookBack` models exactly
  that, over the sorted table; `LookBackIsWindow` shows why the sort matters
  (on a sorted table the look-back is the whole date-range window) and
  `RollingDataLookup` that after `unique()` each (athlete, date) key has
  exactly the aggregate of its own window over the unsorted table.
 */
module Rolling {
  import opened Calendar
  import opened Wrappers
  import opened Seqs
  import opened Rows
  import opened RowFeatures

  /** The five aggregate columns of lines 50-54. */
  datatype Trailing = Trailing(
    eventsLastYear: nat,
    podiumsLastYear: nat,
    finalsLastYear: nat,
    semisLastYear: nat,
    avgRankLastYear: Option<real>)

  /** One output row of the rolling aggregation: the group key, the index and the aggregates. */
  datatype AggRow = AggRow(athleteId: int, statusAsOf: Date, stats: Trailing)

  // ----- the sort at line 42 -----

  predicate SortedByDate(s: seq<Enriched>) {
    forall i, j :: 0 <= i < j < |s| ==> AtOrBefore(s[i].row.statusAsOf, s[j].row.statusAsOf)
  }

  /** Every row of `s` is dated no earlier than `d`. */
  predicate AllFrom(d: Date, s: seq<Enriched>) {
    forall y :: y in s ==> AtOrBefore(d, y.row.statusAsOf)
  }

  lemma DateOrderTransitive(a: Date, b: Date, c: Date)
    requires AtOrBefore(a, b) && AtOrBefore(b, c)
    ensures AtOrBefore(a, c)
  {
  }

  /** Places `x` before the first row of `s` dated no earlier than `x`. */
  function Insert(x: Enriched, s: seq<Enriched>): seq<Enriched>
    decreases |s|
  {
    if s == [] || AtOrBefore(x.row.statusAsOf, s[0].row.statusAsOf) then [x] + s
    else [s[0]] + Insert(x, s[1..])
  }

  lemma {:induction false} InsertMultiset(x: Enriched, s: seq<Enriched>)
    ensures multiset(Insert(x, s)) == multiset(s) + multiset{x}
    decreases |s|
  {
    if s != [] && !AtOrBefore(x.row.statusAsOf, s[0].row.statusAsOf) {
      InsertMultiset(x, s[1..]);
      assert s == [s[0]] + s[1..];
    }
  }

  lemma SortedHead(s: seq<Enriched>)
    requires SortedByDate(s) && s != []
    ensures AllFrom(s[0].row.statusAsOf, s)
  {
    forall y | y in s ensures AtOrBefore(s[0].row.statusAsOf, y.row.statusAsOf) {
      var k :| 0 <= k < |s| && s[k] == y;
      if k > 0 {
        assert AtOrBefore(s[0].row.statusAsOf, s[k].row.statusAsOf);
      }
    }
  }

  lemma SortedCons(y: Enriched, s: seq<Enriched>)
    requires SortedByDate(s) && AllFrom(y.row.statusAsOf, s)
    ensures SortedByDate([y] + s)
  {
    var r := [y] + s;
    forall i, j | 0 <= i < j < |r| ensures AtOrBefore(r[i].row.statusAsOf, r[j].row.statusAsOf) {
      if i == 0 {
        assert r[j] in s;
      } else {
        assert r[i] == s[i - 1] && r[j] == s[j - 1];
      }
    }
  }

  lemma {:induction false} InsertSorted(x: Enriched, s: seq<Enriched>)
    requires SortedByDate(s)
    ensures SortedByDate(Insert(x, s))
    decreases |s|
  {
    if s == [] {
    } else if AtOrBefore(x.row.statusAsOf, s[0].row.statusAsOf) {
      SortedHead(s);
      forall y | y in s ensures AtOrBefore(x.row.statusAsOf, y.row.statusAsOf) {
        DateOrderTransitive(x.row.statusAsOf, s[0].row.statusAsOf, y.row.statusAsOf);
      }
      SortedCons(x, s);
    } else {
      assert SortedByDate(s[1..]);
      InsertSorted(x, s[1..]);
      InsertMultiset(x, s[1..]);
      SortedHead(s);
      forall y | y in Insert(x, s[1..]) ensures AtOrBefore(s[0].row.statusAsOf, y.row.statusAsOf) {
        assert y in multiset(s[1..]) + multiset{x};
        assert y == x || y in s[1..];
        assert y in s[1..] ==> y in s;
      }
      SortedCons(s[0], Insert(x, s[1..]));
    }
  }

  /** `df.sort("status_as_of")`: a reordering of the table by date. */
  function SortByDate(s: seq<Enriched>): (r: seq<Enriched>)
    ensures multiset(r) == multiset(s)
    ensures SortedByDate(r)
    decreases |s|
  {
    if s == [] then []
    else
      var rest := SortByDate(s[1..]);
      InsertMultiset(s[0], rest);
      InsertSorted(s[0], rest);
      assert s == [s[0]] + s[1..];
      Insert(s[0], rest)
  }

  // ----- the window -----

  /** `closed="left"`, `period="1y"`: the dates d with t - 1y <= d < t. */
  predicate InTrailingYear(t: Date, d: Date) {
    AtOrBefore(OneYearEarlier(t), d) && Before(d, t)
  }

  function InWindow(athleteId: int, t: Date): Enriched -> bool {
    (e: Enriched) => e.row.athleteId == athleteId && InTrailingYear(t, e.row.statusAsOf)
  }

  /** The rows of `athleteId` in the trailing year before `t`. */
  function Window(df: seq<Enriched>, athleteId: int, t: Date): seq<Enriched> {
    Filter(df, InWindow(athleteId, t))
  }

  /**
    The window never holds a row of the same instant (the row itself
    included), and it does hold the rows dated exactly one year earlier.
   */
  lemma WindowContents(df: seq<Enriched>, athleteId: int, t: Date, e: Enriched)
    requires Valid(t)
    ensures e in Window(df, athleteId, t) <==>
      e in df && e.row.athleteId == athleteId && AtOrBefore(OneYearEarlier(t), e.row.statusAsOf) && Before(e.row.statusAsOf, t)
    ensures e.row.statusAsOf == t ==> e !in Window(df, athleteId, t)
    ensures e in df && e.row.athleteId == athleteId && e.row.statusAsOf == OneYearEarlier(t) ==> e in Window(df, athleteId, t)
  {
  }

  /** The look-back polars performs for the row at position `i` of the sorted table. */
  function LookBack(sorted: seq<Enriched>, i: nat): seq<Enriched>
    requires i < |sorted|
  {
    Filter(sorted[..i], InWindow(sorted[i].row.athleteId, sorted[i].row.statusAsOf))
  }

  /** On a date-sorted table, looking back from a row finds its whole trailing-year window. */
  lemma LookBackIsWindow(sorted: seq<Enriched>, i: nat)
    requires SortedByDate(sorted) && i < |sorted|
    ensures LookBack(sorted, i) == Window(sorted, sorted[i].row.athleteId, sorted[i].row.statusAsOf)
  {
    var p := InWindow(sorted[i].row.athleteId, sorted[i].row.statusAsOf);
    assert sorted == sorted[..i] + sorted[i..];
    FilterConcat(sorted[..i], sorted[i..], p);
    forall x | x in sorted[i..]
      ensures !p(x)
    {
      var k :| i <= k < |sorted| && sorted[k] == x;
      assert AtOrBefore(sorted[i].row.statusAsOf, sorted[k].row.statusAsOf);
    }
    FilterNone(sorted[i..], p);
  }

  // ----- the aggregates of lines 50-54 -----

  function EventIdOf(): Enriched -> int {
    (e: Enriched) => e.row.eventId
  }

  function CompRankOf(): Enriched -> int {
    (e: Enriched) => e.row.compRank
  }

  function IsPodiumRow(): Enriched -> bool {
    (e: Enriched) => e.isOnPodium > 0
  }

  function LowerChar(c: char): char {
    if 'A' <= c <= 'Z' then (c as int + 32) as char else c
  }

  /** `str.to_lowercase()` on ASCII letters. */
  function ToLower(s: string): string {
    Map(s, LowerChar)
  }

  function IsFinal(): Enriched -> bool {
    (e: Enriched) => e.row.round == "Final"
  }

  function IsSemiFinal(): Enriched -> bool {
    (e: Enriched) => ToLower(e.row.round) == "semi-final"
  }

  /**
    Lower-casing keeps the length, changes no character that is not an
    upper-case letter, leaves no upper-case letter behind, and a second
    lower-casing changes nothing.
   */
  lemma ToLowerSpec(s: string)
    ensures |ToLower(s)| == |s|
    ensures forall i :: 0 <= i < |s| && !('A' <= s[i] <= 'Z') ==> ToLower(s)[i] == s[i]
    ensures forall i :: 0 <= i < |s| ==> !('A' <= ToLower(s)[i] <= 'Z')
    ensures ToLower(ToLower(s)) == ToLower(s)
  {
    var t := ToLower(s);
    assert forall i :: 0 <= i < |t| ==> ToLower(t)[i] == t[i];
  }

  /** A string lower-cases to `t` when each of its characters does. */
  lemma LowersTo(s: string, t: string)
    requires |s| == |t| && forall i :: 0 <= i < |s| ==> LowerChar(s[i]) == t[i]
    ensures ToLower(s) == t
  {
  }

  /**
    The semi-final count (line 53) ignores case: `"Semi-Final"`,
    `"semi-final"` and `"SEMI-FINAL"` all count as semi-finals, and none of
    them as a final.
   */
  lemma SemiFinalSpellings(e: Enriched)
    requires e.row.round == "Semi-Final" || e.row.round == "semi-final" || e.row.round == "SEMI-FINAL"
    ensures IsSemiFinal()(e) && !IsFinal()(e)
  {
    LowersTo(e.row.round, "semi-final");
  }

  /**
    The final count (line 52) does not ignore case: `"Final"` is a final and
    no semi-final, while `"FINAL"` is neither.
   */
  lemma FinalIsCaseSensitive(e: Enriched)
    ensures e.row.round == "Final" ==> IsFinal()(e) && !IsSemiFinal()(e)
    ensures e.row.round == "FINAL" ==> !IsFinal()(e) && !IsSemiFinal()(e)
  {
    ToLowerSpec(e.row.round);
  }

  /** The `agg` list evaluated on one window. */
  function Aggregate(w: seq<Enriched>): Trailing {
    Trailing(
      NUnique(Map(w, EventIdOf())),
      NUnique(Map(Filter(w, IsPodiumRow()), EventIdOf())),
      |Filter(w, IsFinal())|,
      |Filter(w, IsSemiFinal())|,
      if |w| == 0 then None else Some(SumOf(w, CompRankOf()) as real / |w| as real))
  }

  /** The distinct events of a window's rows. */
  function EventSet(w: seq<Enriched>): set<int> {
    set e | e in w :: e.row.eventId
  }

  /** The distinct events of a window's podium rows. */
  function PodiumEventSet(w: seq<Enriched>): set<int> {
    set e | e in w && e.isOnPodium > 0 :: e.row.eventId
  }

  lemma EventsAreDistinctEvents(w: seq<Enriched>)
    ensures Aggregate(w).eventsLastYear == |EventSet(w)|
  {
    NUniqueIsCardinality(Map(w, EventIdOf()));
    MapElements(w, EventIdOf());
    assert Elements(Map(w, EventIdOf())) == EventSet(w);
  }

  lemma PodiumsAreDistinctPodiumEvents(w: seq<Enriched>)
    ensures Aggregate(w).podiumsLastYear == |PodiumEventSet(w)|
  {
    var podium := Filter(w, IsPodiumRow());
    NUniqueIsCardinality(Map(podium, EventIdOf()));
    MapElements(podium, EventIdOf());
    assert Elements(Map(podium, EventIdOf())) == PodiumEventSet(w);
  }

  /**
    `events_last_year` and `podiums_last_year` count distinct events, so a
    window has at least as many events as podium events, and it has no
    events exactly when it is empty (then every count is 0 and the mean is null).
   */
  lemma AggregateCounts(w: seq<Enriched>)
    ensures Aggregate(w).eventsLastYear == |EventSet(w)|
    ensures Aggregate(w).podiumsLastYear == |PodiumEventSet(w)|
    ensures Aggregate(w).podiumsLastYear <= Aggregate(w).eventsLastYear
    ensures Aggregate(w).eventsLastYear == 0 <==> w == []
    ensures Aggregate(w).eventsLastYear == 0 ==>
      Aggregate(w).finalsLastYear == 0 && Aggregate(w).semisLastYear == 0 && Aggregate(w).avgRankLastYear == None
  {
    EventsAreDistinctEvents(w);
    PodiumsAreDistinctPodiumEvents(w);
    SubsetCardinality(PodiumEventSet(w), EventSet(w));
    if w != [] {
      assert w[0].row.eventId in EventSet(w);
    }
  }

  lemma CountPermutation(w1: seq<Enriched>, w2: seq<Enriched>, p: Enriched -> bool)
    requires multiset(w1) == multiset(w2)
    ensures |Filter(w1, p)| == |Filter(w2, p)|
  {
    FilterPermutation(w1, w2, p);
    assert |Filter(w1, p)| == |multiset(Filter(w1, p))|;
    assert |Filter(w2, p)| == |multiset(Filter(w2, p))|;
  }

  /** The aggregates depend only on which rows the window holds, not on their order. */
  lemma AggregatePermutation(w1: seq<Enriched>, w2: seq<Enriched>)
    requires multiset(w1) == multiset(w2)
    ensures Aggregate(w1) == Aggregate(w2)
  {
    EventsAreDistinctEvents(w1);
    EventsAreDistinctEvents(w2);
    PodiumsAreDistinctPodiumEvents(w1);
    PodiumsAreDistinctPodiumEvents(w2);
    SameEventSets(w1, w2);
    CountPermutation(w1, w2, IsFinal());
    CountPermutation(w1, w2, IsSemiFinal());
    assert |w1| == |multiset(w1)| == |multiset(w2)| == |w2|;
    SumOfPermutation(w1, w2, CompRankOf());
  }

  /** Windows with the same rows have the same event sets. */
  lemma SameEventSets(w1: seq<Enriched>, w2: seq<Enriched>)
    requires multiset(w1) == multiset(w2)
    ensures EventSet(w1) == EventSet(w2) && PodiumEventSet(w1) == PodiumEventSet(w2)
  {
    forall e ensures e in w1 <==> e in w2 {
      assert e in w1 <==> e in multiset(w1);
      assert e in w2 <==> e in multiset(w2);
    }
  }

  // ----- the rolling table and its `unique()` -----

  function AggRowAt(sorted: seq<Enriched>, i: nat): AggRow
    requires i < |sorted|
  {
    AggRow(sorted[i].row.athleteId, sorted[i].row.statusAsOf, Aggregate(LookBack(sorted, i)))
  }

  /** `.rolling(...).agg(...)` on the sorted table: one aggregate row per input row. */
  function RollingRows(sorted: seq<Enriched>): (r: seq<AggRow>)
    ensures |r| == |sorted|
  {
    seq(|sorted|, i requires 0 <= i < |sorted| => AggRowAt(sorted, i))
  }

  /** `rolling_data` of lines 41-56. */
  function RollingData(df: seq<Enriched>): seq<AggRow> {
    Dedup(RollingRows(SortByDate(df)))
  }

  function KeyIs(athleteId: int, t: Date): AggRow -> bool {
    (x: AggRow) => x.athleteId == athleteId && x.statusAsOf == t
  }

  /** The rows of `right` whose join key is (`athleteId`, `t`). */
  function Matches(right: seq<AggRow>, athleteId: int, t: Date): seq<AggRow> {
    Filter(right, KeyIs(athleteId, t))
  }

  predicate HasKey(df: seq<Enriched>, athleteId: int, t: Date) {
    exists e :: e in df && e.row.athleteId == athleteId && e.row.statusAsOf == t
  }

  /** Every aggregate row with key (a, t) carries the aggregate of the window of (a, t) over `df`. */
  lemma RollingRowValue(df: seq<Enriched>, x: AggRow)
    requires x in RollingRows(SortByDate(df))
    ensures HasKey(df, x.athleteId, x.statusAsOf)
    ensures x == AggRow(x.athleteId, x.statusAsOf, Aggregate(Window(df, x.athleteId, x.statusAsOf)))
  {
    var sorted := SortByDate(df);
    var i :| 0 <= i < |sorted| && RollingRows(sorted)[i] == x;
    LookBackIsWindow(sorted, i);
    FilterPermutation(sorted, df, InWindow(x.athleteId, x.statusAsOf));
    AggregatePermutation(Window(sorted, x.athleteId, x.statusAsOf), Window(df, x.athleteId, x.statusAsOf));
    assert sorted[i] in multiset(df);
  }

  /**
    After `unique()` the rolling table holds exactly one row for every
    (athlete, date) key of `df`, carrying the aggregates of that key's own
    trailing window, and no row for any other key.
   */
  lemma RollingDataLookup(df: seq<Enriched>, athleteId: int, t: Date)
    ensures Matches(RollingData(df), athleteId, t) ==
      if HasKey(df, athleteId, t) then [AggRow(athleteId, t, Aggregate(Window(df, athleteId, t)))] else []
  {
    var v := AggRow(athleteId, t, Aggregate(Window(df, athleteId, t)));
    var m := Matches(RollingData(df), athleteId, t);
    MatchesAreOwnValue(df, athleteId, t);
    if HasKey(df, athleteId, t) {
      KeyHasRollingRow(df, athleteId, t);
      assert v in m;
      FilterNoDup(RollingData(df), KeyIs(athleteId, t));
      NoDupConstant(m, v);
    } else {
      FilterNone(RollingData(df), KeyIs(athleteId, t));
    }
  }

  /** Every row of the rolling table with key (a, t) is the aggregate row of that key's window. */
  lemma MatchesAreOwnValue(df: seq<Enriched>, athleteId: int, t: Date)
    ensures forall x :: x in Matches(RollingData(df), athleteId, t) ==>
      x == AggRow(athleteId, t, Aggregate(Window(df, athleteId, t))) && HasKey(df, athleteId, t)
  {
    forall x | x in Matches(RollingData(df), athleteId, t)
      ensures x == AggRow(athleteId, t, Aggregate(Window(df, athleteId, t))) && HasKey(df, athleteId, t)
    {
      assert x in RollingData(df);
      RollingRowValue(df, x);
    }
  }

  /** A key of the input has its aggregate row in the rolling table. */
  lemma KeyHasRollingRow(df: seq<Enriched>, athleteId: int, t: Date)
    requires HasKey(df, athleteId, t)
    ensures AggRow(athleteId, t, Aggregate(Window(df, athleteId, t))) in RollingData(df)
  {
    var sorted := SortByDate(df);
    var rows := RollingRows(sorted);
    var e :| e in df && e.row.athleteId == athleteId && e.row.statusAsOf == t;
    assert e in multiset(sorted);
    var i :| 0 <= i < |sorted| && sorted[i] == e;
    assert rows[i] in rows;
    RollingRowValue(df, rows[i]);
  }
}
