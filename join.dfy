/**
  `df.join(rolling_data, on=['athlete_id', 'status_as_of'], how='left')`
  (src/feature_engineering.py:58): every left row is kept, in order; it is
  repeated once per matching right row, and it gets null aggregates when
  nothing matches.
 */
module Join {
  import opened Calendar
  import opened Wrappers
  import opened Seqs
  import opened RowFeatures
  import opened Rolling

  datatype Joined = Joined(base: Enriched, trailing: Option<Trailing>)

  function AttachTo(l: Enriched): AggRow -> Joined {
    (m: AggRow) => Joined(l, Some(m.stats))
  }

  /** The output rows produced by one left row. */
  function JoinRow(l: Enriched, right: seq<AggRow>): seq<Joined> {
    var ms := Matches(right, l.row.athleteId, l.row.statusAsOf);
    if ms == [] then [Joined(l, None)] else Map(ms, AttachTo(l))
  }

  function LeftJoin(left: seq<Enriched>, right: seq<AggRow>): seq<Joined>
    decreases |left|
  {
    if left == [] then [] else JoinRow(left[0], right) + LeftJoin(left[1..], right)
  }

  /** The aggregates a left row with key (`athleteId`, `t`) receives when the key is unique on the right. */
  function Lookup(right: seq<AggRow>, athleteId: int, t: Date): Option<Trailing> {
    var ms := Matches(right, athleteId, t);
    if ms == [] then None else Some(ms[0].stats)
  }

  /**
    When no key has more than one row on the right, the left join keeps the
    row count, keeps the row order, and gives each row the aggregates of its
    own key (null when the key is missing).
   */
  lemma {:induction false} LeftJoinOneToOne(left: seq<Enriched>, right: seq<AggRow>)
    requires forall l :: l in left ==> |Matches(right, l.row.athleteId, l.row.statusAsOf)| <= 1
    ensures |LeftJoin(left, right)| == |left|
    ensures forall i :: 0 <= i < |left| ==>
      LeftJoin(left, right)[i] == Joined(left[i], Lookup(right, left[i].row.athleteId, left[i].row.statusAsOf))
    decreases |left|
  {
    if left != [] {
      assert left[0] in left;
      JoinRowUnique(left[0], right);
      LeftJoinOneToOne(left[1..], right);
      forall i | 0 < i < |left|
        ensures LeftJoin(left, right)[i] == Joined(left[i], Lookup(right, left[i].row.athleteId, left[i].row.statusAsOf))
      {
        assert left[i] == left[1..][i - 1];
      }
    }
  }

  /** A left row whose key has at most one match gives exactly one output row. */
  lemma JoinRowUnique(l: Enriched, right: seq<AggRow>)
    requires |Matches(right, l.row.athleteId, l.row.statusAsOf)| <= 1
    ensures JoinRow(l, right) == [Joined(l, Lookup(right, l.row.athleteId, l.row.statusAsOf))]
  {
  }

  /** A key matched twice on the right makes the left join produce an extra row. */
  lemma LeftJoinDuplicatesRows(l: Enriched, m: AggRow)
    requires m.athleteId == l.row.athleteId && m.statusAsOf == l.row.statusAsOf
    ensures |LeftJoin([l], [m, m])| == 2
  {
    assert Matches([m, m], l.row.athleteId, l.row.statusAsOf) == [m, m];
    assert LeftJoin([l], [m, m]) == JoinRow(l, [m, m]) + LeftJoin([], [m, m]);
  }
}
