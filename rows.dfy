/**
  The event-result table: one row per (athlete, event, discipline category,
  round), and the type conversion `Features._convert_data_types`
  (src/feature_engineering.py:85-92) that runs first in the feature builder.
 */
module Rows {
  import opened Calendar
  import opened Wrappers
  import opened Seqs

  /**
    One row of the raw table. Dates arrive as calendar fields (the text
    parse itself is not modelled); `firstSeason` is still an unconstrained
    integer until the `UInt32` cast. `other` stands for every further column,
    which the feature builder passes through untouched.
   */
  datatype Row = Row(
    eventId: int,
    athleteId: int,
    athleteCountry: string,
    dcat: string,
    round: string,
    score: string,
    roundRank: int,
    compRank: int,
    statusAsOf: Date,
    birthday: Date,
    firstSeason: int,
    other: seq<string>)

  datatype Error =
    | ParseError(column: string)
    | CastError(column: string)
    | EmptyTable

  /** Exclusive upper bound of polars `UInt32`. */
  const UInt32Limit: int := 0x1_0000_0000

  /** A row whose three converted columns hold values of their target types. */
  predicate Typed(r: Row) {
    Valid(r.statusAsOf) && Valid(r.birthday) && 0 <= r.firstSeason < UInt32Limit
  }

  predicate AllTyped(df: seq<Row>) {
    forall r :: r in df ==> Typed(r)
  }

  /**
    The conversion works column by column, in the order status_as_of,
    birthday, first_season; the first column holding a bad value names the
    error. A successful conversion changes no value.
   */
  function ConvertTypes(df: seq<Row>): (res: Result<seq<Row>, Error>)
    ensures res.Ok? <==> AllTyped(df)
    ensures res.Ok? ==> res.value == df
    ensures res == Err(ParseError("status_as_of")) <==> exists r :: r in df && !Valid(r.statusAsOf)
    ensures res == Err(ParseError("birthday")) <==>
      (forall r :: r in df ==> Valid(r.statusAsOf)) && exists r :: r in df && !Valid(r.birthday)
    ensures res == Err(CastError("first_season")) <==>
      (forall r :: r in df ==> Valid(r.statusAsOf) && Valid(r.birthday)) &&
      exists r :: r in df && !(0 <= r.firstSeason < UInt32Limit)
  {
    if exists r :: r in df && !Valid(r.statusAsOf) then Err(ParseError("status_as_of"))
    else if exists r :: r in df && !Valid(r.birthday) then Err(ParseError("birthday"))
    else if exists r :: r in df && !(0 <= r.firstSeason < UInt32Limit) then Err(CastError("first_season"))
    else Ok(df)
  }
}
