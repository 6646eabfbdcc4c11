/**
 * The boundary to SQL Server and to the HTTP client. `DB::connection(c)->select(sql, params)`
 * is an oracle the controllers receive as a function from the call they make to its
 * outcome; every controller also returns the calls it made, in order.
 */
module Database {
  import opened Wrappers

  /** The query texts the controllers send, identified by the values spliced into them. */
  datatype Sql =
    | DailyReportSql(dbName: string)
    | MonthlyReportSql(dbName: string, month: string)
    | HistoricWellIdsSql
    | WellListSql(text: string)

  /** One `DB::connection(connection)->select(sql, params)`. */
  datatype Call = Call(connection: string, sql: Sql, params: seq<string>)

  /** What a select gives back: the rows, or the message of the exception it raised. */
  datatype Outcome<+T> = Rows(rows: T) | Raised(message: string)

  /**
   * What a controller action ends with: `response()->json(body, status)`, or an
   * exception that leaves the action uncaught.
   */
  datatype Response<+B> = Json(status: int, body: B) | Thrown(message: string)

  /**
   * One row of a report query's Promedios subquery: the well's name and, for each
   * tag that has samples in the bucket, their average (in tenths, already rounded).
   */
  datatype Averages = Averages(pozo: string, byTag: map<string, int>)

  /** ROUND(ISNULL(P.<tag average>, 0), 1) for a bucket that may have no Promedios row. */
  function Reading(bucket: Option<Averages>, tag: string): int
  {
    if bucket.Some? && tag in bucket.value.byTag then bucket.value.byTag[tag] else 0
  }
}
