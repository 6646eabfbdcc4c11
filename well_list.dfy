/**
 * The well list endpoint: the ids of the wells that have historic tag values are
 * loaded with one query, cast to integers, and spliced into the text of a second
 * query that returns those wells' ids and names.
 */
module WellList {
  import opened Wrappers
  import opened Text
  import opened Php
  import opened Database
  import opened Connections

  /** The query sent when no well has historic values: it can return no row. */
  const NoWellsQuery: string := "select IdPozo, NombrePozo from [t_Instalacion.Pozos] where 1=0"

  /** The text before the comma-separated id list of the IN query. */
  const InListPrefix: string := "select IdPozo, NombrePozo from [t_Instalacion.Pozos] where IdPozo IN ("

  /** One row of the historic query: COUNT(IdPozo) AS ID and IdPozo, the latter as the driver hands it over. */
  datatype IdRow = IdRow(id: int, idPozo: string)

  /** One row of the well list: IdPozo and NombrePozo. */
  datatype WellRow = WellRow(idPozo: int, nombrePozo: string)

  /** `(int) $item->IdPozo` for every row, in order. */
  function LoadIds(rows: seq<IdRow>): (ids: seq<int>)
    ensures |ids| == |rows|
    ensures forall i :: 0 <= i < |rows| ==> ids[i] == IntCast(rows[i].idPozo)
    decreases |rows|
  {
    if rows == [] then [] else [IntCast(rows[0].idPozo)] + LoadIds(rows[1..])
  }

  /** Each row's IdPozo is the decimal text of the corresponding id. */
  predicate PrintedAs(rows: seq<IdRow>, ids: seq<int>)
  {
    |rows| == |ids| && forall i :: 0 <= i < |rows| ==> rows[i].idPozo == IntText(ids[i])
  }

  /** When the driver hands over each id as its decimal text, the cast gives the ids back. */
  lemma LoadIdsCanonical(rows: seq<IdRow>, ids: seq<int>)
    requires PrintedAs(rows, ids)
    ensures LoadIds(rows) == ids
  {
    forall i | 0 <= i < |rows|
      ensures LoadIds(rows)[i] == ids[i]
    {
      IntCastIntText(ids[i]);
    }
  }

  /** The decimal text PHP prints for each id when it converts it to a string. */
  function IdTexts(ids: seq<int>): (ts: seq<string>)
    ensures |ts| == |ids|
    ensures forall i :: 0 <= i < |ids| ==> ts[i] == IntText(ids[i])
    decreases |ids|
  {
    if ids == [] then [] else [IntText(ids[0])] + IdTexts(ids[1..])
  }

  /** `(int)` applied to each piece. */
  function Casts(ts: seq<string>): (ns: seq<int>)
    ensures |ns| == |ts|
    ensures forall i :: 0 <= i < |ts| ==> ns[i] == IntCast(ts[i])
    decreases |ts|
  {
    if ts == [] then [] else [IntCast(ts[0])] + Casts(ts[1..])
  }

  /** construirConsulta: the `where 1=0` query for no ids, else an IN over the ids joined by ','. */
  function BuildQuery(ids: seq<int>): (sql: string)
    ensures ids == [] ==> sql == NoWellsQuery
    ensures ids != [] ==> |sql| > |InListPrefix| && sql[..|InListPrefix|] == InListPrefix && sql[|sql| - 1] == ')'
  {
    if ids == [] then NoWellsQuery
    else InListPrefix + Implode(',', IdTexts(ids)) + ")"
  }

  /** The characters an id list can hold: digits, the minus sign and the separator. */
  predicate IdListChar(c: char)
  {
    IsDigit(c) || c == '-' || c == ','
  }

  /** The ids a query text selects, read back from the text; None for a text of neither shape. */
  function IdsOfQuery(sql: string): (r: Option<seq<int>>)
    ensures r == Some([]) <==> sql == NoWellsQuery
  {
    if sql == NoWellsQuery then Some([])
    else if |sql| > |InListPrefix| && sql[..|InListPrefix|] == InListPrefix && sql[|sql| - 1] == ')' then
      Some(Casts(Explode(',', sql[|InListPrefix|..|sql| - 1])))
    else None
  }

  /** An id's decimal text never holds the separator. */
  lemma NoCommaInIdText(n: int)
    ensures ',' !in IntText(n)
  {
    var s := IntText(n);
    forall i | 0 <= i < |s|
      ensures s[i] != ','
    {
    }
  }

  /** A text made of id characters only. */
  predicate IdListText(s: string)
  {
    forall k :: 0 <= k < |s| ==> IdListChar(s[k])
  }

  /** Joining pieces made of id characters with ',' yields only id characters. */
  lemma {:induction false} ImplodeIdChars(parts: seq<string>)
    requires forall i :: 0 <= i < |parts| ==> IdListText(parts[i])
    ensures IdListText(Implode(',', parts))
    decreases |parts|
  {
    if |parts| > 1 {
      ImplodeIdChars(parts[1..]);
      var s := Implode(',', parts);
      var rest := Implode(',', parts[1..]);
      assert s == parts[0] + [','] + rest;
      forall k | 0 <= k < |s|
        ensures IdListChar(s[k])
      {
        if k < |parts[0]| {
          assert s[k] == parts[0][k];
        } else if k > |parts[0]| {
          assert s[k] == rest[k - |parts[0]| - 1];
        }
      }
    }
  }

  /** Where the body of `pre + body + ")"` sits, and what its first and last characters are. */
  lemma Splice(pre: string, body: string)
    ensures var s := pre + body + ")";
      |s| == |pre| + |body| + 1
      && (forall k :: |pre| <= k < |s| - 1 ==> s[k] == body[k - |pre|])
  {
  }

  /**
   * The text spliced between `IN (` and `)` is made of digits, minus signs and
   * commas only: nothing from the historic table can change the query's shape.
   */
  lemma InListCharset(ids: seq<int>)
    requires ids != []
    ensures var sql := BuildQuery(ids);
      forall k :: |InListPrefix| <= k < |sql| - 1 ==> IdListChar(sql[k])
  {
    var ts := IdTexts(ids);
    IdTextChars(ids);
    ImplodeIdChars(ts);
    var body := Implode(',', ts);
    assert BuildQuery(ids) == InListPrefix + body + ")";
    Splice(InListPrefix, body);
  }

  /** Every id's decimal text is made of id characters. */
  lemma IdTextChars(ids: seq<int>)
    ensures var ts := IdTexts(ids);
      forall i :: 0 <= i < |ts| ==> IdListText(ts[i])
  {
    var ts := IdTexts(ids);
    forall i | 0 <= i < |ts|
      ensures IdListText(ts[i])
    {
      var t := IntText(ids[i]);
      assert ts[i] == t;
      forall j | 0 <= j < |t|
        ensures IdListChar(t[j])
      {
        assert IsDigit(t[j]) || t[j] == '-';
      }
    }
  }

  /** The id list neither starts nor ends with the separator. */
  lemma InListEnds(ids: seq<int>)
    requires ids != []
    ensures var sql := BuildQuery(ids);
      |sql| >= |InListPrefix| + 2 && sql[|InListPrefix|] != ',' && sql[|sql| - 2] != ','
  {
    var ts := IdTexts(ids);
    ImplodeEnds(',', ts);
    var body := Implode(',', ts);
    assert BuildQuery(ids) == InListPrefix + body + ")";
    Splice(InListPrefix, body);
    var first, last := ts[0], ts[|ts| - 1];
    NoCommaInIdText(ids[0]);
    NoCommaInIdText(ids[|ids| - 1]);
    assert first[0] in first;
    assert last[|last| - 1] in last;
  }

  /** An IN query's text reads back as the casts of the pieces between its parentheses. */
  lemma InListReadBack(body: string)
    ensures IdsOfQuery(InListPrefix + body + ")") == Some(Casts(Explode(',', body)))
  {
    var sql := InListPrefix + body + ")";
    assert |NoWellsQuery| < |InListPrefix|;
    assert sql != NoWellsQuery;
    assert sql[..|InListPrefix|] == InListPrefix;
    assert sql[|InListPrefix|..|sql| - 1] == body;
  }

  /** Reading the query text back gives exactly the ids it was built from. */
  lemma QueryRoundTrip(ids: seq<int>)
    ensures IdsOfQuery(BuildQuery(ids)) == Some(ids)
  {
    if ids != [] {
      var ts := IdTexts(ids);
      var body := Implode(',', ts);
      assert BuildQuery(ids) == InListPrefix + body + ")";
      InListReadBack(body);
      forall i | 0 <= i < |ts|
        ensures ',' !in ts[i]
      {
        NoCommaInIdText(ids[i]);
      }
      ExplodeImplode(',', ts);
      assert Explode(',', body) == ts;
      forall i | 0 <= i < |ids|
        ensures Casts(ts)[i] == ids[i]
      {
        IntCastIntText(ids[i]);
      }
      assert Casts(ts) == ids;
    }
  }

  /** Different id lists give different query texts. */
  lemma BuildQueryInjective(a: seq<int>, b: seq<int>)
    requires BuildQuery(a) == BuildQuery(b)
    ensures a == b
  {
    QueryRoundTrip(a);
    QueryRoundTrip(b);
  }

  /** The oracle for the historic query and the oracle for the well list query. */
  type IdsDb = Call -> Outcome<seq<IdRow>>
  type WellsDb = Call -> Outcome<seq<WellRow>>

  function HistoricCall(conexion: string): (call: Call)
    ensures call.connection == conexion && call.params == []
  {
    Call(conexion, HistoricWellIdsSql, [])
  }

  function WellListCall(conexion: string, ids: seq<int>): (call: Call)
    ensures call.connection == conexion && call.params == []
    ensures call.sql == WellListSql(BuildQuery(ids))
  {
    Call(conexion, WellListSql(BuildQuery(ids)), [])
  }

  /** The response bodies: the 400 rejection, the list of wells, or `{success: false, data: [], error}`. */
  datatype WellsBody = Rejected(Rejection) | Wells(wells: seq<WellRow>) | Failure(error: string)

  /**
   * The try block of obtenerPozos on a resolved connection: the historic ids, then
   * the well list for them with 200; an exception from either query ends it with
   * 500 and its message.
   */
  function ListWells(idsDb: IdsDb, wellsDb: WellsDb, c: string): (r: (Response<WellsBody>, seq<Call>))
    ensures r.0.Json? && (r.0.status == 200 || r.0.status == 500)
    ensures |r.1| >= 1 && r.1[0] == HistoricCall(c)
    ensures r.0.status == 200 ==> |r.1| == 2 && wellsDb(r.1[1]).Rows? && r.0.body == Wells(wellsDb(r.1[1]).rows)
    ensures r.0.status == 500 ==>
      || (|r.1| == 1 && idsDb(r.1[0]).Raised? && r.0.body == Failure(idsDb(r.1[0]).message))
      || (|r.1| == 2 && wellsDb(r.1[1]).Raised? && r.0.body == Failure(wellsDb(r.1[1]).message))
  {
    var first := HistoricCall(c);
    var consulta := idsDb(first);
    if consulta.Raised? then
      (Json(500, Failure(consulta.message)), [first])
    else
      var second := WellListCall(c, LoadIds(consulta.rows));
      var pozos := wellsDb(second);
      if pozos.Raised? then
        (Json(500, Failure(pozos.message)), [first, second])
      else
        (Json(200, Wells(pozos.rows)), [first, second])
  }

  /** obtenerPozos: 400 before any query for a missing or unknown connection, else the queries on it. */
  function ObtenerPozos(idsDb: IdsDb, wellsDb: WellsDb, conexion: Option<string>): (r: (Response<WellsBody>, seq<Call>))
    ensures ConnectionRejected(conexion) <==> r.0 == Json(400, Rejected(RejectionBody()))
    ensures ConnectionRejected(conexion) ==> r.1 == []
    ensures !ConnectionRejected(conexion) ==> r == ListWells(idsDb, wellsDb, conexion.value)
  {
    if Falsy(conexion) || !IsValidConnection(conexion.value) then
      (Json(400, Rejected(RejectionBody())), [])
    else
      ListWells(idsDb, wellsDb, ResolveConnection(conexion.value).value)
  }

  /**
   * On a resolved connection the outcome is decided by the two queries: 200 with
   * the second query's rows exactly when both answer, and the second query asks
   * for precisely the ids loaded from the first.
   */
  lemma ListQueryFollowsHistory(idsDb: IdsDb, wellsDb: WellsDb, c: string)
    ensures var (resp, calls) := ListWells(idsDb, wellsDb, c);
      var first := idsDb(HistoricCall(c));
      && (first.Raised? ==> calls == [HistoricCall(c)] && resp == Json(500, Failure(first.message)))
      && (first.Rows? ==>
            |calls| == 2
            && calls[1].connection == c
            && calls[1].sql.WellListSql?
            && IdsOfQuery(calls[1].sql.text) == Some(LoadIds(first.rows))
            && (resp.status == 200 <==> wellsDb(calls[1]).Rows?))
  {
    var first := idsDb(HistoricCall(c));
    if first.Rows? {
      QueryRoundTrip(LoadIds(first.rows));
    }
  }

  /** A database with no historic values sends the `where 1=0` query. */
  lemma NoHistoryNoWells(idsDb: IdsDb, wellsDb: WellsDb, c: string)
    requires idsDb(HistoricCall(c)) == Rows([])
    ensures ListWells(idsDb, wellsDb, c).1 == [HistoricCall(c), Call(c, WellListSql(NoWellsQuery), [])]
  {
  }

  /** When the driver hands over ids as decimal text, the list query selects exactly those integers. */
  lemma ListQuerySelectsHistoricIds(idsDb: IdsDb, wellsDb: WellsDb, c: string, ids: seq<int>)
    requires idsDb(HistoricCall(c)).Rows?
    requires PrintedAs(idsDb(HistoricCall(c)).rows, ids)
    ensures ListWells(idsDb, wellsDb, c).1 == [HistoricCall(c), WellListCall(c, ids)]
  {
    LoadIdsCanonical(idsDb(HistoricCall(c)).rows, ids);
  }
}
