/**
 * GenerarReporteController: the daily report. For each requested well one query
 * returns the well's 24 hourly rows; each non-empty result becomes an entry
 * `{nombrePozo, reporte: 'Diario', registros}`, and any exception aborts the request.
 */
module DailyReport {
  import opened Wrappers
  import opened Text
  import opened Php
  import opened Database
  import opened Connections

  /** Sensor columns of a report row and the tag each averages, in SELECT order. */
  const Columns: seq<(string, string)> := [
    ("Presion_TP", "PRESION_TP"),
    ("Presion_TR", "PRESION_TR"),
    ("LDD", "PRESION_LE"),
    ("Temperatura_Pozo", "TEMP_LE"),
    ("Presion_Succion", "PRESION_SUCCION"),
    ("Presion_Descarga", "PRESION_ESTATICA_DESCARGA"),
    ("Velocidad", "VELOCIDAD"),
    ("Temp_Descarga", "TEMPERATURA_DESCARGA"),
    ("Temp_Succion", "TEMPERATURA_SUCCION"),
    ("Qiny", "FLUJO_CORREGIDO_DESCARGA")
  ]

  /** One row of the report query: Pozo, Hora, Hora_Formato and the sensor columns. */
  datatype HourRow = HourRow(pozo: string, hora: int, horaFormato: string, readings: seq<int>)

  /** One element of the response array. */
  datatype Entry = Entry(nombrePozo: string, reporte: string, registros: seq<HourRow>)

  /** The integers lo, lo + 1, ..., hi - 1. */
  function Range(lo: int, hi: int): (r: seq<int>)
    ensures |r| == if lo < hi then hi - lo else 0
    ensures forall i :: 0 <= i < |r| ==> r[i] == lo + i
    decreases hi - lo
  {
    if lo >= hi then [] else [lo] + Range(lo + 1, hi)
  }

  /**
   * The Horas CTE ordered by hour: row numbers of master..spt_values minus one,
   * kept between 0 and 23.
   */
  function HourSkeleton(): (hours: seq<int>)
    ensures |hours| == 24
    ensures forall i :: 0 <= i < 24 ==> hours[i] == i
  {
    Range(0, 24)
  }

  /** RIGHT('00' + CAST(h AS VARCHAR(2)), 2) + ':00'. */
  function HourLabel(h: nat): (s: string)
    requires h < 100
    ensures |s| == 5 && AllDigits(s[..2]) && s[2..] == ":00"
    ensures DigitsValue(s[..2]) == h
  {
    RightPadTwo(h);
    assert Pow10(2) == 100;
    ZeroPadValue(h, 2);
    var s := Right("00" + NatText(h), 2) + ":00";
    assert s[..2] == ZeroPad(h, 2);
    s
  }

  /** The skeleton hour h left-joined to its Promedios row, if any. */
  function HourRowOf(promedios: map<int, Averages>, h: nat): (row: HourRow)
    requires h < 24
    ensures row.hora == h && row.horaFormato == HourLabel(h)
    ensures row.pozo == if h in promedios then promedios[h].pozo else "Sin Datos"
    ensures |row.readings| == |Columns|
    ensures forall k :: 0 <= k < |Columns| ==>
      row.readings[k] == (if h in promedios && Columns[k].1 in promedios[h].byTag then promedios[h].byTag[Columns[k].1] else 0)
  {
    var bucket := if h in promedios then Some(promedios[h]) else None;
    HourRow(bucket.GetOr(Averages("Sin Datos", map[])).pozo, h, HourLabel(h),
            seq(|Columns|, k requires 0 <= k < |Columns| => Reading(bucket, Columns[k].1)))
  }

  /**
   * The rows the report query returns for one well and date, given the per-hour
   * averages of that well's samples on that date.
   */
  function DailyRows(promedios: map<int, Averages>): (rows: seq<HourRow>)
    ensures |rows| == 24
    ensures forall i :: 0 <= i < 24 ==> rows[i] == HourRowOf(promedios, i)
  {
    var hours := HourSkeleton();
    seq(24, i requires 0 <= i < 24 => HourRowOf(promedios, hours[i]))
  }

  /** The skeleton makes every well's result complete: hours 0..23 ascending, each labelled 'HH:00'. */
  lemma DailyRowsComplete(promedios: map<int, Averages>)
    ensures DailyRows(promedios) != []
    ensures forall i :: 0 <= i < 24 ==>
      DailyRows(promedios)[i].hora == i && DigitsValue(DailyRows(promedios)[i].horaFormato[..2]) == i
    ensures forall i, j :: 0 <= i < j < 24 ==> DailyRows(promedios)[i].hora < DailyRows(promedios)[j].hora
  {
  }

  /** Hours with no samples read 0 in every column and carry the name 'Sin Datos'. */
  lemma EmptyHourDefaults(promedios: map<int, Averages>, h: nat)
    requires h < 24 && h !in promedios
    ensures DailyRows(promedios)[h].pozo == "Sin Datos"
    ensures forall k :: 0 <= k < |Columns| ==> DailyRows(promedios)[h].readings[k] == 0
  {
  }

  /** A well with only PRESION_TP samples, all in hour 5, reads them there and 0 everywhere else. */
  lemma PartialHourScenario(name: string, tenths: int)
    ensures var rows := DailyRows(map[5 := Averages(name, map["PRESION_TP" := tenths])]);
      |rows| == 24
      && rows[5].readings[0] == tenths
      && (forall k :: 1 <= k < |Columns| ==> rows[5].readings[k] == 0)
      && (forall h, k :: 0 <= h < 24 && h != 5 && 0 <= k < |Columns| ==> rows[h].readings[k] == 0)
  {
    var p := map[5 := Averages(name, map["PRESION_TP" := tenths])];
    forall k | 1 <= k < |Columns|
      ensures Columns[k].1 != "PRESION_TP"
    {
    }
  }

  /** The query run for one well: construirConsulta's text with [pozoId, fecha, fecha]. */
  function DailyCall(conexion: string, pozoId: string, fecha: string): (call: Call)
    ensures call.connection == conexion && call.sql == DailyReportSql(conexion)
    ensures call.params == [pozoId, fecha, fecha]
  {
    Call(conexion, DailyReportSql(conexion), [pozoId, fecha, fecha])
  }

  /** The entry made from a non-empty result. */
  function EntryOf(rows: seq<HourRow>): (e: Entry)
    requires rows != []
    ensures e.nombrePozo == rows[0].pozo && e.reporte == "Diario" && e.registros == rows
  {
    Entry(rows[0].pozo, "Diario", rows)
  }

  type DailyDb = Call -> Outcome<seq<HourRow>>

  /**
   * generarReportePorPozos over the first wells: the report built so far (or the
   * exception that ended it) and the queries run.
   */
  function ReportRun(db: DailyDb, conexion: string, ids: seq<string>, fecha: string): (r: (Outcome<seq<Entry>>, seq<Call>))
    ensures |r.1| <= |ids|
    ensures r.0.Rows? ==> |r.0.rows| <= |r.1|
    decreases |ids|
  {
    if ids == [] then (Rows([]), [])
    else
      var (out, calls) := ReportRun(db, conexion, ids[..|ids| - 1], fecha);
      if out.Raised? then (out, calls)
      else
        var call := DailyCall(conexion, ids[|ids| - 1], fecha);
        match db(call)
        case Raised(m) => (Raised(m), calls + [call])
        case Rows(rows) => (Rows(if rows == [] then out.rows else out.rows + [EntryOf(rows)]), calls + [call])
  }

  /** generarReportePorPozos: one query per well, in order; an exception ends the loop. */
  method ReportForWells(db: DailyDb, conexion: string, ids: seq<string>, fecha: string)
    returns (out: Outcome<seq<Entry>>, calls: seq<Call>)
    ensures (out, calls) == ReportRun(db, conexion, ids, fecha)
  {
    var reporte: seq<Entry> := [];
    calls := [];
    var i := 0;
    while i < |ids|
      invariant 0 <= i <= |ids|
      invariant ReportRun(db, conexion, ids[..i], fecha) == (Rows(reporte), calls)
    {
      assert ids[..i + 1][..i] == ids[..i];
      var call := DailyCall(conexion, ids[i], fecha);
      var consulta := db(call);
      calls := calls + [call];
      if consulta.Raised? {
        out := Raised(consulta.message);
        RunStopsAtFailure(db, conexion, ids, fecha, i + 1);
        return;
      }
      if consulta.rows != [] {
        reporte := reporte + [EntryOf(consulta.rows)];
      }
      i := i + 1;
    }
    assert ids[..i] == ids;
    out := Rows(reporte);
  }

  /** Once a query has raised, the later wells change nothing. */
  lemma {:induction false} RunStopsAtFailure(db: DailyDb, conexion: string, ids: seq<string>, fecha: string, n: nat)
    requires n <= |ids| && ReportRun(db, conexion, ids[..n], fecha).0.Raised?
    ensures ReportRun(db, conexion, ids, fecha) == ReportRun(db, conexion, ids[..n], fecha)
    decreases |ids| - n
  {
    if n < |ids| {
      assert ids[..n + 1][..n] == ids[..n];
      RunStopsAtFailure(db, conexion, ids, fecha, n + 1);
    } else {
      assert ids[..n] == ids;
    }
  }

  /** The queries for the given wells, one each, in order. */
  function CallsFor(conexion: string, ids: seq<string>, fecha: string): (calls: seq<Call>)
    ensures |calls| == |ids|
    ensures forall i :: 0 <= i < |ids| ==> calls[i] == DailyCall(conexion, ids[i], fecha)
  {
    seq(|ids|, i requires 0 <= i < |ids| => DailyCall(conexion, ids[i], fecha))
  }

  /** The report when no query raises: an entry for each non-empty result, in well order. */
  function Entries(db: DailyDb, conexion: string, ids: seq<string>, fecha: string): (es: seq<Entry>)
    ensures |es| <= |ids|
    ensures forall j :: 0 <= j < |es| ==> es[j].reporte == "Diario" && es[j].registros != []
    decreases |ids|
  {
    if ids == [] then []
    else
      var rest := Entries(db, conexion, ids[..|ids| - 1], fecha);
      match db(DailyCall(conexion, ids[|ids| - 1], fecha))
      case Rows(rows) => if rows == [] then rest else rest + [EntryOf(rows)]
      case Raised(_) => rest
  }

  /**
   * The loop runs the wells' queries in order and stops at the first one that
   * raises, whose message becomes the outcome; when none raises the outcome is
   * the entries of the non-empty results.
   */
  lemma {:induction false} ReportRunSpec(db: DailyDb, conexion: string, ids: seq<string>, fecha: string)
    ensures var (out, calls) := ReportRun(db, conexion, ids, fecha);
      && (forall i :: 0 <= i < |calls| ==> calls[i] == DailyCall(conexion, ids[i], fecha))
      && (forall i :: 0 <= i < |calls| - 1 ==> db(calls[i]).Rows?)
      && (out.Raised? ==> |calls| >= 1 && db(calls[|calls| - 1]) == Raised(out.message))
      && (out.Rows? ==> |calls| == |ids| && (forall i :: 0 <= i < |ids| ==> db(calls[i]).Rows?)
                        && out.rows == Entries(db, conexion, ids, fecha))
    decreases |ids|
  {
    if ids != [] {
      var prefix := ids[..|ids| - 1];
      ReportRunSpec(db, conexion, prefix, fecha);
      var (out, calls) := ReportRun(db, conexion, prefix, fecha);
      if out.Rows? {
        var call := DailyCall(conexion, ids[|ids| - 1], fecha);
        assert ReportRun(db, conexion, ids, fecha).1 == calls + [call];
      } else {
        assert ReportRun(db, conexion, ids, fecha) == (out, calls);
      }
    }
  }

  /** The wells' results as the report query computes them, from each well's hourly averages. */
  ghost predicate AnswersBySkeleton(db: DailyDb, conexion: string, ids: seq<string>, fecha: string,
                                    promedios: string -> map<int, Averages>)
  {
    forall i :: 0 <= i < |ids| ==> db(DailyCall(conexion, ids[i], fecha)) == Rows(DailyRows(promedios(ids[i])))
  }

  /** The report when every well's query answers with at least one row. */
  function AnsweredReport(db: DailyDb, conexion: string, ids: seq<string>, fecha: string): (es: seq<Entry>)
    requires forall i :: 0 <= i < |ids| ==> db(DailyCall(conexion, ids[i], fecha)).Rows? && db(DailyCall(conexion, ids[i], fecha)).rows != []
    ensures |es| == |ids|
  {
    seq(|ids|, i requires 0 <= i < |ids| => EntryOf(db(DailyCall(conexion, ids[i], fecha)).rows))
  }

  /** When every query answers with rows, the report has one entry per well, in order. */
  lemma {:induction false} AllWellsAnswered(db: DailyDb, conexion: string, ids: seq<string>, fecha: string)
    requires forall i :: 0 <= i < |ids| ==> db(DailyCall(conexion, ids[i], fecha)).Rows? && db(DailyCall(conexion, ids[i], fecha)).rows != []
    ensures ReportRun(db, conexion, ids, fecha) == (Rows(AnsweredReport(db, conexion, ids, fecha)), CallsFor(conexion, ids, fecha))
    decreases |ids|
  {
    if ids != [] {
      var prefix := ids[..|ids| - 1];
      var last := ids[|ids| - 1];
      assert forall i :: 0 <= i < |prefix| ==> prefix[i] == ids[i];
      AllWellsAnswered(db, conexion, prefix, fecha);
      assert AnsweredReport(db, conexion, ids, fecha)
          == AnsweredReport(db, conexion, prefix, fecha) + [EntryOf(db(DailyCall(conexion, last, fecha)).rows)];
      assert CallsFor(conexion, ids, fecha) == CallsFor(conexion, prefix, fecha) + [DailyCall(conexion, last, fecha)];
    }
  }

  /**
   * Because the hour skeleton never yields an empty result, every requested well
   * gets an entry, in request order, named after its hour-0 row: 'Sin Datos' when
   * hour 0 has no samples, even if other hours do.
   */
  lemma EveryWellReported(db: DailyDb, conexion: string, ids: seq<string>, fecha: string,
                          promedios: string -> map<int, Averages>)
    requires AnswersBySkeleton(db, conexion, ids, fecha, promedios)
    ensures ReportRun(db, conexion, ids, fecha).1 == CallsFor(conexion, ids, fecha)
    ensures ReportRun(db, conexion, ids, fecha).0.Rows?
    ensures |ReportRun(db, conexion, ids, fecha).0.rows| == |ids|
    ensures forall i :: 0 <= i < |ids| ==>
      var e := ReportRun(db, conexion, ids, fecha).0.rows[i];
      && e.reporte == "Diario"
      && e.registros == DailyRows(promedios(ids[i]))
      && e.nombrePozo == (if 0 in promedios(ids[i]) then promedios(ids[i])[0].pozo else "Sin Datos")
  {
    AllWellsAnswered(db, conexion, ids, fecha);
  }

  /** The response body: `{error, conexiones_disponibles}`, the report array, or `{success: false, data: [], error}`. */
  datatype DailyBody = Rejected(rejection: Rejection) | Report(entries: seq<Entry>) | Failure(error: string)

  /**
   * generarReporteConexion: 400 before any query when the connection is not allowed;
   * 200 with [] before any query when Pozos or Fecha is empty; otherwise the loop's
   * report with 200, or 500 with the message of the exception that ended it.
   */
  method GenerateDailyReport(db: DailyDb, conexion: Option<string>, pozos: seq<string>, fecha: Option<string>)
    returns (resp: Response<DailyBody>, calls: seq<Call>)
    ensures ConnectionRejected(conexion) ==> resp == Json(400, Rejected(RejectionBody())) && calls == []
    ensures !ConnectionRejected(conexion) && (pozos == [] || Falsy(fecha)) ==> resp == Json(200, Report([])) && calls == []
    ensures !ConnectionRejected(conexion) && pozos != [] && !Falsy(fecha) ==>
      var (out, run) := ReportRun(db, conexion.value, pozos, fecha.value);
      && calls == run
      && resp == (if out.Rows? then Json(200, Report(out.rows)) else Json(500, Failure(out.message)))
  {
    if Falsy(conexion) || !IsValidConnection(conexion.value) {
      return Json(400, Rejected(RejectionBody())), [];
    }
    var c := ResolveConnection(conexion.value).value;
    if pozos == [] || Falsy(fecha) {
      return Json(200, Report([])), [];
    }
    var out;
    out, calls := ReportForWells(db, c, pozos, fecha.value);
    if out.Rows? {
      resp := Json(200, Report(out.rows));
    } else {
      resp := Json(500, Failure(out.message));
    }
  }
}