/**
 * GenerarReporteMensual: the monthly report. For each requested well one query
 * returns a row per day of the month; each non-empty result is stored under the
 * name in its first row, so a later well with the same name replaces an earlier
 * one. Nothing catches an exception from a query.
 */
module MonthlyReport {
  import opened Wrappers
  import opened Text
  import opened Php
  import opened Calendar
  import opened Database
  import opened Connections

  /** Sensor columns of a report row and the tag each averages, in SELECT order. */
  const Columns: seq<(string, string)> := [
    ("Presion_TP", "PRESION_TP"),
    ("Presion_TR", "PRESION_TR"),
    ("LDD", "TAG_LDD"),
    ("Temperatura_Pozo", "TAG_TEMPPozo"),
    ("Temp_LE", "TEMPERATURA_SUCCION"),
    ("Temp_Descarga", "TEMPERATURA_DESCARGA"),
    ("Presion_Succion", "PRESION_SUCCION"),
    ("Presion_Estatica_Descarga", "PRESION_ESTATICA_DESCARGA"),
    ("Velocidad", "VELOCIDAD"),
    ("Temperatura_Descarga", "TAG_TempDescarga"),
    ("Temperatura_Succion", "TAG_TempSuccion")
  ]

  /** One row of the report query: Pozo, Fecha, Fecha_Formato, Dia_Semana and the sensor columns. */
  datatype DayRow = DayRow(pozo: string, fecha: Date, fechaFormato: string, diaSemana: Weekday, readings: seq<int>)

  /** `DECLARE @Mes VARCHAR(7) = '<mes>'`: the literal is cut to its first seven characters. */
  function MonthVariable(mes: string): (v: string)
    ensures |v| <= 7 && |v| <= |mes| && v == mes[..|v|]
    ensures |mes| >= 7 ==> |v| == 7
    ensures |mes| < 7 ==> v == mes
  {
    if |mes| <= 7 then mes else mes[..7]
  }

  /**
   * @FechaInicio = DATEFROMPARTS(YEAR(@Mes + '-01'), MONTH(@Mes + '-01'), 1): the first
   * day of the month written 'YYYY-MM'; None where SQL Server's conversion fails.
   */
  function MonthStart(mes: string): (start: Option<Date>)
    ensures start.Some? ==> ValidDate(start.value) && start.value.day == 1
  {
    var v := MonthVariable(mes);
    if |v| == 7 && AllDigits(v[..4]) && v[4] == '-' && AllDigits(v[5..]) then
      var y, m := DigitsValue(v[..4]), DigitsValue(v[5..]);
      if 1 <= y && 1 <= m <= 12 then
        assert y < 10000 by { assert Pow10(4) == 10000; ZeroPadBound(v[..4]); }
        Some(Date(y, m, 1))
      else None
    else None
  }

  lemma {:induction false} ZeroPadBound(s: string)
    requires AllDigits(s)
    ensures DigitsValue(s) < Pow10(|s|)
    decreases |s|
  {
    if s != [] {
      ZeroPadBound(s[..|s| - 1]);
    }
  }

  /** A month written 'YYYY-MM' names its first day, whatever follows the seventh character. */
  lemma MonthStartOfText(y: nat, m: nat, rest: string)
    requires 1 <= y <= 9999 && 1 <= m <= 12
    ensures MonthStart(ZeroPad(y, 4) + "-" + ZeroPad(m, 2) + rest) == Some(Date(y, m, 1))
  {
    var mes := ZeroPad(y, 4) + "-" + ZeroPad(m, 2) + rest;
    var v := MonthVariable(mes);
    assert v == ZeroPad(y, 4) + "-" + ZeroPad(m, 2);
    assert v[..4] == ZeroPad(y, 4) && v[5..] == ZeroPad(m, 2);
    assert Pow10(2) == 100 && Pow10(4) == 10000;
    ZeroPadValue(y, 4);
    ZeroPadValue(m, 2);
  }

  /**
   * Conversely, a month text that converts is, in its first seven characters, the
   * four-digit year and two-digit month of the first day it names.
   */
  lemma MonthStartText(mes: string)
    requires MonthStart(mes).Some?
    ensures var start := MonthStart(mes).value;
      MonthVariable(mes) == ZeroPad(start.year, 4) + "-" + ZeroPad(start.month, 2)
  {
    var v := MonthVariable(mes);
    DigitsZeroPad(v[..4]);
    DigitsZeroPad(v[5..]);
    assert v == v[..4] + [v[4]] + v[5..];
  }

  /** Texts that do not convert: a thirteenth month, and a text too short for 'YYYY-MM'. */
  lemma UnconvertibleMonths()
    ensures MonthStart("2025-13") == None
    ensures MonthStart("2025") == None
  {
    assert "2025-13"[5..] == "13" && "13"[..1] == "1" && "1"[..0] == "";
    assert DigitsValue("13") == 13;
  }

  /**
   * The Dias CTE: d, then DATEADD(DAY, 1, Fecha) while Fecha < fin; d and fin lie
   * in one month.
   */
  function DaysFrom(d: Date, fin: Date): (days: seq<Date>)
    requires ValidDate(d) && ValidDate(fin)
    requires d.year == fin.year && d.month == fin.month && d.day <= fin.day
    ensures |days| == fin.day - d.day + 1
    ensures forall i :: 0 <= i < |days| ==> days[i] == Date(d.year, d.month, d.day + i)
    decreases fin.day - d.day
  {
    [d] + if Before(d, fin) then DaysFrom(NextDay(d), fin) else []
  }

  /** The day skeleton: from @FechaInicio to @FechaFin = EOMONTH(@FechaInicio). */
  function MonthDays(start: Date): (days: seq<Date>)
    requires ValidDate(start) && start.day == 1
    ensures days != [] && days[0] == start
  {
    DaysFrom(start, EndOfMonth(start))
  }

  /**
   * The skeleton holds every day of the month once, from the 1st to the last,
   * each the day after the one before.
   */
  lemma MonthDaysSpec(start: Date)
    requires ValidDate(start) && start.day == 1
    ensures |MonthDays(start)| == DaysInMonth(start.year, start.month)
    ensures forall i :: 0 <= i < |MonthDays(start)| ==>
      ValidDate(MonthDays(start)[i]) && MonthDays(start)[i] == Date(start.year, start.month, i + 1)
    ensures forall i :: 0 <= i < |MonthDays(start)| - 1 ==>
      DayNumber(MonthDays(start)[i + 1]) == DayNumber(MonthDays(start)[i]) + 1
    ensures forall i, j :: 0 <= i < j < |MonthDays(start)| ==> Before(MonthDays(start)[i], MonthDays(start)[j])
  {
    var days := MonthDays(start);
    forall i | 0 <= i < |days| - 1
      ensures DayNumber(days[i + 1]) == DayNumber(days[i]) + 1
    {
      assert days[i + 1] == NextDay(days[i]);
      NextDayNumber(days[i]);
    }
  }

  /** The number of days in a month, 28 to 31, with 29 in February exactly in leap years. */
  lemma MonthLength(start: Date)
    requires ValidDate(start) && start.day == 1
    ensures 28 <= |MonthDays(start)| <= 31
    ensures start.month == 2 ==> (|MonthDays(start)| == 29 <==> IsLeapYear(start.year))
    ensures start.month == 2 ==> (|MonthDays(start)| == 28 <==> !IsLeapYear(start.year))
    ensures start.month in {4, 6, 9, 11} ==> |MonthDays(start)| == 30
    ensures start.month in {1, 3, 5, 7, 8, 10, 12} ==> |MonthDays(start)| == 31
  {
    MonthDaysSpec(start);
  }

  /** The skeleton day d left-joined to its Promedios row, if any. */
  function DayRowOf(promedios: map<Date, Averages>, d: Date): (row: DayRow)
    requires ValidDate(d)
    ensures row.fecha == d && row.fechaFormato == DateLabel(d) && row.diaSemana == WeekdayOf(d)
    ensures row.pozo == if d in promedios then promedios[d].pozo else "Sin Nombre"
    ensures |row.readings| == |Columns|
    ensures forall k :: 0 <= k < |Columns| ==>
      row.readings[k] == (if d in promedios && Columns[k].1 in promedios[d].byTag then promedios[d].byTag[Columns[k].1] else 0)
  {
    var bucket := if d in promedios then Some(promedios[d]) else None;
    DayRow(bucket.GetOr(Averages("Sin Nombre", map[])).pozo, d, DateLabel(d), WeekdayOf(d),
           seq(|Columns|, k requires 0 <= k < |Columns| => Reading(bucket, Columns[k].1)))
  }

  /**
   * The rows the report query returns for one well and month, given the per-day
   * averages of that well's samples in the month; None for a month text SQL Server
   * cannot convert.
   */
  function MonthlyRows(mes: string, promedios: map<Date, Averages>): (r: Option<seq<DayRow>>)
    ensures r.Some? <==> MonthStart(mes).Some?
    ensures r.Some? ==> |r.value| == DaysInMonth(MonthStart(mes).value.year, MonthStart(mes).value.month)
    ensures r.Some? ==> forall i :: 0 <= i < |r.value| ==>
      r.value[i] == DayRowOf(promedios, Date(MonthStart(mes).value.year, MonthStart(mes).value.month, i + 1))
  {
    match MonthStart(mes)
    case None => None
    case Some(start) =>
      MonthDaysSpec(start);
      var days := MonthDays(start);
      Some(seq(|days|, i requires 0 <= i < |days| => DayRowOf(promedios, days[i])))
  }

  lemma ParseFebruary2025()
    ensures MonthStart("2025-02") == Some(Date(2025, 2, 1))
  {
    assert "2025-02"[..4] == "2025" && "2025-02"[5..] == "02";
    assert "2025"[..3] == "202" && "202"[..2] == "20" && "20"[..1] == "2" && "2"[..0] == "";
    assert "02"[..1] == "0" && "0"[..0] == "";
    assert DigitsValue("2025") == 2025 && DigitsValue("02") == 2;
  }

  lemma ParseFebruary2024()
    ensures MonthStart("2024-02") == Some(Date(2024, 2, 1))
  {
    assert "2024-02"[..4] == "2024" && "2024-02"[5..] == "02";
    assert "2024"[..3] == "202" && "202"[..2] == "20" && "20"[..1] == "2" && "2"[..0] == "";
    assert "02"[..1] == "0" && "0"[..0] == "";
    assert DigitsValue("2024") == 2024 && DigitsValue("02") == 2;
  }

  /** A request for February 2025 yields 28 rows, one for February 2024 yields 29. */
  lemma FebruaryScenario(promedios: map<Date, Averages>)
    ensures MonthlyRows("2025-02", promedios).Some? && |MonthlyRows("2025-02", promedios).value| == 28
    ensures MonthlyRows("2024-02", promedios).Some? && |MonthlyRows("2024-02", promedios).value| == 29
  {
    ParseFebruary2025();
    ParseFebruary2024();
    assert !IsLeapYear(2025) && IsLeapYear(2024);
  }

  /** The query run for one well: construirConsultaMensual's text for the month, with [pozoId]. */
  function MonthlyCall(conexion: string, mes: string, pozoId: string): (call: Call)
    ensures call.connection == conexion && call.params == [pozoId]
    ensures call.sql == MonthlyReportSql(conexion, mes)
  {
    Call(conexion, MonthlyReportSql(conexion, mes), [pozoId])
  }

  type MonthlyDb = Call -> Outcome<seq<DayRow>>

  /** `$ReporteMensual`: an ordered PHP array from well name to that well's rows. */
  type Report = seq<(string, seq<DayRow>)>

  /** `$ReporteMensual[$consulta[0]->Pozo] = $consulta` for a non-empty result; an empty one is skipped. */
  function Store(report: Report, rows: seq<DayRow>): (r: Report)
    ensures |report| <= |r| <= |report| + 1
  {
    if rows == [] then report else Assign(report, rows[0].pozo, rows)
  }

  /**
   * An empty result leaves the array as it was; a non-empty one is stored whole
   * under its first row's name, adding at most one key and never a duplicate.
   */
  lemma StoreSpec(report: Report, rows: seq<DayRow>)
    ensures rows == [] ==> Store(report, rows) == report
    ensures rows != [] ==> Get(Store(report, rows), rows[0].pozo) == Some(rows)
    ensures |Store(report, rows)| <= |report| + 1
    ensures Distinct(Keys(report)) ==> Distinct(Keys(Store(report, rows)))
  {
    if rows != [] {
      AssignGet(report, rows[0].pozo, rows);
      if Distinct(Keys(report)) {
        AssignDistinct(report, rows[0].pozo, rows);
      }
    }
  }

  /** Storing a result leaves every other key's value as it was. */
  lemma StoreOthers(report: Report, rows: seq<DayRow>, k: string)
    requires rows == [] || k != rows[0].pozo
    ensures Get(Store(report, rows), k) == Get(report, k)
  {
    if rows != [] {
      AssignGet(report, rows[0].pozo, rows);
    }
  }

  /**
   * The loop of generarReporteMensual over the first wells: the array built so far
   * (or the exception that escaped) and the queries run.
   */
  function MonthlyRun(db: MonthlyDb, conexion: string, mes: string, ids: seq<string>): (r: (Outcome<Report>, seq<Call>))
    ensures |r.1| <= |ids|
    decreases |ids|
  {
    if ids == [] then (Rows([]), [])
    else
      var (out, calls) := MonthlyRun(db, conexion, mes, ids[..|ids| - 1]);
      if out.Raised? then (out, calls)
      else
        var call := MonthlyCall(conexion, mes, ids[|ids| - 1]);
        match db(call)
        case Raised(m) => (Raised(m), calls + [call])
        case Rows(rows) => (Rows(Store(out.rows, rows)), calls + [call])
  }

  /** Once a query has raised, the later wells change nothing. */
  lemma {:induction false} MonthlyStopsAtFailure(db: MonthlyDb, conexion: string, mes: string, ids: seq<string>, n: nat)
    requires n <= |ids| && MonthlyRun(db, conexion, mes, ids[..n]).0.Raised?
    ensures MonthlyRun(db, conexion, mes, ids) == MonthlyRun(db, conexion, mes, ids[..n])
    decreases |ids| - n
  {
    if n < |ids| {
      assert ids[..n + 1][..n] == ids[..n];
      MonthlyStopsAtFailure(db, conexion, mes, ids, n + 1);
    } else {
      assert ids[..n] == ids;
    }
  }

  /** The queries for the given wells, one each, in order. */
  function MonthlyCallsFor(conexion: string, mes: string, ids: seq<string>): (calls: seq<Call>)
    ensures |calls| == |ids|
    ensures forall i :: 0 <= i < |ids| ==> calls[i] == MonthlyCall(conexion, mes, ids[i])
  {
    seq(|ids|, i requires 0 <= i < |ids| => MonthlyCall(conexion, mes, ids[i]))
  }

  /** The rows of a query's outcome, none for a raised one. */
  function RowsOf(o: Outcome<seq<DayRow>>): seq<DayRow>
  {
    match o
    case Rows(rows) => rows
    case Raised(_) => []
  }

  /** The rows each well's query answered with. */
  function ResultsOf(db: MonthlyDb, conexion: string, mes: string, ids: seq<string>): (rs: seq<seq<DayRow>>)
    ensures |rs| == |ids|
    ensures forall i :: 0 <= i < |ids| ==> rs[i] == RowsOf(db(MonthlyCall(conexion, mes, ids[i])))
  {
    seq(|ids|, i requires 0 <= i < |ids| => RowsOf(db(MonthlyCall(conexion, mes, ids[i]))))
  }

  /** The keyed array the loop builds from the wells' results, in order. */
  function Collect(results: seq<seq<DayRow>>): (report: Report)
    ensures Distinct(Keys(report)) && |report| <= |results|
    decreases |results|
  {
    if results == [] then []
    else
      var prev, last := Collect(results[..|results| - 1]), results[|results| - 1];
      StoreSpec(prev, last);
      Store(prev, last)
  }

  /**
   * Last write wins: a non-empty result is what the report holds under its first
   * row's name unless a later non-empty result carries the same name.
   */
  lemma {:induction false} CollectLastWriteWins(rs: seq<seq<DayRow>>, i: nat)
    requires i < |rs| && rs[i] != []
    requires forall j :: i < j < |rs| && rs[j] != [] ==> rs[j][0].pozo != rs[i][0].pozo
    ensures Get(Collect(rs), rs[i][0].pozo) == Some(rs[i])
    decreases |rs|
  {
    var prefix := rs[..|rs| - 1];
    assert Collect(rs) == Store(Collect(prefix), rs[|rs| - 1]);
    if i < |rs| - 1 {
      assert prefix[i] == rs[i];
      forall j | i < j < |prefix| && prefix[j] != []
        ensures prefix[j][0].pozo != prefix[i][0].pozo
      {
        assert prefix[j] == rs[j];
      }
      CollectLastWriteWins(prefix, i);
      StoreOthers(Collect(prefix), rs[|rs| - 1], rs[i][0].pozo);
    } else {
      StoreSpec(Collect(prefix), rs[i]);
    }
  }

  /** The report holds nothing but results: each key maps to a non-empty result whose first row has that name. */
  lemma {:induction false} CollectOnlyWritten(rs: seq<seq<DayRow>>, k: string)
    requires Get(Collect(rs), k).Some?
    ensures exists i :: 0 <= i < |rs| && rs[i] != [] && rs[i][0].pozo == k && Get(Collect(rs), k) == Some(rs[i])
    decreases |rs|
  {
    var prefix := rs[..|rs| - 1];
    var last := rs[|rs| - 1];
    if last != [] && last[0].pozo == k {
      StoreSpec(Collect(prefix), last);
      assert Get(Collect(rs), k) == Some(rs[|rs| - 1]);
    } else {
      StoreOthers(Collect(prefix), last, k);
      assert Get(Collect(rs), k) == Get(Collect(prefix), k);
      CollectOnlyWritten(prefix, k);
      var i :| 0 <= i < |prefix| && prefix[i] != [] && prefix[i][0].pozo == k && Get(Collect(prefix), k) == Some(prefix[i]);
      assert rs[i] == prefix[i];
    }
  }

  /**
   * The loop runs the wells' queries in order and stops at the first one that
   * raises, whose exception escapes; when none raises the outcome is the keyed
   * array of all the results.
   */
  lemma MonthlyRunSpec(db: MonthlyDb, conexion: string, mes: string, ids: seq<string>)
    ensures var (out, calls) := MonthlyRun(db, conexion, mes, ids);
      && (forall i :: 0 <= i < |calls| ==> calls[i] == MonthlyCall(conexion, mes, ids[i]))
      && (forall i :: 0 <= i < |calls| - 1 ==> db(calls[i]).Rows?)
      && (out.Raised? ==> |calls| >= 1 && db(calls[|calls| - 1]) == Raised(out.message))
      && (out.Rows? ==> |calls| == |ids| && (forall i :: 0 <= i < |ids| ==> db(calls[i]).Rows?))
  {
    MonthlyRunCalls(db, conexion, mes, ids);
    MonthlyRunAnswers(db, conexion, mes, ids);
  }

  /** The loop's i-th query is the one for the i-th well. */
  lemma {:induction false} MonthlyRunCalls(db: MonthlyDb, conexion: string, mes: string, ids: seq<string>)
    ensures var calls := MonthlyRun(db, conexion, mes, ids).1;
      forall i :: 0 <= i < |calls| ==> calls[i] == MonthlyCall(conexion, mes, ids[i])
    decreases |ids|
  {
    if ids != [] {
      var prefix := ids[..|ids| - 1];
      MonthlyRunCalls(db, conexion, mes, prefix);
      MonthlyRunLength(db, conexion, mes, prefix);
      MonthlyTraceStep(db, conexion, mes, ids);
      var calls := MonthlyRun(db, conexion, mes, prefix).1;
      var calls' := MonthlyRun(db, conexion, mes, ids).1;
      forall i | 0 <= i < |calls'|
        ensures calls'[i] == MonthlyCall(conexion, mes, ids[i])
      {
        if i < |calls| {
          assert calls'[i] == calls[i] && prefix[i] == ids[i];
        }
      }
    }
  }

  /** One more well adds its query to the trace unless an earlier query raised. */
  lemma MonthlyTraceStep(db: MonthlyDb, conexion: string, mes: string, ids: seq<string>)
    requires ids != []
    ensures var (out, calls) := MonthlyRun(db, conexion, mes, ids[..|ids| - 1]);
      MonthlyRun(db, conexion, mes, ids).1
        == if out.Rows? then calls + [MonthlyCall(conexion, mes, ids[|ids| - 1])] else calls
  {
  }

  /** A loop that ran to the end queried every well. */
  lemma {:induction false} MonthlyRunLength(db: MonthlyDb, conexion: string, mes: string, ids: seq<string>)
    ensures MonthlyRun(db, conexion, mes, ids).0.Rows? ==> |MonthlyRun(db, conexion, mes, ids).1| == |ids|
    decreases |ids|
  {
    if ids != [] {
      MonthlyRunLength(db, conexion, mes, ids[..|ids| - 1]);
    }
  }

  /** Every query but the last answered; the last raised exactly when the loop's outcome is that exception. */
  lemma {:induction false} MonthlyRunAnswers(db: MonthlyDb, conexion: string, mes: string, ids: seq<string>)
    ensures var (out, calls) := MonthlyRun(db, conexion, mes, ids);
      && (forall i :: 0 <= i < |calls| - 1 ==> db(calls[i]).Rows?)
      && (out.Raised? ==> |calls| >= 1 && db(calls[|calls| - 1]) == Raised(out.message))
      && (out.Rows? ==> |calls| == |ids| && (forall i :: 0 <= i < |ids| ==> db(calls[i]).Rows?))
    decreases |ids|
  {
    if ids != [] {
      var prefix := ids[..|ids| - 1];
      MonthlyRunAnswers(db, conexion, mes, prefix);
      var (out, calls) := MonthlyRun(db, conexion, mes, prefix);
      var (out', calls') := MonthlyRun(db, conexion, mes, ids);
      if out.Rows? {
        var call := MonthlyCall(conexion, mes, ids[|ids| - 1]);
        assert calls' == calls + [call];
        assert out'.Raised? ==> out' == Raised(db(call).message);
      } else {
        assert (out', calls') == (out, calls);
      }
    }
  }

  /** When no query raises, the loop's array is the keyed collection of all the results. */
  lemma {:induction false} MonthlyRunCollects(db: MonthlyDb, conexion: string, mes: string, ids: seq<string>)
    requires MonthlyRun(db, conexion, mes, ids).0.Rows?
    ensures MonthlyRun(db, conexion, mes, ids).0.rows == Collect(ResultsOf(db, conexion, mes, ids))
    decreases |ids|
  {
    if ids != [] {
      var prefix := ids[..|ids| - 1];
      var call := MonthlyCall(conexion, mes, ids[|ids| - 1]);
      var (out, calls) := MonthlyRun(db, conexion, mes, prefix);
      assert out.Rows? && db(call).Rows?;
      MonthlyRunCollects(db, conexion, mes, prefix);
      MonthlyStep(db, conexion, mes, ids);
      assert MonthlyRun(db, conexion, mes, ids).0.rows == Store(out.rows, db(call).rows);
    }
  }

  /** The reference characterisation grows by the last well's call and stored result. */
  lemma MonthlyStep(db: MonthlyDb, conexion: string, mes: string, ids: seq<string>)
    requires ids != []
    ensures var prefix := ids[..|ids| - 1];
      var call := MonthlyCall(conexion, mes, ids[|ids| - 1]);
      && MonthlyCallsFor(conexion, mes, ids) == MonthlyCallsFor(conexion, mes, prefix) + [call]
      && Collect(ResultsOf(db, conexion, mes, ids))
         == Store(Collect(ResultsOf(db, conexion, mes, prefix)), RowsOf(db(call)))
  {
    var prefix := ids[..|ids| - 1];
    var rs := ResultsOf(db, conexion, mes, ids);
    assert rs[..|ids| - 1] == ResultsOf(db, conexion, mes, prefix);
  }

  /** A query that raises on the first well ends the action after that one query. */
  lemma FirstFailureEscapes(db: MonthlyDb, conexion: string, mes: string, ids: seq<string>)
    requires ids != [] && db(MonthlyCall(conexion, mes, ids[0])).Raised?
    ensures MonthlyRun(db, conexion, mes, ids) == (Raised(db(MonthlyCall(conexion, mes, ids[0])).message), [MonthlyCall(conexion, mes, ids[0])])
  {
    assert ids[..1][..0] == [];
    var call := MonthlyCall(conexion, mes, ids[0]);
    assert MonthlyRun(db, conexion, mes, ids[..1]) == (Raised(db(call).message), [] + [call]);
    MonthlyStopsAtFailure(db, conexion, mes, ids, 1);
    assert MonthlyRun(db, conexion, mes, ids) == MonthlyRun(db, conexion, mes, ids[..1]);
    assert [] + [call] == [call];
  }

  /**
   * What SQL Server answers the report query with, given the well's per-day
   * averages: the day skeleton's rows, or the conversion error (with its message)
   * when the month text does not convert.
   */
  function SkeletonAnswer(mes: string, promedios: map<Date, Averages>, message: string): (o: Outcome<seq<DayRow>>)
    ensures o.Raised? <==> MonthStart(mes).None?
    ensures o.Raised? ==> o.message == message
  {
    match MonthlyRows(mes, promedios)
    case Some(rows) => Rows(rows)
    case None => Raised(message)
  }

  /**
   * A month text that does not convert fails the first well's query, and nothing
   * catches it: the action ends after that one query, with the conversion error.
   */
  lemma UnconvertibleMonthEscapes(db: MonthlyDb, conexion: string, mes: string, ids: seq<string>,
                                  promedios: string -> map<Date, Averages>, message: string)
    requires ids != [] && MonthStart(mes).None?
    requires forall i :: 0 <= i < |ids| ==> db(MonthlyCall(conexion, mes, ids[i])) == SkeletonAnswer(mes, promedios(ids[i]), message)
    ensures MonthlyRun(db, conexion, mes, ids) == (Raised(message), [MonthlyCall(conexion, mes, ids[0])])
  {
    assert db(MonthlyCall(conexion, mes, ids[0])) == Raised(message);
    FirstFailureEscapes(db, conexion, mes, ids);
  }

  /** A well's result is never empty in a valid month; its first row is the 1st, named after that day's samples. */
  lemma MonthlyFirstRow(mes: string, promedios: map<Date, Averages>)
    requires MonthStart(mes).Some?
    ensures MonthlyRows(mes, promedios).value != []
    ensures MonthlyRows(mes, promedios).value[0].fecha == MonthStart(mes).value
    ensures MonthlyRows(mes, promedios).value[0].pozo ==
      if MonthStart(mes).value in promedios then promedios[MonthStart(mes).value].pozo else "Sin Nombre"
  {
    var start := MonthStart(mes).value;
    assert Date(start.year, start.month, 1) == start;
  }

  /** Two non-empty results whose first rows carry the same name leave one key, holding the second. */
  lemma {:induction false} SameNameOverwrites(db: MonthlyDb, conexion: string, mes: string, a: string, b: string)
    requires db(MonthlyCall(conexion, mes, a)).Rows? && db(MonthlyCall(conexion, mes, a)).rows != []
    requires db(MonthlyCall(conexion, mes, b)).Rows? && db(MonthlyCall(conexion, mes, b)).rows != []
    requires db(MonthlyCall(conexion, mes, a)).rows[0].pozo == db(MonthlyCall(conexion, mes, b)).rows[0].pozo
    ensures MonthlyRun(db, conexion, mes, [a, b]).0
         == Rows([(db(MonthlyCall(conexion, mes, b)).rows[0].pozo, db(MonthlyCall(conexion, mes, b)).rows)])
  {
    var ra, rb := db(MonthlyCall(conexion, mes, a)).rows, db(MonthlyCall(conexion, mes, b)).rows;
    assert [a, b][..1] == [a] && [a][..0] == [];
    var empty: seq<Call> := [];
    assert MonthlyRun(db, conexion, mes, []) == (Rows([]), empty);
    assert MonthlyRun(db, conexion, mes, [a]) == (Rows(Store([], ra)), empty + [MonthlyCall(conexion, mes, a)]);
    assert Store([], ra) == [(ra[0].pozo, ra)];
    assert Store([(ra[0].pozo, ra)], rb) == [(rb[0].pozo, rb)];
  }

  /**
   * Two wells with no samples on the 1st of the month are both filed under
   * 'Sin Nombre', and the report keeps only the second.
   */
  lemma SinNombreCollision(db: MonthlyDb, conexion: string, mes: string, a: string, b: string,
                           pa: map<Date, Averages>, pb: map<Date, Averages>)
    requires MonthStart(mes).Some?
    requires MonthStart(mes).value !in pa && MonthStart(mes).value !in pb
    requires db(MonthlyCall(conexion, mes, a)) == Rows(MonthlyRows(mes, pa).value)
    requires db(MonthlyCall(conexion, mes, b)) == Rows(MonthlyRows(mes, pb).value)
    ensures MonthlyRun(db, conexion, mes, [a, b]).0 == Rows([("Sin Nombre", MonthlyRows(mes, pb).value)])
  {
    MonthlyFirstRow(mes, pa);
    MonthlyFirstRow(mes, pb);
    SameNameOverwrites(db, conexion, mes, a, b);
  }

  /** A stored name stays a key: later writes replace values but never remove keys. */
  lemma {:induction false} CollectKeepsKeys(rs: seq<seq<DayRow>>, i: nat)
    requires i < |rs| && rs[i] != []
    ensures Get(Collect(rs), rs[i][0].pozo).Some?
    decreases |rs|
  {
    var prefix := rs[..|rs| - 1];
    if i < |rs| - 1 {
      assert prefix[i] == rs[i];
      CollectKeepsKeys(prefix, i);
      var last := rs[|rs| - 1];
      if last == [] || last[0].pozo != rs[i][0].pozo {
        StoreOthers(Collect(prefix), last, rs[i][0].pozo);
      } else {
        StoreSpec(Collect(prefix), last);
      }
    } else {
      StoreSpec(Collect(prefix), rs[i]);
    }
  }

  /** When every query answers with rows, all queries run and every well's first-row name is a key. */
  lemma AllWellsAnsweredKeyed(db: MonthlyDb, conexion: string, mes: string, ids: seq<string>)
    requires forall i :: 0 <= i < |ids| ==> db(MonthlyCall(conexion, mes, ids[i])).Rows? && db(MonthlyCall(conexion, mes, ids[i])).rows != []
    ensures MonthlyRun(db, conexion, mes, ids).1 == MonthlyCallsFor(conexion, mes, ids)
    ensures MonthlyRun(db, conexion, mes, ids).0.Rows?
    ensures |MonthlyRun(db, conexion, mes, ids).0.rows| <= |ids|
    ensures forall i :: 0 <= i < |ids| ==>
      Get(MonthlyRun(db, conexion, mes, ids).0.rows, db(MonthlyCall(conexion, mes, ids[i])).rows[0].pozo).Some?
  {
    MonthlyRunSpec(db, conexion, mes, ids);
    var (out, calls) := MonthlyRun(db, conexion, mes, ids);
    if out.Raised? {
      assert false;
    }
    MonthlyRunCollects(db, conexion, mes, ids);
    var rs := ResultsOf(db, conexion, mes, ids);
    forall i | 0 <= i < |ids|
      ensures Get(out.rows, db(MonthlyCall(conexion, mes, ids[i])).rows[0].pozo).Some?
    {
      CollectKeepsKeys(rs, i);
    }
  }

  /**
   * In a month SQL Server can convert, no well is dropped: every well's query
   * answers with its day skeleton, and the name of each well's 1st-of-month row
   * is a key of the report.
   */
  lemma EveryWellKeyed(db: MonthlyDb, conexion: string, mes: string, ids: seq<string>,
                       promedios: string -> map<Date, Averages>)
    requires MonthStart(mes).Some?
    requires forall i :: 0 <= i < |ids| ==> db(MonthlyCall(conexion, mes, ids[i])) == Rows(MonthlyRows(mes, promedios(ids[i])).value)
    ensures MonthlyRun(db, conexion, mes, ids).1 == MonthlyCallsFor(conexion, mes, ids)
    ensures MonthlyRun(db, conexion, mes, ids).0.Rows?
    ensures |MonthlyRun(db, conexion, mes, ids).0.rows| <= |ids|
    ensures forall i :: 0 <= i < |ids| ==>
      var start := MonthStart(mes).value;
      Get(MonthlyRun(db, conexion, mes, ids).0.rows,
          if start in promedios(ids[i]) then promedios(ids[i])[start].pozo else "Sin Nombre").Some?
  {
    forall i | 0 <= i < |ids|
      ensures db(MonthlyCall(conexion, mes, ids[i])).Rows? && db(MonthlyCall(conexion, mes, ids[i])).rows != []
      ensures var start := MonthStart(mes).value;
        db(MonthlyCall(conexion, mes, ids[i])).rows[0].pozo
          == if start in promedios(ids[i]) then promedios(ids[i])[start].pozo else "Sin Nombre"
    {
      MonthlyFirstRow(mes, promedios(ids[i]));
    }
    AllWellsAnsweredKeyed(db, conexion, mes, ids);
  }

  /** The response body: `{error, conexiones_disponibles}` or the keyed report. */
  datatype MonthlyBody = Rejected(rejection: Rejection) | Report(report: Report)

  /**
   * generarReporteMensual: 400 before any query when the connection is not allowed;
   * 200 with an empty array before any query when Pozos or Fecha is empty; otherwise
   * one query per well, in order, and 200 with the keyed report, unless a query
   * raises, which ends the action with that exception.
   */
  method GenerateMonthlyReport(db: MonthlyDb, conexion: Option<string>, pozos: seq<string>, mes: Option<string>)
    returns (resp: Response<MonthlyBody>, calls: seq<Call>)
    ensures ConnectionRejected(conexion) ==> resp == Json(400, Rejected(RejectionBody())) && calls == []
    ensures !ConnectionRejected(conexion) && (pozos == [] || Falsy(mes)) ==> resp == Json(200, Report([])) && calls == []
    ensures !ConnectionRejected(conexion) && pozos != [] && !Falsy(mes) ==>
      var (out, run) := MonthlyRun(db, conexion.value, mes.value, pozos);
      && calls == run
      && resp == (if out.Rows? then Json(200, Report(out.rows)) else Thrown(out.message))
  {
    if Falsy(conexion) || !IsValidConnection(conexion.value) {
      return Json(400, Rejected(RejectionBody())), [];
    }
    var c := ResolveConnection(conexion.value).value;
    var reporte: Report := [];
    if pozos == [] || Falsy(mes) {
      return Json(200, Report(reporte)), [];
    }
    calls := [];
    var i := 0;
    while i < |pozos|
      invariant 0 <= i <= |pozos|
      invariant MonthlyRun(db, c, mes.value, pozos[..i]) == (Rows(reporte), calls)
    {
      assert pozos[..i + 1][..i] == pozos[..i];
      var call := MonthlyCall(c, mes.value, pozos[i]);
      var consulta := db(call);
      calls := calls + [call];
      if consulta.Raised? {
        MonthlyStopsAtFailure(db, c, mes.value, pozos, i + 1);
        return Thrown(consulta.message), calls;
      }
      assert MonthlyRun(db, c, mes.value, pozos[..i + 1]) == (Rows(Store(reporte, consulta.rows)), calls);
      if consulta.rows != [] {
        reporte := Assign(reporte, consulta.rows[0].pozo, consulta.rows);
      }
      i := i + 1;
    }
    assert pozos[..i] == pozos;
    resp := Json(200, Report(reporte));
  }
}
