# ReporteadorMTC backend: connection allow-list and report controllers

This project models the core of the ReporteadorMTC backend, a Laravel API that reads
historic well telemetry (pressures, temperatures, speed, injected flow) from several
SQL Server databases and returns it as daily and monthly reports.

- **Connection allow-list** (`Connections`). Five named connections are permitted, each
  mapped to itself. The model covers the validity test, the resolution to the Laravel
  connection name and the list of available names, plus the 400 rejection every
  controller opens with.
- **Daily report** (`DailyReport`). For every requested well, one query runs with
  `[pozoId, fecha, fecha]`. The query's SQL left-joins a fixed 0..23 hour skeleton to
  per-hour averages. Each non-empty result becomes `{nombrePozo, reporte: 'Diario',
  registros}`. Any exception turns the whole request into a 500.
- **Monthly report** (`MonthlyReport`). For every requested well, one query runs with
  `[pozoId]`. The query's SQL lists every day of the month named by the first seven
  characters of `Fecha`. Each non-empty result is stored in an ordered PHP array, keyed
  by its first row's well name. No exception is caught.
- **Well list** (`WellList`). The ids of wells with historic values are loaded and cast
  with `(int)`. They are spliced into an `IN (...)` list, or the `where 1=0` query is
  used when there are none.

Supporting modules:

- `Php`: truthiness, `implode`/`explode`, the `(int)` cast and keyed array assignment.
- `Text`: decimal digits, zero padding and `RIGHT`.
- `Calendar`: proleptic Gregorian dates, days in a month, next day, weekday and
  `dd/MM/yyyy`.
- `Database`: the calls, outcomes and responses at the database and HTTP boundary.

`DB::connection(c)->select(sql, params)` is an oracle passed to each controller, a
function from the call to its outcome (rows, or the message of the exception it raises).
Every controller also returns the sequence of calls it made. This makes "no query runs"
and "one query per well, in order" statable. The SQL statements are not executed. Their
row shape is modelled as pure functions (`DailyRows`, `MonthlyRows`) over the per-bucket
aggregates SQL Server would compute. Lemmas then state what follows when the database
answers according to that shape.

Two consequences of the code are worth stating:

- **Every requested well gets a daily entry, even one without samples.** The hour
  skeleton makes the daily query return 24 rows, so such a well gets an entry named
  `Sin Datos` with zero readings (`DailyReport.EveryWellReported`).
- **No well is skipped when its query fails.** The daily controller answers 500 with
  the exception's message; in the monthly controller nothing catches the exception, so
  it leaves the action (`Thrown`).

## Model

| member | source | states |
|---|---|---|
| Connections.IsValidConnection | app/services/DatabaseConnectionService.php:33-50 | a name is valid exactly when it is one of the five declared keys |
| Connections.ResolveConnection | app/services/DatabaseConnectionService.php:33-61 | resolves exactly the valid names, each to itself; every other name gives none (null) |
| Connections.AvailableConnections | app/services/DatabaseConnectionService.php:33-73 | the five keys in declaration order, without duplicates |
| Connections.AvailableIffValid | app/services/DatabaseConnectionService.php:47-73 | a name is listed as available exactly when it is valid, and exactly when it resolves |
| Connections.AllowedAreConfigured | config/database.php:125-189 | every allowed name, and the connection it resolves to, is a configured connection key |
| Connections.RejectionBody | app/Http/Controllers/PozoController.php:46-49 | the 400 body lists all available connections |
| Connections.ConnectionRejected | app/Http/Controllers/GenerarReporteController.php:27 | a request the guard lets through names a connection, and that name resolves to itself |
| Connections.RejectedIffNotAllowed | app/Http/Controllers/GenerarReporteController.php:27 | the falsy-or-invalid guard rejects a request exactly when it names no allowed connection |
| Php.Falsy | app/Http/Controllers/GenerarReporteController.php:27-38 | `!$v` and `empty($v)` on a request value: null and the empty text are falsy; a one-character text is falsy exactly when it is `0`; any longer text is truthy |
| Php.Implode | app/Http/Controllers/PozoController.php:85 | no parts give the empty text, one part gives itself, and with two or more parts the separator comes right after the first part |
| Php.ExplodeImplode | app/Http/Controllers/PozoController.php:85 | explode undoes implode when no part holds the separator |
| Php.ImplodeEnds | app/Http/Controllers/PozoController.php:85 | implode of non-empty parts begins with the first character of the first part and ends with the last character of the last part |
| Php.IntCast | app/Http/Controllers/PozoController.php:102 | `(int)` reads a text of digits as its decimal value, a `-` followed by digits as the negated value, and a text that starts with anything but a sign or a digit as 0 |
| Php.IntCastIntText | app/Http/Controllers/PozoController.php:102 | `(int)` of an integer's decimal text gives back that integer |
| Php.Assign | app/Http/Controllers/GenerarReporteMensual.php:43 | keyed assignment keeps an existing key's position and appends a new key at the end |
| Php.AssignGet | app/Http/Controllers/GenerarReporteMensual.php:43 | after the assignment the key holds the new value and every other key its old value, or none |
| Php.AssignDistinct | app/Http/Controllers/GenerarReporteMensual.php:43 | assignment never duplicates a key |
| Text.Right | app/Http/Controllers/GenerarReporteController.php:129 | `RIGHT(s, k)` has length k, or that of s when s is shorter, and is the end of s |
| Text.RightPadTwo | app/Http/Controllers/GenerarReporteController.php:129 | `RIGHT('00' + CAST(h AS VARCHAR(2)), 2)` is the two-digit zero padding of h |
| Calendar.DaysInMonth | app/Http/Controllers/GenerarReporteMensual.php:55 | a month has between 28 and 31 days |
| Calendar.YearLength | app/Http/Controllers/GenerarReporteMensual.php:55 | the twelve month lengths add up to 366 days in a leap year and 365 otherwise |
| Calendar.DaysBeforeYearClosedForm | app/Http/Controllers/GenerarReporteMensual.php:60 | the day count before a year, summed year by year, equals the Gregorian closed form 365p + p/4 - p/100 + p/400 |
| Calendar.EndOfMonth | app/Http/Controllers/GenerarReporteMensual.php:55 | `EOMONTH` is a valid day of the same month, no earlier than the given day, and no later day of that month exists |
| Calendar.NextDay | app/Http/Controllers/GenerarReporteMensual.php:60 | `DATEADD(DAY, 1, d)` is a valid date |
| Calendar.NextDayNumber | app/Http/Controllers/GenerarReporteMensual.php:60 | the next day is exactly one day later on the day count |
| Calendar.BeforeIsStrictOrder | app/Http/Controllers/GenerarReporteMensual.php:62 | `<` on dates is irreflexive, asymmetric and transitive |
| Calendar.BeforeIsChronological | app/Http/Controllers/GenerarReporteMensual.php:105 | ordering dates by (year, month, day) is the same as ordering them by day count |
| Calendar.WeekdayOf | app/Http/Controllers/GenerarReporteMensual.php:91 | `DATENAME(WEEKDAY, d)` counts weekdays from 0001-01-01, a Monday |
| Calendar.NextDayWeekday | app/Http/Controllers/GenerarReporteMensual.php:91 | the next day's weekday is the successor of the day's weekday, Sunday followed by Monday |
| Calendar.KnownWeekdays | app/Http/Controllers/GenerarReporteMensual.php:91 | 2025-02-01 is a Saturday and 2025-11-10 a Monday |
| Calendar.DateLabel | app/Http/Controllers/GenerarReporteMensual.php:90 | `dd/MM/yyyy`: ten characters, slashes at positions 2 and 5, and the digit groups read back as day, month and year |
| DailyReport.HourSkeleton | app/Http/Controllers/GenerarReporteController.php:96-103 | exactly the 24 hours 0..23, ascending |
| DailyReport.HourLabel | app/Http/Controllers/GenerarReporteController.php:129 | `Hora_Formato` is two digits reading back as the hour, then `:00` |
| DailyReport.HourRowOf | app/Http/Controllers/GenerarReporteController.php:126-139 | an hour's row carries the hour, its label, the bucket's well name or `Sin Datos`, and each column's average or 0 |
| DailyReport.DailyRows | app/Http/Controllers/GenerarReporteController.php:126-142 | the result has 24 rows, row i being hour i's row |
| DailyReport.DailyRowsComplete | app/Http/Controllers/GenerarReporteController.php:96-142 | the result is never empty; the hours ascend strictly and each label reads back as its hour |
| DailyReport.EmptyHourDefaults | app/Http/Controllers/GenerarReporteController.php:127-139 | an hour without samples is named `Sin Datos` and has every reading 0 |
| DailyReport.PartialHourScenario | app/Http/Controllers/GenerarReporteController.php:127-142 | with samples of one tag at hour 5 only, just that reading is non-zero |
| DailyReport.EntryOf | app/Http/Controllers/GenerarReporteController.php:72-80 | an entry is named after the first row's well, is `Diario`, and holds every row in order |
| DailyReport.DailyCall | app/Http/Controllers/GenerarReporteController.php:69 | one well's select goes to the resolved connection with the report query and the parameters `[pozoId, fecha, fecha]` |
| DailyReport.ReportRun | app/Http/Controllers/GenerarReporteController.php:63-85 | at most one call per well, and no more entries than calls |
| DailyReport.ReportForWells | app/Http/Controllers/GenerarReporteController.php:63-85 | the loop's result and call trace are those of the well-by-well specification |
| DailyReport.RunStopsAtFailure | app/Http/Controllers/GenerarReporteController.php:42-69 | after a query raises, no further well is queried and the outcome stays the exception |
| DailyReport.CallsFor | app/Http/Controllers/GenerarReporteController.php:68-69 | one call per well, in input order, with parameters `[pozoId, fecha, fecha]` |
| DailyReport.Entries | app/Http/Controllers/GenerarReporteController.php:71-81 | no more entries than wells; each is `Diario` with non-empty records |
| DailyReport.ReportRunSpec | app/Http/Controllers/GenerarReporteController.php:65-84 | the calls are the wells' queries in order up to the first exception; if none raises, every well is queried and the report is the entries of the non-empty results in input order |
| DailyReport.AllWellsAnswered | app/Http/Controllers/GenerarReporteController.php:65-84 | when every query returns rows, every well is queried and gets exactly one entry |
| DailyReport.EveryWellReported | app/Http/Controllers/GenerarReporteController.php:77-142 | when the database answers per the hour skeleton, every well gets an entry with the 24 hour rows, named after hour 0's samples or `Sin Datos` |
| DailyReport.GenerateDailyReport | app/Http/Controllers/GenerarReporteController.php:23-53 | 400 with the available names and no query for a rejected connection; else 200 with `[]` and no query for empty `Pozos` or `Fecha`; else the loop's report with 200, or 500 with the message of the exception that ended it |
| MonthlyReport.MonthVariable | app/Http/Controllers/GenerarReporteMensual.php:53 | `VARCHAR(7)` keeps the first seven characters of `Fecha`, or all of it when it is shorter |
| MonthlyReport.MonthStart | app/Http/Controllers/GenerarReporteMensual.php:53-54 | a month that parses gives a valid first day of the month |
| MonthlyReport.MonthStartOfText | app/Http/Controllers/GenerarReporteMensual.php:53-54 | `YYYY-MM` followed by anything parses to day 1 of that month |
| MonthlyReport.MonthStartText | app/Http/Controllers/GenerarReporteMensual.php:53-54 | conversely, a month text that converts has as its first seven characters the four-digit year, `-` and the two-digit month of the day it names |
| MonthlyReport.UnconvertibleMonths | app/Http/Controllers/GenerarReporteMensual.php:53-54 | `2025-13` and `2025` do not convert |
| MonthlyReport.DaysFrom | app/Http/Controllers/GenerarReporteMensual.php:57-63 | the recursive CTE from a day to the end date lists every day in between, in order |
| MonthlyReport.MonthDays | app/Http/Controllers/GenerarReporteMensual.php:55-63 | the `Dias` CTE is never empty and starts at the first of the month |
| MonthlyReport.MonthDaysSpec | app/Http/Controllers/GenerarReporteMensual.php:54-105 | the day skeleton has one day per day of the month, each the next day of the one before, in chronological order |
| MonthlyReport.MonthLength | app/Http/Controllers/GenerarReporteMensual.php:54-63 | 28 to 31 days: 29 in a leap February and 28 in any other February, 30 in April, June, September and November, 31 otherwise |
| MonthlyReport.DayRowOf | app/Http/Controllers/GenerarReporteMensual.php:87-102 | a day's row carries the date, its `dd/MM/yyyy` label, its weekday, the bucket's well name or `Sin Nombre`, and each column's average or 0 |
| MonthlyReport.MonthlyRows | app/Http/Controllers/GenerarReporteMensual.php:53-106 | rows exist exactly when the month parses; then there is one row per day of the month, in order |
| MonthlyReport.FebruaryScenario | app/Http/Controllers/GenerarReporteMensual.php:53-63 | `2025-02` gives 28 rows and `2024-02` gives 29 |
| MonthlyReport.MonthlyCall | app/Http/Controllers/GenerarReporteMensual.php:41 | one well's select goes to the resolved connection with the month's report query and the single parameter `[pozoId]` |
| MonthlyReport.Store | app/Http/Controllers/GenerarReporteMensual.php:42-44 | the keyed write adds at most one entry and never removes one |
| MonthlyReport.StoreSpec | app/Http/Controllers/GenerarReporteMensual.php:42-44 | an empty result leaves the report unchanged; a non-empty one is stored whole under its first row's name, adding at most one key and never a duplicate |
| MonthlyReport.StoreOthers | app/Http/Controllers/GenerarReporteMensual.php:42-44 | storing a result leaves every other key's value as it was |
| MonthlyReport.MonthlyRun | app/Http/Controllers/GenerarReporteMensual.php:40-45 | at most one call per well |
| MonthlyReport.MonthlyStopsAtFailure | app/Http/Controllers/GenerarReporteMensual.php:38-47 | after a query raises, no further well is queried and the outcome stays the exception |
| MonthlyReport.MonthlyCallsFor | app/Http/Controllers/GenerarReporteMensual.php:40-41 | one call per well, in input order, with the single parameter `[pozoId]` |
| MonthlyReport.Collect | app/Http/Controllers/GenerarReporteMensual.php:40-45 | the keys are distinct and no more numerous than the wells |
| MonthlyReport.CollectLastWriteWins | app/Http/Controllers/GenerarReporteMensual.php:43 | a result is what its key holds at the end unless a later well writes the same key |
| MonthlyReport.CollectOnlyWritten | app/Http/Controllers/GenerarReporteMensual.php:42-44 | every key holds one well's whole result, stored under that result's first name |
| MonthlyReport.CollectKeepsKeys | app/Http/Controllers/GenerarReporteMensual.php:43 | a key once written stays in the report |
| MonthlyReport.MonthlyRunSpec | app/Http/Controllers/GenerarReporteMensual.php:38-47 | the calls are the wells' queries in order; every call but the last answered; an escaping exception is the last call's; when none raises, every well is queried |
| MonthlyReport.MonthlyRunCalls | app/Http/Controllers/GenerarReporteMensual.php:40-41 | the loop's i-th query is the one for the i-th well |
| MonthlyReport.MonthlyRunLength | app/Http/Controllers/GenerarReporteMensual.php:40-45 | a loop that runs to the end queries every well |
| MonthlyReport.MonthlyRunAnswers | app/Http/Controllers/GenerarReporteMensual.php:38-47 | every query before the last answered; the loop's exception is exactly the last query's; without one, every query answered |
| MonthlyReport.MonthlyRunCollects | app/Http/Controllers/GenerarReporteMensual.php:40-45 | when no query raises, the report is the keyed collection of all the wells' results, in order |
| MonthlyReport.FirstFailureEscapes | app/Http/Controllers/GenerarReporteMensual.php:38-47 | a query that raises on the first well ends the action after that one query, with its message |
| MonthlyReport.SkeletonAnswer | app/Http/Controllers/GenerarReporteMensual.php:53-106 | the report query fails exactly when the month text does not convert, with the conversion error's message |
| MonthlyReport.UnconvertibleMonthEscapes | app/Http/Controllers/GenerarReporteMensual.php:38-47 | a month text that does not convert fails the first well's query, and the action ends after that one query with that exception |
| MonthlyReport.MonthlyFirstRow | app/Http/Controllers/GenerarReporteMensual.php:88-105 | a parsed month's result starts with day 1, named after that day's samples or `Sin Nombre` |
| MonthlyReport.SameNameOverwrites | app/Http/Controllers/GenerarReporteMensual.php:43 | two wells whose first rows share a name leave one key, holding the second well's rows |
| MonthlyReport.SinNombreCollision | app/Http/Controllers/GenerarReporteMensual.php:43-88 | two wells without samples on day 1 collide under `Sin Nombre`, and only the second survives |
| MonthlyReport.AllWellsAnsweredKeyed | app/Http/Controllers/GenerarReporteMensual.php:40-45 | when every query returns rows, every well is queried and every first-row name is a key |
| MonthlyReport.EveryWellKeyed | app/Http/Controllers/GenerarReporteMensual.php:40-106 | when the database answers per the day skeleton, every well is queried and its day-1 name is a key |
| MonthlyReport.GenerateMonthlyReport | app/Http/Controllers/GenerarReporteMensual.php:17-48 | 400 with the available names and no query for a rejected connection; else 200 with an empty report and no query for empty `Pozos` or `Fecha`; else the keyed report with 200, or the exception leaves the action |
| WellList.LoadIds | app/Http/Controllers/PozoController.php:100-104 | one id per row, in order, each the `(int)` cast of its `IdPozo` |
| WellList.LoadIdsCanonical | app/Http/Controllers/PozoController.php:100-104 | ids handed over as decimal text come back as the same integers |
| WellList.BuildQuery | app/Http/Controllers/PozoController.php:79-87 | no ids give exactly the `where 1=0` query; otherwise the fixed `IN (` prefix and a closing parenthesis |
| WellList.IdsOfQuery | app/Http/Controllers/PozoController.php:81-86 | a query text reads back as no ids exactly when it is the `where 1=0` query |
| WellList.QueryRoundTrip | app/Http/Controllers/PozoController.php:85-102 | splitting the IN list on `,` and casting each piece gives back the ids, in order |
| WellList.BuildQueryInjective | app/Http/Controllers/PozoController.php:81-86 | different id lists give different query texts |
| WellList.InListCharset | app/Http/Controllers/PozoController.php:85-102 | the text between `IN (` and `)` holds only digits, `-` and `,` |
| WellList.InListEnds | app/Http/Controllers/PozoController.php:85-86 | the IN list neither starts nor ends with a comma |
| WellList.HistoricCall | app/Http/Controllers/PozoController.php:100 | the historic ids query runs on the resolved connection with no parameters |
| WellList.WellListCall | app/Http/Controllers/PozoController.php:57 | the well list query runs on the resolved connection, with no parameters, on the text built from the ids |
| WellList.ListWells | app/Http/Controllers/PozoController.php:54-67 | the historic query runs first; 200 comes after exactly two calls and carries the list query's rows; 500 carries the message of the query that raised, with no call after it |
| WellList.ObtenerPozos | app/Http/Controllers/PozoController.php:42-68 | 400 exactly for a rejected connection, with no query; otherwise the outcome of the queries on the resolved connection |
| WellList.ListQueryFollowsHistory | app/Http/Controllers/PozoController.php:54-104 | on a resolved connection, the list query asks for exactly the ids loaded from the historic query; 200 exactly when both queries answer; 500 after the historic query alone when it raises |
| WellList.NoHistoryNoWells | app/Http/Controllers/PozoController.php:55-83 | no historic rows send the `where 1=0` query |
| WellList.ListQuerySelectsHistoricIds | app/Http/Controllers/PozoController.php:55-104 | with ids handed over as decimal text, the list query is built from exactly those integers |

## Left out

- SQL Server execution: `AVG`, `ROUND(…, 1)` and decimal arithmetic are not modelled. Averages are given as integer tenths per bucket (hour or day), already rounded.
- `DATENAME(WEEKDAY, …)` is localised by SQL Server; the model gives the weekday as an enumeration, not its name in the server's language.
- `master..spt_values` is assumed to have at least 24 rows, so the hour skeleton is complete.
- `IdPozo` is assumed to identify one well name, so each bucket has at most one Promedios row.
- `MAXRECURSION 0` and the `FORMAT` culture are not modelled.
- MonthlyReport.MonthStart: only the strict `YYYY-MM` form with year 1..9999 is modelled. Other texts SQL Server might still convert, such as `2025-2` or a year followed by other separators, are treated as failing to convert.
- The month text is spliced into the SQL unescaped. The injection this allows is not modelled: every text is taken as a value of `@Mes`.
- Php.IntCast: leading whitespace, exponents, and the overflow of 64-bit PHP integers are not modelled.
- Ordered PHP arrays are keyed by strings only; PHP's conversion of numeric-string keys to integers is not modelled.
- JSON encoding is not modelled; responses are a status and a body datatype. The 500 body `{success: false, data: [], error}` is modelled by its message alone.
- The allow-list is a class constant, so no operation can change it; in the model it is a `const`.
- Request validation (`PozosIdRequest`), the CORS middleware, the kernel and routing are not modelled. `routes.php` refers to a `generarReporte` action that the daily controller does not define.
- The pass-through controllers (tags, all wells, connection test) have no logic of their own and are not modelled.
- The credentials and environment variables of `config/database.php` are not modelled; only its connection keys are.
- The database is an oracle: connection failures, timeouts and concurrency between requests are outside the model.
