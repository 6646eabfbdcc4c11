/**
 * DatabaseConnectionService: the allow-list of database connections a request may
 * name, from public name to Laravel connection name.
 */
module Connections {
  import opened Wrappers
  import opened Php

  /** CONEXIONES_PERMITIDAS, in declaration order. The class constant is never written. */
  const AllowList: seq<(string, string)> := [
    ("bd_MTC_PozaRica", "bd_MTC_PozaRica"),
    ("bd_SDMC_Motocomp", "bd_SDMC_Motocomp"),
    ("bd_MTC_Muspac", "bd_MTC_Muspac"),
    ("bd_Bellota", "bd_Bellota"),
    ("bd_MTC_CincoP", "bd_MTC_CincoP")
  ]

  /** The keys of 'connections' in the database configuration file. */
  const ConfiguredConnections: set<string> := {
    "sqlite", "mysql", "pgsql", "sqlsrv",
    "bd_MTC_PozaRica", "bd_SDMC_Motocomp", "bd_MTC_Muspac", "bd_Bellota", "bd_MTC_CincoP"
  }

  /** The five public names, written out. */
  predicate IsAllowListed(name: string)
  {
    name == "bd_MTC_PozaRica" || name == "bd_SDMC_Motocomp" || name == "bd_MTC_Muspac"
    || name == "bd_Bellota" || name == "bd_MTC_CincoP"
  }

  /** esConexionValida: isset(CONEXIONES_PERMITIDAS[name]). */
  function IsValidConnection(name: string): (valid: bool)
    ensures valid <==> IsAllowListed(name)
  {
    Get(AllowList, name).Some?
  }

  /** obtenerConexion: CONEXIONES_PERMITIDAS[name] ?? null. */
  function ResolveConnection(name: string): (r: Option<string>)
    ensures r.Some? <==> IsValidConnection(name)
    ensures r.Some? ==> r.value == name
  {
    assert Keys(AllowList) == [AllowList[0].0, AllowList[1].0, AllowList[2].0, AllowList[3].0, AllowList[4].0];
    Get(AllowList, name)
  }

  /** getConexionesDisponibles: array_keys(CONEXIONES_PERMITIDAS). */
  function AvailableConnections(): (names: seq<string>)
    ensures names == ["bd_MTC_PozaRica", "bd_SDMC_Motocomp", "bd_MTC_Muspac", "bd_Bellota", "bd_MTC_CincoP"]
    ensures Distinct(names)
  {
    Keys(AllowList)
  }

  /** A name is listed as available exactly when it is a valid connection. */
  lemma AvailableIffValid(name: string)
    ensures name in AvailableConnections() <==> IsValidConnection(name)
    ensures name in AvailableConnections() <==> ResolveConnection(name).Some?
  {
  }

  /** Every allowed name, and the connection it resolves to, is configured. */
  lemma AllowedAreConfigured(name: string)
    requires IsValidConnection(name)
    ensures name in ConfiguredConnections
    ensures ResolveConnection(name).value in ConfiguredConnections
  {
  }

  /** The 400 body: `{error, conexiones_disponibles}`. */
  datatype Rejection = Rejection(error: string, conexionesDisponibles: seq<string>)

  function RejectionBody(): (r: Rejection)
    ensures r.conexionesDisponibles == AvailableConnections()
  {
    Rejection("Conexión no válida", AvailableConnections())
  }

  /** `! $nombreConexion || ! esConexionValida($nombreConexion)`, the guard every controller opens with. */
  function ConnectionRejected(input: Option<string>): (rejected: bool)
    ensures !rejected ==> input.Some? && ResolveConnection(input.value) == Some(input.value)
  {
    Falsy(input) || !IsValidConnection(input.value)
  }

  /** The falsiness test adds nothing: a request is turned away exactly when it names no allowed connection. */
  lemma RejectedIffNotAllowed(input: Option<string>)
    ensures ConnectionRejected(input) <==> !(input.Some? && IsAllowListed(input.value))
  {
  }
}
