/** The decision `main` takes once the command-line flags are parsed. */
module Startup {

  datatype Mode =
    | PrintVersion   // print the version and return
    | PrintHelp      // print the flag defaults and return
    | RunServer      // initialise the subsystems and serve

  /** The default of the `-srvaddr` flag. */
  const DefaultSrvAddr := ":8080"

  /** `-version` wins over everything; otherwise `-help` or an empty server
      address asks for the help text; only a non-empty address with neither
      flag set starts the server. */
  function SelectMode(version: bool, help: bool, srvaddr: string): (m: Mode)
    ensures m == PrintVersion <==> version
    ensures m == PrintHelp <==> !version && (help || srvaddr == [])
    ensures m == RunServer <==> !version && !help && srvaddr != []
  {
    if version then PrintVersion
    else if help || |srvaddr| == 0 then PrintHelp
    else RunServer
  }

  /** With no flags given the server starts on the default address. */
  lemma DefaultsRunServer()
    ensures SelectMode(false, false, DefaultSrvAddr) == RunServer
  {
  }
}
