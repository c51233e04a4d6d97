/**
 * The top level of `index.js`: settle the debugger port, locate the Slack install,
 * read the user scripts, restart Slack with remote debugging on that port, collect
 * the debugger sockets and inject the scripts into each.  What the program does to
 * the outside world is recorded as a sequence of actions; the answers it gets back
 * (a free port, the file system, the debugger endpoint, the sockets) are inputs.
 */
module Launcher {
  import opened Wrappers
  import opened JsObject
  import opened JsNumber
  import opened Install
  import opened Scripts
  import opened Discovery
  import opened Dispatch

  /**
   * An effect on the outside world, in the order the program performs them.  `Crash`
   * is an uncaught error, which ends the program.
   */
  datatype Action =
    | RequestFreePort
    | ConsoleError(text: string)
    | Exit(code: int)
    | ReadScriptDir(dir: string)
    | KillProcesses(name: string)
    | Spawn(installDir: string, args: seq<string>)
    | Discover(port: nat, polls: nat)
    | Crash(error: string)

  /** `config`: the port (`null` as `None`) and the debug flag. */
  class Config {
    var port: Option<nat>
    const debug: bool

    constructor(port: Option<nat>)
      ensures this.port == port && !debug
    {
      this.port := port;
      debug := false;
    }
  }

  /** `!!port`: a port that is neither `null` nor 0. */
  predicate PortSet(port: Option<nat>) {
    port.Some? && port.value != 0
  }

  const NoPort := "Unable to find free port!"
  const NoInstall := "Unable to locate Slack install!"

  /** The uncaught errors: `path.join` handed `undefined`, a missing script directory, a malformed socket URL. */
  const PathError := "TypeError"
  const NoScriptDir := "ENOENT"
  const BadUrl := "SyntaxError"

  /** The actions before the install is located: a port request unless one was configured. */
  function Asked(configuredPort: Option<nat>): seq<Action> {
    if PortSet(configuredPort) then [] else [RequestFreePort]
  }

  /** The port the program settles on, given that one of the two is set. */
  function ChosenPort(configuredPort: Option<nat>, freePort: Option<nat>): nat
    requires PortSet(configuredPort) || PortSet(freePort)
  {
    if PortSet(configuredPort) then configuredPort.value else freePort.value
  }

  /** The command-line flag that turns on the remote debugger. */
  function DebugFlag(port: nat): string {
    "--remote-debugging-port=" + Decimal(port)
  }

  /**
   * The actions from reading the scripts on, once an install is located: a missing
   * `custom` directory crashes the program before Slack is touched; otherwise Slack is
   * killed, respawned with the debugger on `port` and polled 11 times, and the program
   * crashes if the URL of some discovered window is rejected by `new WebSocket`.
   */
  ghost function Started(installDir: string, port: nat, scriptListing: Option<seq<string>>,
                         sockets: Dict<string>, rejects: string -> bool): seq<Action>
    requires sockets.Valid()
  {
    if scriptListing.None? then [ReadScriptDir("custom"), Crash(NoScriptDir)]
    else
      [ReadScriptDir("custom"), KillProcesses("slack"), Spawn(installDir, [DebugFlag(port)]), Discover(port, 11)]
      + (if AnyRejected(sockets, rejects) then [Crash(BadUrl)] else [])
  }

  /**
   * Everything after the install is located: read the scripts, kill Slack, respawn it
   * with the debugger on `port`, poll the debugger 11 times and open one socket per
   * discovered window, injecting every script into each.
   */
  method StartSlack(installDir: string, port: nat,
                    scriptListing: Option<seq<string>>, read: string -> string,
                    respond: nat -> Response, opens: string -> bool, fails: (string, nat) -> bool,
                    rejects: string -> bool)
    returns (actions: seq<Action>, created: seq<Socket>)
    ensures actions == Started(installDir, port, scriptListing, Collected(respond, 11), rejects)
    ensures scriptListing.None? ==> created == []
    ensures scriptListing.Some? ==>
      Injected(created, Collected(respond, 11), ScriptTable(scriptListing.value, read), opens, fails, rejects)
  {
    var scripts := ReadScripts(scriptListing, read);
    if scripts.None? {
      actions, created := [ReadScriptDir("custom"), Crash(NoScriptDir)], [];
      return;
    }
    var sockets, polls, sleptMs := GetElectronSockets(respond, 10);
    var aborted;
    created, aborted := InjectAll(sockets, scripts.value, opens, fails, rejects);
    StopsAtFirstRejected(created, sockets, scripts.value, opens, fails, rejects);
    actions := [ReadScriptDir("custom"), KillProcesses("slack"), Spawn(installDir, [DebugFlag(port)]), Discover(port, polls)]
      + (if aborted then [Crash(BadUrl)] else []);
  }

  /**
   * One run of the program.  `freePort` is what the port allocator answers; the install
   * is located by `GetSlackLocation` as written.  Without a port, or without an install,
   * the program logs an error and exits with code 1 before it reads a script, kills a
   * process or spawns Slack; when locating the install throws, it crashes at that
   * point.  Otherwise it goes on as `Started` describes.
   */
  method Launch(configuredPort: Option<nat>, freePort: Option<nat>,
                appDataSet: bool, slackDirExists: bool, dirs: seq<string>, exeExists: string -> bool,
                scriptListing: Option<seq<string>>, read: string -> string,
                respond: nat -> Response, opens: string -> bool, fails: (string, nat) -> bool,
                rejects: string -> bool)
    returns (actions: seq<Action>, created: seq<Socket>)
    ensures !PortSet(configuredPort) && !PortSet(freePort) ==>
      actions == [RequestFreePort, ConsoleError(NoPort), Exit(1)] && created == []
    ensures PortSet(configuredPort) || PortSet(freePort) ==> SlackLocation(appDataSet, slackDirExists, dirs, exeExists) == Threw ==>
      actions == Asked(configuredPort) + [Crash(PathError)] && created == []
    ensures PortSet(configuredPort) || PortSet(freePort) ==> SlackLocation(appDataSet, slackDirExists, dirs, exeExists) == NotFound ==>
      actions == Asked(configuredPort) + [ConsoleError(NoInstall), Exit(1)] && created == []
    ensures PortSet(configuredPort) || PortSet(freePort) ==> SlackLocation(appDataSet, slackDirExists, dirs, exeExists).Found? ==>
      actions == Asked(configuredPort) + Started(SlackLocation(appDataSet, slackDirExists, dirs, exeExists).installDir,
                                                 ChosenPort(configuredPort, freePort), scriptListing, Collected(respond, 11), rejects)
    ensures PortSet(configuredPort) || PortSet(freePort) ==> SlackLocation(appDataSet, slackDirExists, dirs, exeExists).Found? ==>
      (scriptListing.None? ==> created == []) &&
      (scriptListing.Some? ==>
        Injected(created, Collected(respond, 11), ScriptTable(scriptListing.value, read), opens, fails, rejects))
  {
    var config := new Config(configuredPort);
    actions, created := [], [];
    if !PortSet(config.port) {
      actions := actions + [RequestFreePort];
      config.port := freePort;
      if !PortSet(config.port) {
        actions := actions + [ConsoleError(NoPort), Exit(1)];
        return;
      }
    }
    var port := config.port.value;
    var exePath := GetSlackLocation(appDataSet, slackDirExists, dirs, exeExists);
    if exePath.Threw? {
      actions := actions + [Crash(PathError)];
      return;
    }
    if exePath.NotFound? {
      actions := actions + [ConsoleError(NoInstall), Exit(1)];
      return;
    }
    assert actions == Asked(configuredPort) && port == ChosenPort(configuredPort, freePort);
    var started;
    started, created := StartSlack(exePath.installDir, port, scriptListing, read, respond, opens, fails, rejects);
    actions := actions + started;
  }
}
