# slack-plus, modelled in Dafny

slack-plus injects user JavaScript into the Slack desktop client on Windows. It takes
a port for Electron's remote debugger and picks a Slack install under
`%LOCALAPPDATA%\slack\app-<version>`: the one whose version, with "app", "." and "-"
removed, is the largest number. It reads every `.js` file of the `custom`
directory, kills the running Slack and restarts it with `--remote-debugging-port`. It
then polls the debugger's `/json/list` endpoint for page targets and, on every
discovered page socket, sends each script as a DevTools `Runtime.evaluate` command.

This project models that core as follows:

- `js_object.dfy` (module `JsObject`): the JavaScript plain object the program fills
  (`versions`, `data.sockets`, `scripts`). It is an insertion-ordered string-keyed
  dictionary, together with the assignment sequences that fill it.
- `js_number.dfy` (module `JsNumber`): the part of `Number()`, `String()`, `Math.max`
  and truthiness that version keys reach. That covers digit strings, NaN, and
  `-Infinity` for an empty `Math.max()`.
- `install.dfy` (module `Install`): `Utils.getSlackLocation` in three parts.
  - The loop that fills `versions` is a method (`GetSlackLocation`), proved equal to a
    step-by-step specification (`SlackLocation`).
  - Lemmas characterise when it finds an install, returns `null` or throws.
  - A corrected locator (`LocateLatest`) orders releases by version.
- `release.dfy` (module `Release`): dotted release strings (`4.33.73`) and the release
  order the corrected locator uses.
- `discovery.dfy` (module `Discovery`): `Utils.getElectronSockets`.
  - The recursive retry becomes a loop over a `SocketSearch` object, which stands for
    the shared `data` argument and whose fields are updated in place.
  - `Collected` is the specification of what is collected.
- `scripts.dfy` (module `Scripts`): `Utils.readScripts`.
- `protocol.dfy` (module `Protocol`): the `Runtime.evaluate` message and its JSON
  layout.
- `dispatch.dfy` (module `Dispatch`): the per-socket injection loop at the end of
  `index.js`.
- `launcher.dfy` (module `Launcher`): the top level of `index.js`. Its effects are
  recorded as a sequence of actions.

The environment, the file system, the network and the port allocator are inputs. They
appear as parameters: `appDataSet`, `slackDirExists`, `dirs`,
`exeExists`, `scriptListing`, `read`, `respond`, `opens`, `fails`, `rejects` and
`freePort`.

Discovery never stops early. Every poll ends in the unconditional
`throw new Error('No websockets found in response')` at `utils.js:99`, which sits under
a "No socket found" TODO (`utils.js:97-98`). The `catch` then retries while
`attemptCount < maxAttempts`, so for a positive `maxAttempts` a call always makes
`maxAttempts + 1` requests, one second apart, whatever the requests list. Killing the
running Slack is recorded as an action; the process table is not modelled.

`Launch` locates the install with the as-written `GetSlackLocation`, so the runs it
describes include the as-written throw (a `Crash` action) and the as-written choice of
install. A corrected locator, `LocateLatest`, is modelled beside it, and "## Findings"
records where the two differ.

## Model

| member | source | states |
|---|---|---|
| JsObject.Put | src/utils.js:47 | `o[k] = v` with a string `v`: for `k` = `__proto__` nothing changes (the inherited setter ignores non-objects); otherwise afterwards `o[k]` is `v` and every other key reads as before, a new key is appended to the key order and an existing key keeps its place |
| JsObject.PutAllUntouched | src/utils.js:45-48 | an assignment run that never names `k` leaves `o[k]` as it was |
| JsObject.PutAllLast | src/utils.js:45-48 | after an assignment run, `o[k]` holds the value of the last assignment to `k` |
| JsObject.PutAllMember | src/utils.js:45-48 | `k` is a key after an assignment run exactly when it was one before, or it is not `__proto__` and some assignment names it |
| JsObject.PutAllFreshKeys | src/utils.js:122-126 | assignments to distinct new names leave the keys in assignment order, after the old ones |
| JsNumber.ToNumber | src/utils.js:51 | `Number(key)` on a version key is never -Infinity, and is a number exactly when the key is all digits (the empty key included) |
| JsNumber.Decimal | src/utils.js:55 | `String(n)` is a digit string without leading zeros, one digit long exactly when `n < 10` |
| JsNumber.DecimalRoundTrip | src/utils.js:55 | `Number(String(n))` is `n` for every natural number |
| JsNumber.NumeralRoundTrip | src/utils.js:51-55 | `String(Number(s))` gives back a digit string `s` exactly when `s` has no leading zero |
| JsNumber.LeadingDigitPositive | src/utils.js:52 | a digit string that does not start with 0 is a positive number, so it is truthy |
| JsNumber.Max | src/utils.js:51 | `Math.max(...xs)` is -Infinity exactly when every argument is (none at all included), NaN exactly when some argument is NaN, and otherwise the largest argument, which is one of them |
| Install.VersionKey | src/utils.js:46 | the key has no "." and no "-" and is no longer than the name |
| Install.VersionKeyDropsApp | src/utils.js:46 | a leading "app" in any case is dropped: `VersionKey("APP-4.1")` is `VersionKey("-4.1")` |
| Install.VersionKeyPlain | src/utils.js:46 | a name with no ".", no "-" and no case-insensitive "app" is its own key |
| Install.VersionKeyOfRelease | src/utils.js:46 | for a directory `app-<digits and dots>`, stripping "app", "." and "-" leaves the version's digits run together |
| Install.AppDirs | src/utils.js:41 | keeps exactly the listed names that start with `app-` |
| Install.AppDirsAppend | src/utils.js:41 | the filter keeps listing order: filtering a concatenation is concatenating the filtered parts |
| Install.GetSlackLocation | src/utils.js:36-58 | the method with the `versions` loop computes exactly `SlackLocation`, the step-by-step specification of `getSlackLocation`, including the throw for an unset `LOCALAPPDATA` |
| Install.VersionsKeys | src/utils.js:44-48 | the keys of `versions` are exactly the version keys of the app directories, except `__proto__` |
| Install.Lookup | src/utils.js:45-55 | `versions[k]` is the last app directory listed with key `k` |
| Install.LatestVersion | src/utils.js:51 | `latestVersion` is -Infinity exactly when no app directory is stored in `versions`, NaN exactly when some stored key is not a number, and otherwise the largest stored key value, which some app directory has |
| Install.LocationFound | src/utils.js:36-58 | a found install needs `LOCALAPPDATA` set, exists and is an `app-` directory of the slack directory. Its key is positive, has no leading zero and is no smaller than any other stored app directory's key, and no later app directory shares that key |
| Install.FoundAtLatest | src/utils.js:51-56 | a found install is the `versions` entry under the largest key, and that key is positive |
| Install.LocationNotFound | src/utils.js:36-57 | with `LOCALAPPDATA` set: `null` when the slack directory is missing, when some stored key is not a number, or when every stored key is 0; and, when the call does not throw, `null` when no listed directory holds a `slack.exe` |
| Install.LocationThrew | src/utils.js:36-55 | an unset `LOCALAPPDATA` throws; a slack directory storing no app directory throws; and a throw happens only in those cases or when some stored key is a numeral with a leading zero |
| Install.ThrewAt | src/utils.js:51-55 | with `LOCALAPPDATA` set and app directories stored, a throw points at an app directory whose key is the largest version number, positive, and a numeral written with a leading zero |
| Install.LatestPresent | src/utils.js:51-55 | a largest key without leading zeros is found again by `versions[latestVersion]` |
| Install.ProtoDirThrows | src/utils.js:46-55 | `app-__proto__` strips to `__proto__`, which `versions` does not store, so with only that app directory the call throws |
| Install.ConcatenatedDigitsMisorder | src/utils.js:46-51 | as written, with `app-4.9.10` and `app-4.10.0` installed, the older `app-4.9.10` is chosen |
| Install.Newest | src/utils.js:41-51 | corrected choice: picks a listed directory that names a release, and picks nothing exactly when none does |
| Install.NewestIsNewest | src/utils.js:41-51 | corrected choice: no listed directory holds a newer release than the one picked |
| Install.LocateLatestFound | src/utils.js:36-58 | corrected locator: a found install exists, names a release, and no directory of the slack directory holds a newer release |
| Install.LocateLatestNotFound | src/utils.js:36-58 | corrected locator: throws exactly when `LOCALAPPDATA` is unset; otherwise `null` without a slack directory or without any release directory |
| Install.ReleaseOrderKept | src/utils.js:46-51 | corrected locator: with `app-4.9.10` and `app-4.10.0` installed, `app-4.10.0` is chosen |
| Release.SplitDots | src/utils.js:46 | corrected locator: splitting a version string on '.' gives at least one part and no part holds a '.' |
| Release.JoinSplit | src/utils.js:46 | corrected locator: joining the parts with '.' gives back the version string |
| Release.SplitJoin | src/utils.js:46 | corrected locator: splitting a dot-free list of parts joined with '.' gives back the parts |
| Release.ParseParts | src/utils.js:46 | corrected locator: a version parses exactly when every part is a non-empty digit string, and each component is that part's value |
| Release.FormatParse | src/utils.js:46 | corrected locator: every release written as a dotted string parses back to itself |
| Release.ParseFormat | src/utils.js:46 | corrected locator: a parsed version string is written back identically exactly when no part has a leading zero |
| Release.OlderIrreflexive | src/utils.js:51 | corrected locator: no release is older than itself |
| Release.OlderAsymmetric | src/utils.js:51 | corrected locator: two releases are never each older than the other |
| Release.OlderTransitive | src/utils.js:51 | corrected locator: release order is transitive |
| Release.OlderTotal | src/utils.js:51 | corrected locator: any two different releases are ordered |
| Discovery.SocketSearch.Poll | src/utils.js:82-95 | one request merges the listed targets into `data.sockets` as `Absorb` says and leaves `attemptCount` alone; a failed request changes nothing |
| Discovery.GetElectronSockets | src/utils.js:78-111 | makes `maxAttempts + 1` requests (1 when `maxAttempts` is not positive), sleeps one second before each retry, and returns what those requests collected |
| Discovery.CollectedHistory | src/utils.js:78-111 | what `n` requests collect is the window loop run over everything they listed, in order |
| Discovery.Merge | src/utils.js:84-95 | the window loop keeps every stored id in its place in the key order |
| Discovery.MergeAppend | src/utils.js:84-95 | running the window loop over two lists in turn is running it over their concatenation |
| Discovery.MergeKeeps | src/utils.js:92-94 | a stored id is never overwritten |
| Discovery.MergeNone | src/utils.js:84-95 | an id with no eligible target is not stored |
| Discovery.MergeFirst | src/utils.js:84-95 | an id not yet stored gets the URL of its first eligible target |
| Discovery.FirstSightingWins | src/utils.js:78-111 | after `n` requests, an id maps to the URL of its first eligible sighting, whatever later requests list |
| Discovery.OnlyPages | src/utils.js:86-94 | every stored id was listed as a page target with a URL, and it holds the URL of its first such listing |
| Discovery.InheritedNeverStored | src/utils.js:92 | ids that name `Object.prototype` members (`constructor`, `toString`, ...) are never stored, because the lookup finds the inherited member |
| Discovery.Stability | src/utils.js:92-106 | later requests never change a stored URL |
| Discovery.SilentEndpoint | src/utils.js:78-111 | an endpoint that never lists a page target with a URL yields the empty object |
| Scripts.JsFiles | src/utils.js:121 | keeps exactly the listed names that end in `.js` |
| Scripts.JsFilesAppend | src/utils.js:121 | the filter keeps listing order: filtering a concatenation is concatenating the filtered parts |
| Scripts.JsNotProto | src/utils.js:121-126 | a `.js` name is never `__proto__`, so every script assignment stores its key |
| Scripts.ReadScripts | src/utils.js:118-129 | a missing directory (`readdirSync` throws) gives no table; otherwise the method with the `for` loop returns exactly `ScriptTable`, the object the assignments build |
| Scripts.ScriptEntries | src/utils.js:118-129 | the keys are exactly the listed `.js` names, each holding that file's text |
| Scripts.ScriptOrder | src/utils.js:121-126 | when the listing names each file once, the keys come in listing order |
| Protocol.EvaluateCommand | src/index.js:76-89 | the message for a script is a `Runtime.evaluate` command with the fixed fields and the script text as `expression` |
| Protocol.InjectionIsEvaluate | src/index.js:76-89 | a command has the fixed fields exactly when it is the message for its own expression |
| Protocol.ReadWritten | src/index.js:76-89 | every command read back from the JSON layout it is written in is itself |
| Protocol.WrittenRead | src/index.js:76-89 | a JSON value that reads as a command is exactly what that command writes |
| Dispatch.Planned | src/index.js:72-89 | the send for the `k`-th script carries that script's name, its text as expression of the fixed command, and whether the send threw |
| Dispatch.LogLength | src/index.js:73-93 | the console shows one "Injecting" line per send plus one error line per send that threw |
| Dispatch.InjectInto | src/index.js:66-95 | an opened socket sends one command per script in `Object.entries` order; every script is attempted, and the console log matches |
| Dispatch.InjectAll | src/index.js:56-96 | one socket per discovered entry, in entry order, each behaving as `SocketFor` says, up to the first entry whose URL `new WebSocket` rejects; the loop is aborted exactly when it stopped short |
| Dispatch.StopsAtFirstRejected | src/index.js:56-57 | the loop stops short exactly when some entry's URL is rejected, and otherwise creates a socket for every entry |
| Dispatch.FailureContained | src/index.js:75-93 | a failed send is logged and does not stop the loop: every script is still attempted, and every other send goes through |
| Dispatch.LogSplit | src/index.js:91-93 | a failed send leaves its error line in the log |
| Dispatch.OnlyEvaluate | src/index.js:76-89 | every message sent is the fixed `Runtime.evaluate` command carrying a script's text |
| Dispatch.Isolated | src/index.js:56-96 | what a socket sends and logs depends only on its own window's open event and send failures |
| Launcher.Config.constructor | src/index.js:5-8 | the configuration starts with the given port and debugging off |
| Launcher.StartSlack | src/index.js:26-96 | reads `custom`; a missing `custom` directory crashes before anything is killed or spawned. Otherwise kills `slack`, spawns the install with the debugging flag, polls 11 times and creates sockets as `InjectAll` says, crashing exactly when some collected URL is rejected |
| Launcher.Launch | src/index.js:5-96 | without a port: ask for one, then log "Unable to find free port!" and exit 1. When locating the install throws: crash. Without an install: log "Unable to locate Slack install!" and exit 1. In these cases nothing is read, killed or spawned and no socket is created. Otherwise the actions and sockets of `StartSlack` on the chosen port and the located install |

## Left out

- `Utils.killProcess` (`utils.js:14-30`): it is a call into the `ps-node` process
  table. The model only records a `KillProcesses("slack")` action.
- `Utils.sleep` (`utils.js:65-69`) is modelled only as the sleeping time `sleptMs`.
  There is no clock.
- `Utils.getFreePort` is not part of this model. `utils.js` defines no such member, so
  as written the call at `index.js:12` would throw whenever no port is configured. The
  model takes the allocator's answer as the input `freePort`.
- The console output of the spawned Slack (`index.js:36-44`), and the socket `error`
  handler and debug logging (`index.js:60-69`), are left out. They only print when
  `debug` is on, and `debug` is fixed to `false`.
- The `close` handler of the spawned Slack (`index.js:47-50`) is left out. It runs
  whenever that process exits, logs a warning and ends the program with the child's
  exit code. When the child exits is outside the model, which describes a run in which
  Slack stays open.
- The timing and interleaving of WebSocket events is left out. Each socket's `open` is
  an input `opens(id)`, and a throwing `send` is an input `fails(id, k)`.
- The request timestamp `t=${Date.now()}` is left out (a clock). So are the exact
  HTTP/JSON bytes: a response is either `Failed` or the parsed array.
- `JSON.stringify` output is modelled as the JSON tree it serialises, not as
  characters.
- File contents are modelled as the decoded text. `readFileSync` throwing (an
  unreadable file) is left out.
- The `!content` skip at `utils.js:124` is left out. A `Buffer` is always truthy, so it
  never fires.
- A listed element whose `webSocketDebuggerUrl` is a truthy non-string, and a
  `/json/list` answer that is not an array, are left out. The parsed response is
  modelled as an array of windows with string fields.
- JsNumber.ToNumber reads only digit strings. Version keys made of other characters
  all count as NaN. The model does not reproduce `Number()` on whitespace, signs, the
  hex, binary and octal prefixes `0x`, `0b` and `0o` (a directory `app-0b1` has the key
  `0b1`, which is 1), exponents or `Infinity`, nor floating-point precision beyond 2^53.
- JsObject.Dict keeps keys in insertion order, and so JsObject.Put appends a new key at
  the end and Discovery.Merge keeps the stored ids ahead of new ones. JavaScript lists
  array-index keys first, in ascending numeric order: a decimal numeral without a
  leading zero (or "0" itself) whose value is below 4294967295, such as "4910". Other
  keys, "04910" or a numeral of 4294967295 or more among them, keep insertion order as
  modelled. For `Object.keys(versions)` this makes no difference, because `Math.max`
  does not depend on order. Script names end in `.js`, so they are never array indices.
- JsObject.Put: "a new key is appended" does not hold for array-index keys, for the
  reason on the line above.
- Discovery.Merge: a new array-index id would be listed ahead of stored ids that are not
  array indices, for the same reason.
- InjectAll: the model takes the ids of `data.sockets` in insertion order. JavaScript's
  `Object.entries(sockets)` lists array-index window ids (as defined on the line above)
  first, in ascending numeric order, so for such ids the real order of sockets can
  differ from the one stated.
- GetElectronSockets: a `/json/list` request that never settles keeps the real program
  waiting forever. In the model every request answers, either with a list or with
  `Failed`.
- StartSlack: after a `Crash` the model still reports the sockets created before the
  rejected URL, each as `SocketFor` says. In Node the uncaught error ends the program,
  so none of them gets to send; the model leaves whether a socket opens to `opens`.
- Launcher.Launch calls `getElectronSockets` with its default of 10 retries, as
  `index.js:53` does. The number of polls is fixed at 11 in its contract.
- Whether `new WebSocket(uri)` rejects a URL is the input `rejects`. URL syntax itself is
  not modelled.

## Findings

| source | as written | input that shows it | evidently intended | confidence | as-written member | corrected member |
|---|---|---|---|---|---|---|
| src/utils.js:46-51 | the version key runs the release digits together and compares the results as numbers | `app-4.9.10` and `app-4.10.0`: keys 4910 and 4100, so `app-4.9.10` is chosen | pick the newest release by version order, `app-4.10.0` | not executed | Install.ConcatenatedDigitsMisorder | Install.ReleaseOrderKept |
| src/utils.js:51-55 | with no `app-` directory, `Math.max()` is -Infinity, which is truthy. `versions["-Infinity"]` is `undefined`, so `join` throws a TypeError | a slack directory holding no `app-` directory | return `null`, as for a missing slack directory | not executed | Install.LocationThrew | Install.LocateLatestNotFound |
