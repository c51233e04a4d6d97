/**
 * The injection loop at the end of `index.js`: one WebSocket per discovered debugger
 * URL and, once that socket's `open` event fires, one `Runtime.evaluate` command per
 * user script, in the order of `Object.entries(scripts)`.  Each send sits in its own
 * `try`/`catch`: a send that throws is logged and the loop goes on.  The network is
 * given as inputs: `opens(id)` says whether the socket for window `id` ever opens,
 * `fails(id, k)` whether its `k`-th send throws, and `rejects(uri)` whether
 * `new WebSocket(uri)` throws on the URL (one it cannot use), which nothing catches.
 */
module Dispatch {
  import opened JsObject
  import opened Protocol

  /** One send: the script it carries, the command, and whether `wss.send` returned normally. */
  datatype Attempt = Attempt(script: string, command: Command, delivered: bool)

  /** What the console shows for a socket: `console.info` before a send, `console.error` after a failed one. */
  datatype LogEvent = Injecting(script: string) | SendFailed(window: string)

  /** The WebSocket created for one discovered window, and what went over it. */
  datatype Socket = Socket(id: string, uri: string, attempts: seq<Attempt>, log: seq<LogEvent>)

  /** The console lines a sequence of sends produces for window `id`. */
  function LogOf(id: string, attempts: seq<Attempt>): (log: seq<LogEvent>)
    ensures |log| >= |attempts|
    decreases |attempts|
  {
    if attempts == [] then []
    else
      var last := attempts[|attempts| - 1];
      LogOf(id, attempts[..|attempts| - 1]) + [Injecting(last.script)] + (if last.delivered then [] else [SendFailed(id)])
  }

  /** The number of sends that threw. */
  function Failures(attempts: seq<Attempt>): nat
    decreases |attempts|
  {
    if attempts == [] then 0
    else Failures(attempts[..|attempts| - 1]) + (if attempts[|attempts| - 1].delivered then 0 else 1)
  }

  /** The console shows one line per send and one more per send that threw. */
  lemma {:induction false} LogLength(id: string, attempts: seq<Attempt>)
    ensures |LogOf(id, attempts)| == |attempts| + Failures(attempts)
    decreases |attempts|
  {
    if attempts != [] {
      LogLength(id, attempts[..|attempts| - 1]);
    }
  }

  lemma LogOfSnoc(id: string, attempts: seq<Attempt>, a: Attempt)
    ensures LogOf(id, attempts + [a]) ==
      LogOf(id, attempts) + [Injecting(a.script)] + (if a.delivered then [] else [SendFailed(id)])
  {
    assert (attempts + [a])[..|attempts|] == attempts;
  }

  /** The send of the `k`-th script of `scripts` on window `id`. */
  function Planned(id: string, scripts: Dict<string>, fails: (string, nat) -> bool, k: nat): (a: Attempt)
    requires scripts.Valid() && k < |scripts.keys|
    ensures a.script == scripts.keys[k] && a.delivered == !fails(id, k)
    ensures IsInjection(a.command) && a.command.params.expression == scripts.values[a.script]
  {
    Attempt(scripts.keys[k], EvaluateCommand(scripts.values[scripts.keys[k]]), !fails(id, k))
  }

  /** The `open` handler of window `id`: the sends of every script, in entry order. */
  method InjectInto(id: string, scripts: Dict<string>, fails: (string, nat) -> bool)
    returns (attempts: seq<Attempt>, log: seq<LogEvent>)
    requires scripts.Valid()
    ensures |attempts| == |scripts.keys|
    ensures forall k :: 0 <= k < |attempts| ==> attempts[k] == Planned(id, scripts, fails, k)
    ensures log == LogOf(id, attempts)
  {
    attempts, log := [], [];
    for k := 0 to |scripts.keys|
      invariant |attempts| == k
      invariant forall j :: 0 <= j < k ==> attempts[j] == Planned(id, scripts, fails, j)
      invariant log == LogOf(id, attempts)
    {
      var name := scripts.keys[k];
      var content := scripts.values[name];
      log := log + [Injecting(name)];
      var command := EvaluateCommand(content);
      var delivered := !fails(id, k);
      if !delivered {
        log := log + [SendFailed(id)];
      }
      var attempt := Attempt(name, command, delivered);
      LogOfSnoc(id, attempts, attempt);
      attempts := attempts + [attempt];
    }
  }

  /** The URL of the `i`-th entry of `sockets`. */
  function Uri(sockets: Dict<string>, i: nat): string
    requires sockets.Valid() && i < |sockets.keys|
  {
    sockets.values[sockets.keys[i]]
  }

  /**
   * The whole loop: one socket per entry of `sockets`, in entry order, each behaving as
   * `SocketFor` says, up to the first URL `new WebSocket` rejects; that throw ends the
   * loop (`aborted`).
   */
  method InjectAll(sockets: Dict<string>, scripts: Dict<string>, opens: string -> bool,
                   fails: (string, nat) -> bool, rejects: string -> bool)
    returns (created: seq<Socket>, aborted: bool)
    requires sockets.Valid() && scripts.Valid()
    ensures Injected(created, sockets, scripts, opens, fails, rejects)
    ensures aborted <==> |created| < |sockets.keys|
  {
    created, aborted := [], false;
    for i := 0 to |sockets.keys|
      invariant |created| == i
      invariant forall j :: 0 <= j < i ==>
        !rejects(Uri(sockets, j)) && SocketFor(created[j], sockets.keys[j], Uri(sockets, j), scripts, opens, fails)
    {
      var id := sockets.keys[i];
      var uri := sockets.values[id];
      if rejects(uri) {
        aborted := true;
        return;
      }
      var socket := Socket(id, uri, [], []);
      if opens(id) {
        var attempts, log := InjectInto(id, scripts, fails);
        socket := Socket(id, uri, attempts, log);
      }
      created := created + [socket];
    }
  }

  /**
   * What the loop over `sockets` created: the sockets of a prefix of the entries, in
   * entry order, each for a URL `new WebSocket` accepts; the entry after that prefix,
   * if any, is one whose URL it rejects.
   */
  ghost predicate Injected(created: seq<Socket>, sockets: Dict<string>, scripts: Dict<string>,
                           opens: string -> bool, fails: (string, nat) -> bool, rejects: string -> bool)
    requires sockets.Valid() && scripts.Valid()
  {
    && |created| <= |sockets.keys|
    && (forall i :: 0 <= i < |created| ==>
          !rejects(Uri(sockets, i)) && SocketFor(created[i], sockets.keys[i], Uri(sockets, i), scripts, opens, fails))
    && (|created| < |sockets.keys| ==> rejects(Uri(sockets, |created|)))
  }

  /** Some entry's URL is one `new WebSocket` rejects. */
  ghost predicate AnyRejected(sockets: Dict<string>, rejects: string -> bool)
    requires sockets.Valid()
  {
    exists i :: 0 <= i < |sockets.keys| && rejects(Uri(sockets, i))
  }

  /** The loop stops short exactly when some URL is rejected, and then at the first such entry. */
  lemma StopsAtFirstRejected(created: seq<Socket>, sockets: Dict<string>, scripts: Dict<string>,
                             opens: string -> bool, fails: (string, nat) -> bool, rejects: string -> bool)
    requires sockets.Valid() && scripts.Valid()
    requires Injected(created, sockets, scripts, opens, fails, rejects)
    ensures |created| < |sockets.keys| <==> AnyRejected(sockets, rejects)
    ensures !AnyRejected(sockets, rejects) ==> |created| == |sockets.keys|
  {
    if |created| == |sockets.keys| {
      assert forall i :: 0 <= i < |sockets.keys| ==> !rejects(Uri(sockets, i));
    }
  }

  /**
   * The socket created for window `id` at `uri`: a socket that never opens sends
   * nothing and logs nothing, and an open one carries every script in order.
   */
  ghost predicate SocketFor(s: Socket, id: string, uri: string, scripts: Dict<string>,
                            opens: string -> bool, fails: (string, nat) -> bool)
    requires scripts.Valid()
  {
    && s.id == id && s.uri == uri
    && (!opens(id) ==> s.attempts == [] && s.log == [])
    && (opens(id) ==> InjectedInOrder(s, scripts, fails))
  }

  /**
   * An opened socket carried one `Runtime.evaluate` per script, in entry order, each
   * with that script's text as expression, each logged, each failure logged after it.
   */
  ghost predicate InjectedInOrder(s: Socket, scripts: Dict<string>, fails: (string, nat) -> bool)
    requires scripts.Valid()
  {
    && |s.attempts| == |scripts.keys|
    && (forall k :: 0 <= k < |s.attempts| ==> s.attempts[k] == Planned(s.id, scripts, fails, k))
    && s.log == LogOf(s.id, s.attempts)
  }

  /**
   * A failed send does not stop the loop: every script is still attempted, and the
   * scripts before and after a failure are delivered as if it had not happened.
   */
  lemma FailureContained(s: Socket, scripts: Dict<string>, fails: (string, nat) -> bool, k: nat)
    requires scripts.Valid() && InjectedInOrder(s, scripts, fails)
    requires k < |scripts.keys| && fails(s.id, k)
    ensures |s.attempts| == |scripts.keys|
    ensures !s.attempts[k].delivered && SendFailed(s.id) in s.log
    ensures forall j :: 0 <= j < |s.attempts| && !fails(s.id, j) ==> s.attempts[j].delivered
  {
    LogSplit(s.id, s.attempts, k);
  }

  /** The log of a failed send holds its error line. */
  lemma {:induction false} LogSplit(id: string, attempts: seq<Attempt>, k: nat)
    requires k < |attempts| && !attempts[k].delivered
    ensures SendFailed(id) in LogOf(id, attempts)
    decreases |attempts|
  {
    var n := |attempts|;
    if k < n - 1 {
      assert attempts[..n - 1][k] == attempts[k];
      LogSplit(id, attempts[..n - 1], k);
    }
  }

  /** Every message an injection sends is the fixed `Runtime.evaluate` command. */
  lemma OnlyEvaluate(s: Socket, scripts: Dict<string>, fails: (string, nat) -> bool)
    requires scripts.Valid() && InjectedInOrder(s, scripts, fails)
    ensures forall k :: 0 <= k < |s.attempts| ==>
      IsInjection(s.attempts[k].command) && s.attempts[k].command.params.expression == scripts.values[s.attempts[k].script]
  {
  }

  /**
   * Sockets do not affect each other: what a socket sends and logs is fixed by its own
   * window's open event and send failures, whatever happens on the other sockets.
   */
  lemma Isolated(s1: Socket, s2: Socket, id: string, uri: string, scripts: Dict<string>,
                 opens1: string -> bool, fails1: (string, nat) -> bool,
                 opens2: string -> bool, fails2: (string, nat) -> bool)
    requires scripts.Valid()
    requires SocketFor(s1, id, uri, scripts, opens1, fails1) && SocketFor(s2, id, uri, scripts, opens2, fails2)
    requires opens1(id) == opens2(id)
    requires forall k :: 0 <= k < |scripts.keys| ==> fails1(id, k) == fails2(id, k)
    ensures s1 == s2
  {
    if opens1(id) {
      assert s1.attempts == s2.attempts;
    }
  }
}
