/**
 * `Utils.getElectronSockets`: poll the Electron remote debugger's `/json/list`
 * endpoint `maxAttempts + 1` times, one second apart, and collect the WebSocket
 * debugger URL of every page target, keyed by target id, the first URL seen for an
 * id winning.  The network is given as an input: `respond(k)` is the outcome of the
 * `k`-th request (0-based), either a failure (the fetch or the JSON parse threw) or
 * the listed targets.
 */
module Discovery {
  import opened Wrappers
  import opened JsObject

  /**
   * One element of the listed array: `Missing` for `null`/`undefined`, otherwise a
   * target with its `type`, its `id` and its `webSocketDebuggerUrl`, the empty string
   * standing for a URL that is absent or empty (falsy).
   */
  datatype Window = Missing | Target(kind: string, id: string, url: string)

  /** The outcome of one request to `/json/list`. */
  datatype Response = Failed | Listed(windows: seq<Window>)

  /**
   * Names `data.sockets[id]` finds on `Object.prototype` even in an empty object; the
   * lookup is truthy, so a target with such an id is never stored.
   */
  const InheritedNames: set<string> := {
    "constructor", ProtoKey, "__defineGetter__", "__defineSetter__", "__lookupGetter__",
    "__lookupSetter__", "hasOwnProperty", "isPrototypeOf", "propertyIsEnumerable",
    "toLocaleString", "toString", "valueOf"
  }

  /** A page target with a URL, under an id the object can hold as its own key. */
  predicate Eligible(w: Window) {
    w.Target? && w.kind == "page" && w.url != "" && w.id !in InheritedNames
  }

  /** One pass of the loop body: store the URL of an eligible target not stored yet. */
  function Step(sockets: Dict<string>, w: Window): (r: Dict<string>)
    requires sockets.Valid()
    ensures r.Valid()
  {
    if Eligible(w) && w.id !in sockets.values then Put(sockets, w.id, w.url) else sockets
  }

  /**
   * The `for (const window of windows)` loop, window by window: the ids already stored
   * keep their places, and new ones are appended.
   */
  function Merge(sockets: Dict<string>, windows: seq<Window>): (r: Dict<string>)
    requires sockets.Valid()
    ensures r.Valid()
    ensures sockets.keys <= r.keys
    decreases |windows|
  {
    if windows == [] then sockets else Merge(Step(sockets, windows[0]), windows[1..])
  }

  /** One request: a failure leaves the sockets as they were. */
  function Absorb(sockets: Dict<string>, response: Response): (r: Dict<string>)
    requires sockets.Valid()
    ensures r.Valid()
  {
    match response
    case Failed => sockets
    case Listed(windows) => Merge(sockets, windows)
  }

  /** `data.sockets` after the first `n` requests. */
  function Collected(respond: nat -> Response, n: nat): (r: Dict<string>)
    ensures r.Valid()
  {
    if n == 0 then Empty() else Absorb(Collected(respond, n - 1), respond(n - 1))
  }

  /** Every target listed by the first `n` requests, in the order they were seen. */
  function History(respond: nat -> Response, n: nat): seq<Window> {
    if n == 0 then []
    else History(respond, n - 1) + (if respond(n - 1).Listed? then respond(n - 1).windows else [])
  }

  /** The accumulator `data` the recursive calls share. */
  class SocketSearch {
    var sockets: Dict<string>
    var attemptCount: nat

    ghost predicate Valid()
      reads this
    {
      sockets.Valid()
    }

    /** `data = {}` followed by the two defaulting assignments. */
    constructor()
      ensures Valid() && sockets == Empty() && attemptCount == 0
    {
      sockets := Empty();
      attemptCount := 0;
    }

    /** The `try` block: merge the listed targets into `sockets`. */
    method Poll(response: Response)
      requires Valid()
      modifies this
      ensures Valid()
      ensures sockets == Absorb(old(sockets), response)
      ensures attemptCount == old(attemptCount)
    {
      if response.Failed? {
        return;
      }
      var windows := response.windows;
      for i := 0 to |windows|
        invariant sockets.Valid()
        invariant attemptCount == old(attemptCount)
        invariant Merge(sockets, windows[i..]) == Merge(old(sockets), windows)
      {
        assert windows[i..][1..] == windows[i + 1..];
        var w := windows[i];
        if !w.Target? || w.kind != "page" {
          continue;
        }
        if w.url == "" {
          continue;
        }
        if w.id !in InheritedNames && w.id !in sockets.values {
          sockets := Put(sockets, w.id, w.url);
        }
      }
      assert windows[|windows|..] == [];
    }
  }

  /**
   * `Utils.getElectronSockets(port, maxAttempts)`: `polls` requests are made, with a
   * one-second sleep before each retry; the result is what they collected.
   */
  method GetElectronSockets(respond: nat -> Response, maxAttempts: int)
    returns (sockets: Dict<string>, polls: nat, sleptMs: nat)
    ensures polls == (if maxAttempts > 0 then maxAttempts + 1 else 1)
    ensures sockets == Collected(respond, polls)
    ensures sleptMs == 1000 * (polls - 1)
  {
    var data := new SocketSearch();
    data.Poll(respond(data.attemptCount));
    sleptMs := 0;
    while data.attemptCount < maxAttempts
      invariant data.Valid()
      invariant data.attemptCount == 0 || data.attemptCount <= maxAttempts
      invariant data.sockets == Collected(respond, data.attemptCount + 1)
      invariant sleptMs == 1000 * data.attemptCount
      decreases maxAttempts - data.attemptCount
    {
      sleptMs := sleptMs + 1000;
      data.attemptCount := data.attemptCount + 1;
      data.Poll(respond(data.attemptCount));
    }
    sockets, polls := data.sockets, data.attemptCount + 1;
  }

  /** Merging two runs of targets is merging their concatenation. */
  lemma {:induction false} MergeAppend(s: Dict<string>, a: seq<Window>, b: seq<Window>)
    requires s.Valid()
    ensures Merge(s, a + b) == Merge(Merge(s, a), b)
    decreases |a|
  {
    if a == [] {
      assert a + b == b;
    } else {
      assert (a + b)[0] == a[0] && (a + b)[1..] == a[1..] + b;
      MergeAppend(Step(s, a[0]), a[1..], b);
    }
  }

  /** What `n` requests collect is the merge of everything they listed. */
  lemma {:induction false} CollectedHistory(respond: nat -> Response, n: nat)
    ensures Collected(respond, n) == Merge(Empty(), History(respond, n))
  {
    if n > 0 {
      CollectedHistory(respond, n - 1);
      var more := if respond(n - 1).Listed? then respond(n - 1).windows else [];
      assert History(respond, n) == History(respond, n - 1) + more;
      assert Collected(respond, n) == Merge(Collected(respond, n - 1), more);
      MergeAppend(Empty(), History(respond, n - 1), more);
    }
  }

  /** A stored id is never overwritten. */
  lemma {:induction false} MergeKeeps(s: Dict<string>, windows: seq<Window>, id: string)
    requires s.Valid() && id in s.values
    ensures Merge(s, windows).Get(id) == s.Get(id)
    decreases |windows|
  {
    if windows != [] {
      MergeKeeps(Step(s, windows[0]), windows[1..], id);
    }
  }

  /** Without an eligible target of that id, nothing is stored under it. */
  lemma {:induction false} MergeNone(s: Dict<string>, windows: seq<Window>, id: string)
    requires s.Valid()
    requires forall i :: 0 <= i < |windows| ==> !(Eligible(windows[i]) && windows[i].id == id)
    ensures Merge(s, windows).Get(id) == s.Get(id)
    decreases |windows|
  {
    if windows != [] {
      assert forall i :: 0 <= i < |windows| - 1 ==> windows[1..][i] == windows[i + 1];
      MergeNone(Step(s, windows[0]), windows[1..], id);
    }
  }

  /** An id not stored yet gets the URL of its first eligible target. */
  lemma {:induction false} MergeFirst(s: Dict<string>, windows: seq<Window>, id: string, i: nat)
    requires s.Valid() && id !in s.values
    requires i < |windows| && Eligible(windows[i]) && windows[i].id == id
    requires forall j :: 0 <= j < i ==> !(Eligible(windows[j]) && windows[j].id == id)
    ensures Merge(s, windows).Get(id) == Some(windows[i].url)
    decreases |windows|
  {
    assert forall j :: 0 <= j < |windows| - 1 ==> windows[1..][j] == windows[j + 1];
    if i == 0 {
      MergeKeeps(Step(s, windows[0]), windows[1..], id);
    } else {
      MergeFirst(Step(s, windows[0]), windows[1..], id, i - 1);
    }
  }

  /**
   * The first URL seen wins: after `n` requests, an id whose first eligible sighting
   * carried `url` is mapped to `url`, whatever later requests list for it.
   */
  lemma FirstSightingWins(respond: nat -> Response, n: nat, i: nat)
    requires i < |History(respond, n)| && Eligible(History(respond, n)[i])
    requires forall j :: 0 <= j < i ==>
      !(Eligible(History(respond, n)[j]) && History(respond, n)[j].id == History(respond, n)[i].id)
    ensures Collected(respond, n).Get(History(respond, n)[i].id) == Some(History(respond, n)[i].url)
  {
    CollectedHistory(respond, n);
    MergeFirst(Empty(), History(respond, n), History(respond, n)[i].id, i);
  }

  /** Only page targets with a URL are stored: every stored id was listed so. */
  lemma OnlyPages(respond: nat -> Response, n: nat, id: string) returns (i: nat)
    requires id in Collected(respond, n).values
    ensures i < |History(respond, n)|
    ensures Eligible(History(respond, n)[i]) && History(respond, n)[i].id == id
    ensures Collected(respond, n).Get(id) == Some(History(respond, n)[i].url)
    ensures forall j :: 0 <= j < i ==> !(Eligible(History(respond, n)[j]) && History(respond, n)[j].id == id)
  {
    var h := History(respond, n);
    CollectedHistory(respond, n);
    if j :| 0 <= j < |h| && Eligible(h[j]) && h[j].id == id {
      i := FirstIndex(h, id, j);
      MergeFirst(Empty(), h, id, i);
    } else {
      MergeNone(Empty(), h, id);
      assert false;
    }
  }

  /** The first eligible target with a given id, given one. */
  lemma {:induction false} FirstIndex(h: seq<Window>, id: string, j: nat) returns (i: nat)
    requires j < |h| && Eligible(h[j]) && h[j].id == id
    ensures i <= j && Eligible(h[i]) && h[i].id == id
    ensures forall l :: 0 <= l < i ==> !(Eligible(h[l]) && h[l].id == id)
    decreases j
  {
    if l :| 0 <= l < j && Eligible(h[l]) && h[l].id == id {
      i := FirstIndex(h, id, l);
    } else {
      i := j;
    }
  }

  /** Names `Object.prototype` provides never become keys. */
  lemma InheritedNeverStored(respond: nat -> Response, n: nat, id: string)
    requires id in InheritedNames
    ensures id !in Collected(respond, n).values
  {
    if id in Collected(respond, n).values {
      var i := OnlyPages(respond, n, id);
    }
  }

  /** Later requests never change a stored URL. */
  lemma {:induction false} Stability(respond: nat -> Response, m: nat, n: nat, id: string)
    requires m <= n && id in Collected(respond, m).values
    ensures Collected(respond, n).Get(id) == Collected(respond, m).Get(id)
    decreases n - m
  {
    if m < n {
      var c := Collected(respond, m);
      if respond(m).Listed? {
        MergeKeeps(c, respond(m).windows, id);
      }
      assert Collected(respond, m + 1) == Absorb(c, respond(m));
      Stability(respond, m + 1, n, id);
    }
  }

  /** An endpoint that never lists a page target with a URL yields the empty object. */
  lemma SilentEndpoint(respond: nat -> Response, n: nat)
    requires forall i :: 0 <= i < |History(respond, n)| ==> !Eligible(History(respond, n)[i])
    ensures Collected(respond, n) == Empty()
  {
    var c := Collected(respond, n);
    if c.keys != [] {
      var i := OnlyPages(respond, n, c.keys[0]);
      assert false;
    }
    assert c.values == map[];
  }
}
