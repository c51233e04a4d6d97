/**
 * The message the injector sends over each debugger WebSocket: a Chrome DevTools
 * Protocol `Runtime.evaluate` command whose `expression` is a user script's text,
 * every other field fixed.  The message is kept as the object `JSON.stringify` is
 * given, a JSON value with its members in the order the object literal lists them.
 */
module Protocol {
  import opened Wrappers

  /** The `params` of a `Runtime.evaluate` command. */
  datatype EvaluateParams = EvaluateParams(
    contextId: int,
    doNotPauseOnExceptionsAndMuteConsole: bool,
    expression: string,
    generatePreview: bool,
    includeCommandLineAPI: bool,
    objectGroup: string,
    returnByValue: bool,
    userGesture: bool)

  /** A DevTools command: its `id`, its `method` and its parameters. */
  datatype Command = Command(id: int, methodName: string, params: EvaluateParams)

  /** The fixed fields of every message the injector sends. */
  predicate IsInjection(c: Command) {
    && c.id == 1
    && c.methodName == "Runtime.evaluate"
    && c.params.contextId == 1
    && !c.params.doNotPauseOnExceptionsAndMuteConsole
    && !c.params.generatePreview
    && c.params.includeCommandLineAPI
    && c.params.objectGroup == "console"
    && !c.params.returnByValue
    && c.params.userGesture
  }

  /** The command sent for a script whose text is `content`. */
  function EvaluateCommand(content: string): (c: Command)
    ensures IsInjection(c) && c.params.expression == content
  {
    Command(1, "Runtime.evaluate", EvaluateParams(1, false, content, false, true, "console", false, true))
  }

  /** The injected commands are exactly the fixed command, one per script text. */
  lemma InjectionIsEvaluate(c: Command)
    ensures IsInjection(c) <==> c == EvaluateCommand(c.params.expression)
  {
  }

  /** A JSON value. */
  datatype Json = JBool(b: bool) | JNum(n: int) | JStr(s: string) | JObj(members: seq<(string, Json)>)

  function ParamsJson(p: EvaluateParams): Json {
    JObj([
      ("contextId", JNum(p.contextId)),
      ("doNotPauseOnExceptionsAndMuteConsole", JBool(p.doNotPauseOnExceptionsAndMuteConsole)),
      ("expression", JStr(p.expression)),
      ("generatePreview", JBool(p.generatePreview)),
      ("includeCommandLineAPI", JBool(p.includeCommandLineAPI)),
      ("objectGroup", JStr(p.objectGroup)),
      ("returnByValue", JBool(p.returnByValue)),
      ("userGesture", JBool(p.userGesture))])
  }

  /** The object literal handed to `JSON.stringify`. */
  function ToJson(c: Command): Json {
    JObj([("id", JNum(c.id)), ("method", JStr(c.methodName)), ("params", ParamsJson(c.params))])
  }

  /** The value of member `i` when it is named `name`. */
  function Field(members: seq<(string, Json)>, i: nat, name: string): Option<Json> {
    if i < |members| && members[i].0 == name then Some(members[i].1) else None
  }

  function ParamsFromJson(j: Json): Option<EvaluateParams> {
    if !j.JObj? || |j.members| != 8 then None
    else
      var m := j.members;
      match (Field(m, 0, "contextId"), Field(m, 1, "doNotPauseOnExceptionsAndMuteConsole"),
             Field(m, 2, "expression"), Field(m, 3, "generatePreview"))
      case (Some(JNum(contextId)), Some(JBool(mute)), Some(JStr(expression)), Some(JBool(preview))) =>
        (match (Field(m, 4, "includeCommandLineAPI"), Field(m, 5, "objectGroup"),
                Field(m, 6, "returnByValue"), Field(m, 7, "userGesture"))
         case (Some(JBool(commandLine)), Some(JStr(group)), Some(JBool(byValue)), Some(JBool(gesture))) =>
           Some(EvaluateParams(contextId, mute, expression, preview, commandLine, group, byValue, gesture))
         case _ => None)
      case _ => None
  }

  /** Reading a message in the layout `ToJson` writes; `None` for any other JSON value. */
  function FromJson(j: Json): Option<Command> {
    if !j.JObj? || |j.members| != 3 then None
    else
      var m := j.members;
      match (Field(m, 0, "id"), Field(m, 1, "method"), Field(m, 2, "params"))
      case (Some(JNum(id)), Some(JStr(methodName)), Some(params)) =>
        (match ParamsFromJson(params)
         case Some(p) => Some(Command(id, methodName, p))
         case None => None)
      case _ => None
  }

  /** Every command survives the trip to JSON and back. */
  lemma ReadWritten(c: Command)
    ensures FromJson(ToJson(c)) == Some(c)
  {
    assert ParamsFromJson(ParamsJson(c.params)) == Some(c.params);
  }

  /** A JSON value that reads as a command is exactly what that command writes. */
  lemma WrittenRead(j: Json, c: Command)
    requires FromJson(j) == Some(c)
    ensures ToJson(c) == j
  {
    var m := j.members;
    var p := m[2].1;
    assert ParamsFromJson(p) == Some(c.params);
    assert ParamsJson(c.params).members == p.members;
    assert ToJson(c).members == m;
  }
}
