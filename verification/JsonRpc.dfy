/** Requests, responses, and which requests the daemon answers. */
module JsonRpc {
  import opened Options

  type Id = string

  datatype Request = Request(jsonrpc: string, method_: string, id: Option<Id>)

  /** A response carries either a result or an error code. */
  datatype Body = Result(text: string) | Error(code: int)

  /** Nothing in the type keeps a response from going out without an id. */
  datatype Response = Response(id: Option<Id>, body: Body)

  /** What the code around a request decides: parameters, sessions, the command table and the command's run. */
  datatype World = World(
    paramsParse: bool,
    sessionExists: bool,
    cwdAccepted: bool,
    sessionDestroyed: bool,
    commandKnown: bool,
    pathRejected: bool,
    rawOutput: bool,
    envelopeParses: bool,
    envelopeHasError: bool,
    output: string)

  predicate HasPrefix(s: string, p: string) { |p| <= |s| && s[..|p|] == p }

  function Respond(id: Option<Id>, body: Body): Option<Response> { Some(Response(id, body)) }

  /** The answer to one request, or None. Each branch looks at the id where the source does. */
  function ProcessRequest(req: Request, w: World): (r: Option<Response>)
    ensures r.Some? <==> req.id.Some?
    ensures r.Some? ==> r.value.id == req.id
    ensures r.Some? && req.jsonrpc != "2.0" ==> r.value.body == Error(-32600)
  {
    var id := req.id;
    if req.jsonrpc != "2.0" then
      if id.Some? then Respond(id, Error(-32600)) else None
    else if |req.method_| > 256 then
      if id.Some? then Respond(id, Error(-32600)) else None
    else if req.method_ == "goposix.ping" then
      if id.None? then None else Respond(id, Result(w.output))
    else if req.method_ == "goposix.session.create" then
      if id.None? then None else Respond(id, Result(w.output))
    else if req.method_ == "goposix.session.setCwd" then
      if id.None? then None
      else if w.paramsParse then
        if !w.sessionExists then Respond(id, Error(-32602))
        else if w.cwdAccepted then Respond(id, Result("true"))
        else Respond(id, Error(-32602))
      else Respond(id, Error(-32602))
    else if req.method_ == "goposix.session.list" then
      if id.None? then None else Respond(id, Result(w.output))
    else if req.method_ == "goposix.session.destroy" then
      if id.None? then None
      else if w.paramsParse && w.sessionDestroyed then Respond(id, Result("true"))
      else Respond(id, Error(-32602))
    else if req.method_ == "goposix.shell.exec" then
      if id.None? then None
      else if w.paramsParse then Respond(id, Result(w.output))
      else Respond(id, Error(-32602))
    else if !HasPrefix(req.method_, "goposix.") then
      if id.Some? then Respond(id, Error(-32601)) else None
    else if !w.commandKnown then
      if id.Some? then Respond(id, Error(-32601)) else None
    else if w.pathRejected then
      if id.Some? then Respond(id, Error(-32602)) else None
    else if w.rawOutput then
      if id.None? then None else Respond(id, Result(w.output))
    else if !w.envelopeParses then
      if id.Some? then Respond(id, Result(w.output)) else None
    else if id.None? then None
    else if w.envelopeHasError then Respond(id, Error(-32000))
    else Respond(id, Result(w.output))
  }

  const BUILT_IN: set<string> := {
    "goposix.ping", "goposix.session.create", "goposix.session.setCwd", "goposix.session.list",
    "goposix.session.destroy", "goposix.shell.exec"
  }

  const SETTERS: set<string> := {"goposix.session.setCwd", "goposix.session.destroy"}

  predicate WellFormed(req: Request) { req.jsonrpc == "2.0" && |req.method_| <= 256 }

  /** The request names a utility, and one that the daemon has. */
  predicate CallsUtility(req: Request, w: World) {
    WellFormed(req) && req.method_ !in BUILT_IN && HasPrefix(req.method_, "goposix.") && w.commandKnown
  }

  /** The parameters of a built-in method are refused. */
  predicate BadParameters(req: Request, w: World) {
    || (req.method_ == "goposix.session.setCwd" && !(w.paramsParse && w.sessionExists && w.cwdAccepted))
    || (req.method_ == "goposix.session.destroy" && !(w.paramsParse && w.sessionDestroyed))
    || (req.method_ == "goposix.shell.exec" && !w.paramsParse)
  }

  /** When each error code is answered, and what is answered otherwise. */
  lemma ErrorCodes(req: Request, w: World)
    requires req.id.Some?
    ensures var r := ProcessRequest(req, w);
      && r.Some?
      && (r.value.body == Error(-32600) <==> !WellFormed(req))
      && (r.value.body == Error(-32601) <==> WellFormed(req) && req.method_ !in BUILT_IN && !CallsUtility(req, w))
      && (r.value.body == Error(-32602) <==>
            (WellFormed(req) && BadParameters(req, w)) || (CallsUtility(req, w) && w.pathRejected))
      && (r.value.body == Error(-32000) <==>
            CallsUtility(req, w) && !w.pathRejected && !w.rawOutput && w.envelopeParses && w.envelopeHasError)
      && (r.value.body.Error? ==> r.value.body.code in {-32600, -32601, -32602, -32000})
      && (r.value.body.Result? ==>
            r.value.body.text == if req.method_ in SETTERS then "true" else w.output)
  {
  }
}
