/** JSON-RPC requests and batches over a server whose tools change state. */
module JsonRpc {

  import opened Base
  import opened Json
  import Utf8

  // ---------- replies ----------

  datatype Cause =
    | WrongVersion
    | MethodMustBeString
    | ParamsMustBeObject
    | ArgumentsMustBeObject
    | MissingToolName
    | MethodNotFound(name: Text)
    | EntryMustBeObject
    | BodyMustBeObjectOrArray
    | BatchMustNotBeEmpty
    | ParseError

  const INVALID_REQUEST: int := -32600
  const METHOD_NOT_FOUND: int := -32601
  const INVALID_PARAMS: int := -32602
  const PARSE_ERROR: int := -32700

  datatype RpcError = RpcError(code: int, cause: Cause)

  /** A response object; error responses always carry a null id. */
  datatype Reply = Success(id: Json, value: Json) | Failure(error: RpcError)

  /** What `dispatch_request` throws: an error made for the client, or the error of the serialiser, which
      no handler here catches. */
  datatype Thrown = Rpc(error: RpcError) | TypeError

  /** The ways `dispatch_request` ends. */
  datatype Dispatched = Answer(reply: Reply) | Silence | Throws(thrown: Thrown)

  /** The body of the HTTP response, or no response of this server because an exception left its handler. */
  datatype Body = Empty | Single(reply: Reply) | Batch(replies: seq<Reply>) | Escaped

  /** `dump` succeeds: all text in the value is valid UTF-8. This holds of everything that was parsed. */
  predicate Writable(value: Json) {
    match value
    case Str(text) => Utf8.Valid(text)
    case Array(items) => forall i :: 0 <= i < |items| ==> Writable(items[i])
    case Object(members) => forall k :: k in members ==> Writable(members[k])
    case _ => true
  }

  /** What the server offers. A tool call turns every failure into a result. */
  datatype Config<!S> = Config(
    information: Json,
    toolList: Json,
    call: (S, Text, map<string, Json>) -> (S, Json))

  // ---------- one request ----------

  predicate HasString(members: map<string, Json>, key: string) {
    key in members && members[key].Str?
  }

  function Params(request: map<string, Json>): map<string, Json>
    requires "params" in request ==> request["params"].Object?
  {
    if "params" in request then request["params"].members else map[]
  }

  /** The checks before the method is looked at. */
  function CheckRequest(request: map<string, Json>): Option<RpcError> {
    if !HasString(request, "jsonrpc") || request["jsonrpc"].text != Ascii("2.0") then
      Some(RpcError(INVALID_REQUEST, WrongVersion))
    else if !HasString(request, "method") then Some(RpcError(INVALID_REQUEST, MethodMustBeString))
    else if "params" in request && !request["params"].Object? then Some(RpcError(INVALID_PARAMS, ParamsMustBeObject))
    else None
  }

  /** `dispatch_request`: the state after it, and how it ended. */
  function DispatchRequest<S>(cfg: Config<S>, s: S, request: map<string, Json>): (S, Dispatched) {
    var id := if "id" in request then request["id"] else Null;
    var invalid := CheckRequest(request);
    if invalid.Some? then (s, Throws(Rpc(invalid.value))) else
    var name := request["method"].text;
    var params := Params(request);
    if name == Ascii("notifications/initialized") then (s, Silence)
    else if name == Ascii("initialize") then (s, Answer(Success(id, cfg.information)))
    else if name == Ascii("ping") then (s, Answer(Success(id, Object(map[]))))
    else if name == Ascii("tools/list") then (s, Answer(Success(id, cfg.toolList)))
    else if name == Ascii("tools/call") then
      if !HasString(params, "name") then (s, Throws(Rpc(RpcError(INVALID_PARAMS, MissingToolName))))
      else if "arguments" in params && !params["arguments"].Object? then
        (s, Throws(Rpc(RpcError(INVALID_PARAMS, ArgumentsMustBeObject))))
      else
        var arguments := if "arguments" in params then params["arguments"].members else map[];
        var (t, value) := cfg.call(s, params["name"].text, arguments);
        (t, if Writable(value) then Answer(Success(id, value)) else Throws(TypeError))
    else (s, Throws(Rpc(RpcError(METHOD_NOT_FOUND, MethodNotFound(name)))))
  }

  /** The request is refused with this code. */
  predicate Refuses(d: Dispatched, code: int) {
    d.Throws? && d.thrown.Rpc? && d.thrown.error.code == code
  }

  /** Every answer carries the request's id or null; only a tool call that was made can change the state;
      a refusal names its cause by the code of the first check that fails; and the serialiser's error
      comes exactly from a tool call whose result it cannot write. */
  lemma {:induction false} DispatchMeaning<S>(cfg: Config<S>, s: S, request: map<string, Json>)
    ensures var (t, d) := DispatchRequest(cfg, s, request);
            && (d.Answer? ==> d.reply.Success? && d.reply.id == (if "id" in request then request["id"] else Null))
            && (t != s ==> IsToolCall(request) && !(d.Throws? && d.thrown.Rpc?))
            && (d.Throws? && d.thrown.Rpc? ==>
                d.thrown.error.code in {INVALID_REQUEST, INVALID_PARAMS, METHOD_NOT_FOUND})
            && (Refuses(d, INVALID_REQUEST) <==> !HasVersionAndMethod(request))
            && (Refuses(d, INVALID_PARAMS) <==> HasVersionAndMethod(request) && !HasGoodParams(request))
            && (Refuses(d, METHOD_NOT_FOUND) <==>
                HasVersionAndMethod(request) && HasGoodParams(request) && !IsMethod(request["method"].text))
            && (d == Throws(TypeError) <==> IsToolCall(request) && !Writable(ToolResult(cfg, s, request)))
  {
    MethodsDiffer();
    hide Ascii, Writable;
  }

  /** A request that makes a tool call. */
  predicate IsToolCall(request: map<string, Json>) {
    HasVersionAndMethod(request) && HasGoodParams(request) && request["method"].text == Ascii("tools/call")
  }

  function ToolResult<S>(cfg: Config<S>, s: S, request: map<string, Json>): Json
    requires IsToolCall(request)
  {
    var params := request["params"].members;
    cfg.call(s, params["name"].text, if "arguments" in params then params["arguments"].members else map[]).1
  }

  lemma {:induction false} MethodsDiffer()
    ensures Ascii("tools/call") != Ascii("initialize") && Ascii("tools/call") != Ascii("tools/list")
    ensures Ascii("tools/list") != Ascii("initialize")
    ensures |Ascii("tools/call")| == 10 && |Ascii("notifications/initialized")| == 25 && |Ascii("ping")| == 4
    ensures |Ascii("tools/list")| == 10 && |Ascii("initialize")| == 10
  {
    hide Ascii;
    AsciiAt("tools/call", 6);
    AsciiAt("tools/list", 6);
    AsciiAt("initialize", 0);
    AsciiAt("tools/call", 0);
    AsciiAt("tools/list", 0);
  }

  /** What each method does and answers. A tool call is made once, with the name and the arguments that
      were sent and with none if none were sent; what it returns is the answer. */
  lemma {:induction false} AnswersAre<S>(cfg: Config<S>, s: S, request: map<string, Json>)
    requires HasVersionAndMethod(request) && HasGoodParams(request)
    ensures var outcome := DispatchRequest(cfg, s, request);
            var id := if "id" in request then request["id"] else Null;
            var name := request["method"].text;
            && (name == Ascii("notifications/initialized") ==> outcome == (s, Silence))
            && (name == Ascii("initialize") ==> outcome == (s, Answer(Success(id, cfg.information))))
            && (name == Ascii("ping") ==> outcome == (s, Answer(Success(id, Object(map[])))))
            && (name == Ascii("tools/list") ==> outcome == (s, Answer(Success(id, cfg.toolList))))
    ensures request["method"].text == Ascii("tools/call") ==>
      var outcome := DispatchRequest(cfg, s, request);
      var params := request["params"].members;
      var (t, value) := cfg.call(s, params["name"].text,
                                 if "arguments" in params then params["arguments"].members else map[]);
      && outcome.0 == t
      && (Writable(value) ==>
          outcome.1 == Answer(Success(if "id" in request then request["id"] else Null, value)))
  {
    MethodsDiffer();
    hide Ascii, Writable;
  }

  /** `text` stands somewhere in the value. */
  ghost predicate Holds(value: Json, text: Text) {
    match value
    case Str(t) => t == text
    case Array(items) => exists i :: 0 <= i < |items| && Holds(items[i], text)
    case Object(members) => exists k :: k in members && Holds(members[k], text)
    case _ => false
  }

  /** A value can be written exactly if every text in it, however deep, is valid UTF-8. */
  lemma {:induction false} WritableExactly(value: Json)
    ensures Writable(value) <==> forall text :: Holds(value, text) ==> Utf8.Valid(text)
    decreases value
  {
    hide Utf8.Valid;
    match value
    case Str(t) => assert Holds(value, t);
    case Array(items) =>
      forall i | 0 <= i < |items|
        ensures Writable(items[i]) <==> forall text :: Holds(items[i], text) ==> Utf8.Valid(text)
      {
        WritableExactly(items[i]);
      }
      if text :| Holds(value, text) && !Utf8.Valid(text) {
        var i :| 0 <= i < |items| && Holds(items[i], text);
        assert !Writable(items[i]);
      }
      if i :| 0 <= i < |items| && !Writable(items[i]) {
        var text :| Holds(items[i], text) && !Utf8.Valid(text);
        assert Holds(value, text);
      }
    case Object(members) =>
      forall k | k in members
        ensures Writable(members[k]) <==> forall text :: Holds(members[k], text) ==> Utf8.Valid(text)
      {
        WritableExactly(members[k]);
      }
      if text :| Holds(value, text) && !Utf8.Valid(text) {
        var k :| k in members && Holds(members[k], text);
        assert !Writable(members[k]);
      }
      if k :| k in members && !Writable(members[k]) {
        var text :| Holds(members[k], text) && !Utf8.Valid(text);
        assert Holds(value, text);
      }
    case _ =>
  }

  predicate HasVersionAndMethod(request: map<string, Json>) {
    && HasString(request, "jsonrpc") && request["jsonrpc"].text == Ascii("2.0")
    && HasString(request, "method")
  }

  predicate IsObjectIfGiven(members: map<string, Json>, key: string) {
    key in members ==> members[key].Object?
  }

  /** The parameters are an object, and those of a tool call name a tool and hold its arguments in an object. */
  predicate HasGoodParams(request: map<string, Json>)
    requires HasString(request, "method")
  {
    && IsObjectIfGiven(request, "params")
    && (request["method"].text == Ascii("tools/call") ==>
        && "params" in request
        && HasString(request["params"].members, "name") && IsObjectIfGiven(request["params"].members, "arguments"))
  }

  predicate IsMethod(name: Text) {
    || name == Ascii("notifications/initialized") || name == Ascii("initialize") || name == Ascii("ping")
    || name == Ascii("tools/list") || name == Ascii("tools/call")
  }

  /** A request that is accepted without an answer. */
  predicate IsAcceptedNotification(entry: Json) {
    && entry.Object?
    && CheckRequest(entry.members) == None
    && entry.members["method"].text == Ascii("notifications/initialized")
  }

  // ---------- batches ----------

  /** What one entry adds to the responses; none if an exception leaves the loop. */
  function Converted(d: Dispatched): Option<seq<Reply>> {
    match d
    case Answer(reply) => Some([reply])
    case Silence => Some([])
    case Throws(Rpc(error)) => Some([Failure(error)])
    case Throws(TypeError) => None
  }

  function EntryReplies<S>(cfg: Config<S>, s: S, entry: Json): (S, Option<seq<Reply>>) {
    match entry
    case Object(request) =>
      var (t, d) := DispatchRequest(cfg, s, request);
      (t, Converted(d))
    case _ => (s, Some([Failure(RpcError(INVALID_REQUEST, EntryMustBeObject))]))
  }

  /** Replies given before more replies, unless those were lost. */
  function Before(replies: seq<Reply>, more: Option<seq<Reply>>): Option<seq<Reply>> {
    if more.None? then None else Some(replies + more.value)
  }

  /** The entries answered in order, each from the state that the one before it left; an exception ends
      the batch where it is, and all replies are lost. */
  function RunBatch<S>(cfg: Config<S>, s: S, entries: seq<Json>): (S, Option<seq<Reply>>) {
    if |entries| == 0 then (s, Some([])) else
    var (t, first) := EntryReplies(cfg, s, entries[0]);
    if first.None? then (t, None) else
    var (u, more) := RunBatch(cfg, t, entries[1..]);
    (u, Before(first.value, more))
  }

  /** What posting a body does: the state after it and the response body. */
  function Post<S>(cfg: Config<S>, s: S, payload: Option<Json>): (S, Body) {
    match payload
    case None => (s, Single(Failure(RpcError(PARSE_ERROR, ParseError))))
    case Some(Object(request)) =>
      var (t, d) := DispatchRequest(cfg, s, request);
      (t, match d
          case Answer(reply) => Single(reply)
          case Silence => Empty
          case Throws(thrown) => ThrownBody(thrown))
    case Some(Array(entries)) =>
      if |entries| == 0 then (s, Single(Failure(RpcError(INVALID_REQUEST, BatchMustNotBeEmpty))))
      else
        var (t, replies) := RunBatch(cfg, s, entries);
        (t, if replies.None? then Escaped else if |replies.value| == 0 then Empty else Batch(replies.value))
    case Some(_) => (s, Single(Failure(RpcError(INVALID_REQUEST, BodyMustBeObjectOrArray))))
  }

  /** The handlers around a request: an error made for the client is sent to it. */
  function ThrownBody(thrown: Thrown): Body {
    match thrown
    case Rpc(error) => Single(Failure(error))
    case TypeError => Escaped
  }

  /** The body is one error reply with this code. */
  predicate IsErrorBody(body: Body, code: int) {
    body.Single? && body.reply.Failure? && body.reply.error.code == code
  }

  /** The codes that reach the client, and that a refused body changes nothing: -32700 for text that is no
      JSON; -32600 for a body or an entry that is no request, for an empty batch and for a request without
      version or method; -32602 for bad parameters; -32601 for an unknown method. */
  lemma {:induction false} RefusalsReachClient<S>(cfg: Config<S>, s: S, payload: Option<Json>)
    ensures var (t, body) := Post(cfg, s, payload);
            && (IsErrorBody(body, -32700) <==> payload == None)
            && (IsErrorBody(body, -32600) <==>
                payload.Some? && (payload.value.Object? ==> !HasVersionAndMethod(payload.value.members))
                && (payload.value.Array? ==> |payload.value.items| == 0))
            && (IsErrorBody(body, -32602) <==>
                payload.Some? && payload.value.Object?
                && HasVersionAndMethod(payload.value.members) && !HasGoodParams(payload.value.members))
            && (IsErrorBody(body, -32601) <==>
                payload.Some? && payload.value.Object?
                && HasVersionAndMethod(payload.value.members) && HasGoodParams(payload.value.members)
                && !IsMethod(payload.value.members["method"].text))
            && (body.Single? && body.reply.Failure? ==> t == s)
  {
    hide RunBatch, DispatchRequest, Ascii;
    match payload
    case Some(Object(request)) => DispatchMeaning(cfg, s, request);
    case _ =>
  }

  lemma {:induction false} BadEntryIsAnswered<S>(cfg: Config<S>, s: S, entry: Json)
    requires !entry.Object?
    ensures var (t, body) := Post(cfg, s, Some(Array([entry])));
            t == s && body.Batch? && |body.replies| == 1 && IsErrorBody(Single(body.replies[0]), -32600)
  {
    hide RunBatch;
    BatchOfOneEntry(cfg, s, entry);
    assert Array([entry]).items == [entry];
  }

  // ---------- the server ----------

  /** The loop's invariant: with `responses` given, answering `rest` from `s` completes `total`. */
  ghost predicate Remaining<S>(cfg: Config<S>, total: (S, Option<seq<Reply>>), responses: seq<Reply>, s: S,
                               rest: seq<Json>)
  {
    total == (RunBatch(cfg, s, rest).0, Before(responses, RunBatch(cfg, s, rest).1))
  }

  lemma {:induction false} BatchStarts<S>(cfg: Config<S>, s: S, entries: seq<Json>)
    ensures Remaining(cfg, RunBatch(cfg, s, entries), [], s, entries[0..])
  {
    assert entries[0..] == entries;
    var replies := RunBatch(cfg, s, entries).1;
    assert replies.Some? ==> [] + replies.value == replies.value;
  }

  lemma {:induction false} BatchStep<S>(cfg: Config<S>, total: (S, Option<seq<Reply>>), responses: seq<Reply>, s: S,
                                        entry: Json, rest: seq<Json>)
    requires Remaining(cfg, total, responses, s, [entry] + rest)
    ensures var (t, replies) := EntryReplies(cfg, s, entry);
            if replies.None? then total == (t, None)
            else Remaining(cfg, total, responses + replies.value, t, rest)
  {
    hide EntryReplies;
    var (t, replies) := EntryReplies(cfg, s, entry);
    assert ([entry] + rest)[1..] == rest;
    var more := RunBatch(cfg, t, rest).1;
    if replies.Some? && more.Some? {
      Associative(responses, replies.value, more.value);
    }
  }

  lemma {:induction false} BatchEnds<S>(cfg: Config<S>, total: (S, Option<seq<Reply>>), responses: seq<Reply>, s: S,
                                        rest: seq<Json>)
    requires Remaining(cfg, total, responses, s, rest) && |rest| == 0
    ensures total == (s, Some(responses))
  {
    assert responses + [] == responses;
  }

  class Server<S> {
    var state: S
    const config: Config<S>

    constructor (config: Config<S>, state: S)
      ensures this.config == config && this.state == state
    {
      this.config, this.state := config, state;
    }

    method Dispatch(request: map<string, Json>) returns (d: Dispatched)
      modifies this
      ensures (state, d) == DispatchRequest(config, old(state), request)
    {
      var r := DispatchRequest(config, state, request);
      state, d := r.0, r.1;
    }

    /** `handle_jsonrpc_payload`; the errors of a bare object, and of the serialiser, are thrown on. */
    method HandlePayload(payload: Json) returns (r: Result<Body, Thrown>)
      modifies this
      ensures var (t, body) := Post(config, old(state), Some(payload));
              state == t && body == (match r case Ok(b) => b case Err(thrown) => ThrownBody(thrown))
      ensures r.Err? ==> payload.Object? || r.error.TypeError?
      ensures r.Ok? ==> !r.value.Escaped?
    {
      hide DispatchRequest, Remaining, RunBatch;
      if payload.Object? {
        var response := Dispatch(payload.members);
        match response {
          case Throws(thrown) => return Err(thrown);
          case Silence => return Ok(Empty);
          case Answer(reply) => return Ok(Single(reply));
        }
      }
      if !payload.Array? {
        return Ok(Single(Failure(RpcError(INVALID_REQUEST, BodyMustBeObjectOrArray))));
      }
      var requests := payload.items;
      if |requests| == 0 {
        return Ok(Single(Failure(RpcError(INVALID_REQUEST, BatchMustNotBeEmpty))));
      }
      var responses: seq<Reply> := [];
      ghost var total := RunBatch(config, state, requests);
      BatchStarts(config, state, requests);
      for i := 0 to |requests|
        invariant Remaining(config, total, responses, state, requests[i..])
      {
        assert requests[i..] == [requests[i]] + requests[i + 1..];
        BatchStep(config, total, responses, state, requests[i], requests[i + 1..]);
        if !requests[i].Object? {
          responses := responses + [Failure(RpcError(INVALID_REQUEST, EntryMustBeObject))];
          continue;
        }
        assert responses + [] == responses;
        var response := Dispatch(requests[i].members);
        match response {
          case Answer(reply) => responses := responses + [reply];
          case Silence =>
          case Throws(Rpc(error)) => responses := responses + [Failure(error)];
          case Throws(TypeError) => return Err(TypeError);
        }
      }
      BatchEnds(config, total, responses, state, requests[|requests|..]);
      if |responses| == 0 {
        return Ok(Empty);
      }
      return Ok(Batch(responses));
    }

    /** The POST route: parse, handle, and convert what was thrown for the client. */
    method HandleHttpRequest(parsed: Option<Json>) returns (body: Body)
      modifies this
      ensures (state, body) == Post(config, old(state), parsed)
    {
      hide RunBatch, DispatchRequest;
      if parsed == None {
        return Single(Failure(RpcError(PARSE_ERROR, ParseError)));
      }
      var r := HandlePayload(parsed.value);
      body := match r case Ok(b) => b case Err(thrown) => ThrownBody(thrown);
    }
  }

  // ---------- what a batch means ----------

  /** The entries posted one after the other: bare objects over HTTP, and the fixed error for the rest. */
  function PostEach<S>(cfg: Config<S>, s: S, entries: seq<Json>): (S, seq<Body>) {
    if |entries| == 0 then (s, []) else
    var (t, body) := PostEntry(cfg, s, entries[0]);
    var (u, bodies) := PostEach(cfg, t, entries[1..]);
    (u, [body] + bodies)
  }

  function PostEntry<S>(cfg: Config<S>, s: S, entry: Json): (S, Body) {
    if entry.Object? then Post(cfg, s, Some(entry))
    else (s, Single(Failure(RpcError(INVALID_REQUEST, EntryMustBeObject))))
  }

  /** The replies in a list of bodies. */
  function Replies(bodies: seq<Body>): seq<Reply> {
    if |bodies| == 0 then [] else
    (match bodies[0]
     case Empty => []
     case Single(reply) => [reply]
     case Batch(replies) => replies
     case Escaped => []) + Replies(bodies[1..])
  }

  function Objects(entries: seq<Json>): seq<Json> {
    if |entries| == 0 then [] else (if entries[0].Object? then [entries[0]] else []) + Objects(entries[1..])
  }

  /** The entries up to the first one that ends with an exception, that one included. */
  function Reached<S>(cfg: Config<S>, s: S, entries: seq<Json>): (reached: seq<Json>)
    ensures reached <= entries
  {
    if |entries| == 0 then [] else
    var (t, body) := PostEntry(cfg, s, entries[0]);
    if body.Escaped? then [entries[0]] else [entries[0]] + Reached(cfg, t, entries[1..])
  }

  lemma {:induction false} EntryAndPost<S>(cfg: Config<S>, s: S, entry: Json)
    ensures var (t, replies) := EntryReplies(cfg, s, entry);
            var (u, body) := PostEntry(cfg, s, entry);
            && t == u && (replies.None? <==> body.Escaped?)
            && (body == Empty || body.Single? || body.Escaped?)
            && (replies.Some? ==> replies.value == (if body.Single? then [body.reply] else []))
  {
    hide DispatchRequest;
  }

  /** A batch is its entries posted one by one, the same state and the same replies in the same order,
      exactly if none of them ends with an exception. One that does loses all replies, and the entries
      after it are never run. The state depends on the object entries only. */
  lemma {:induction false} BatchIsSequential<S>(cfg: Config<S>, s: S, entries: seq<Json>)
    ensures var (t, replies) := RunBatch(cfg, s, entries);
            var (u, bodies) := PostEach(cfg, s, entries);
            && (replies.Some? <==> Escaped !in bodies)
            && (replies.Some? ==> t == u && replies.value == Replies(bodies) && Reached(cfg, s, entries) == entries)
            && t == PostEach(cfg, s, Reached(cfg, s, entries)).0
            && t == PostEach(cfg, s, Objects(Reached(cfg, s, entries))).0
    decreases |entries|
  {
    hide EntryReplies, PostEntry;
    if |entries| > 0 {
      var t := EntryReplies(cfg, s, entries[0]).0;
      EntryAndPost(cfg, s, entries[0]);
      BatchIsSequential(cfg, t, entries[1..]);
      var bodies, reached := PostEach(cfg, s, entries).1, Reached(cfg, s, entries);
      assert bodies[1..] == PostEach(cfg, t, entries[1..]).1;
      assert Escaped in bodies <==> bodies[0] == Escaped || Escaped in bodies[1..];
      assert reached[0] == entries[0] && |[entries[0]][1..]| == 0;
      StateOfObjects(cfg, s, reached);
    }
  }

  /** Entries that are no objects leave the state alone. */
  lemma {:induction false} StateOfObjects<S>(cfg: Config<S>, s: S, entries: seq<Json>)
    ensures PostEach(cfg, s, Objects(entries)).0 == PostEach(cfg, s, entries).0
    decreases |entries|
  {
    hide DispatchRequest, Post;
    if |entries| > 0 {
      StateOfObjects(cfg, PostEntry(cfg, s, entries[0]).0, entries[1..]);
      if entries[0].Object? {
        assert Objects(entries)[1..] == Objects(entries[1..]);
      } else {
        assert Objects(entries) == Objects(entries[1..]);
      }
    }
  }

  function AcceptedNotifications(entries: seq<Json>): nat {
    if |entries| == 0 then 0
    else (if IsAcceptedNotification(entries[0]) then 1 else 0) + AcceptedNotifications(entries[1..])
  }

  lemma {:induction false} OnlyNotificationsAreSilent<S>(cfg: Config<S>, s: S, entry: Json)
    ensures var replies := EntryReplies(cfg, s, entry).1;
            && (replies.Some? ==> |replies.value| == if IsAcceptedNotification(entry) then 0 else 1)
            && (replies.None? ==> !IsAcceptedNotification(entry))
  {
    hide Ascii, Writable;
  }

  /** Unless an exception ends the batch, every entry is answered once, except the accepted
      notifications, which are not answered. */
  lemma {:induction false} BatchAnswersEverything<S>(cfg: Config<S>, s: S, entries: seq<Json>)
    ensures var replies := RunBatch(cfg, s, entries).1;
            && AcceptedNotifications(entries) <= |entries|
            && (replies.Some? ==> |replies.value| + AcceptedNotifications(entries) == |entries|)
            && (replies.None? ==> AcceptedNotifications(entries) < |entries|)
    decreases |entries|
  {
    hide EntryReplies, IsAcceptedNotification;
    if |entries| > 0 {
      OnlyNotificationsAreSilent(cfg, s, entries[0]);
      BatchAnswersEverything(cfg, EntryReplies(cfg, s, entries[0]).0, entries[1..]);
    }
  }

  /** No response is an empty array; an empty response is sent exactly for an accepted notification and
      for a batch of accepted notifications only. */
  lemma {:induction false} NoEmptyArray<S>(cfg: Config<S>, s: S, payload: Json)
    ensures var body := Post(cfg, s, Some(payload)).1;
            && (body.Batch? ==> |body.replies| > 0)
            && (body.Empty? <==>
                (|| IsAcceptedNotification(payload)
                 || (payload.Array? && |payload.items| > 0 && AcceptedNotifications(payload.items) == |payload.items|)))
  {
    hide DispatchRequest, IsAcceptedNotification, RunBatch;
    if payload.Array? {
      BatchAnswersEverything(cfg, s, payload.items);
      ArrayIsNoNotification(payload);
    } else {
      OnlyNotificationsAreSilent(cfg, s, payload);
    }
  }

  lemma {:induction false} ArrayIsNoNotification(payload: Json)
    ensures IsAcceptedNotification(payload) ==> payload.Object?
  {
  }

  /** A batch of one object carries the response that the bare object gets, thrown errors included. */
  lemma {:induction false} BatchOfOne<S>(cfg: Config<S>, s: S, entry: Json)
    requires entry.Object?
    ensures var (t, bare) := Post(cfg, s, Some(entry));
            var (u, batch) := Post(cfg, s, Some(Array([entry])));
            t == u && batch == if bare.Single? then Batch([bare.reply]) else bare
  {
    hide DispatchRequest, RunBatch, EntryReplies;
    EntryAndPost(cfg, s, entry);
    PostedAlone(cfg, s, entry);
    BatchOfOneEntry(cfg, s, entry);
    var batch := Array([entry]);
    assert Post(cfg, s, Some(batch)).0 == RunBatch(cfg, s, batch.items).0;
  }

  lemma {:induction false} PostedAlone<S>(cfg: Config<S>, s: S, entry: Json)
    requires entry.Object?
    ensures PostEntry(cfg, s, entry) == Post(cfg, s, Some(entry))
  {
  }

  /** Batches compose: the second half runs from the state that the first half leaves, if that lets it run. */
  lemma {:induction false} BatchesCompose<S>(cfg: Config<S>, s: S, a: seq<Json>, b: seq<Json>)
    ensures var (t, first) := RunBatch(cfg, s, a);
            var (u, second) := RunBatch(cfg, t, b);
            RunBatch(cfg, s, a + b) == if first.None? then (t, None) else (u, Before(first.value, second))
    decreases |a|
  {
    hide EntryReplies;
    if |a| == 0 {
      assert a + b == b;
      var replies := RunBatch(cfg, s, b).1;
      assert replies.Some? ==> [] + replies.value == replies.value;
    } else {
      assert (a + b)[1..] == a[1..] + b;
      var (t, head) := EntryReplies(cfg, s, a[0]);
      BatchesCompose(cfg, t, a[1..], b);
      var (u, first) := RunBatch(cfg, t, a[1..]);
      var second := RunBatch(cfg, u, b).1;
      if head.Some? && first.Some? && second.Some? {
        Associative(head.value, first.value, second.value);
      }
    }
  }

  /** An entry answered with an error stops nothing and changes nothing: with it or without it the
      batch ends in the same state and answers the other entries alike. */
  lemma {:induction false} ErrorsAreIsolated<S>(cfg: Config<S>, s: S, a: seq<Json>, bad: Json, b: seq<Json>,
                                                error: RpcError)
    requires RunBatch(cfg, s, a).1.Some?
    requires EntryReplies(cfg, RunBatch(cfg, s, a).0, bad).1 == Some([Failure(error)])
    ensures var (t, first) := RunBatch(cfg, s, a);
            var (u, second) := RunBatch(cfg, t, b);
            && RunBatch(cfg, s, a + b) == (u, Before(first.value, second))
            && RunBatch(cfg, s, a + [bad] + b) == (u, Before(first.value + [Failure(error)], second))
  {
    hide EntryReplies;
    var t := RunBatch(cfg, s, a).0;
    FailureKeepsState(cfg, t, bad, error);
    BatchOfOneEntry(cfg, t, bad);
    BatchesCompose(cfg, s, a, b);
    BatchesCompose(cfg, s, a, [bad]);
    BatchesCompose(cfg, s, a + [bad], b);
  }

  /** An exception of the serialiser, though, ends the batch: whatever follows is not run, and no entry
      is answered. */
  lemma {:induction false} ExceptionEndsBatch<S>(cfg: Config<S>, s: S, a: seq<Json>, bad: Json, b: seq<Json>)
    requires RunBatch(cfg, s, a).1.Some?
    requires EntryReplies(cfg, RunBatch(cfg, s, a).0, bad).1 == None
    ensures RunBatch(cfg, s, a + [bad] + b) == (EntryReplies(cfg, RunBatch(cfg, s, a).0, bad).0, None)
  {
    hide EntryReplies;
    BatchOfOneEntry(cfg, RunBatch(cfg, s, a).0, bad);
    BatchesCompose(cfg, s, a, [bad]);
    BatchesCompose(cfg, s, a + [bad], b);
  }

  lemma {:induction false} BatchOfOneEntry<S>(cfg: Config<S>, s: S, entry: Json)
    ensures RunBatch(cfg, s, [entry]) == EntryReplies(cfg, s, entry)
  {
    hide EntryReplies;
    assert |[entry][1..]| == 0;
    var replies := EntryReplies(cfg, s, entry).1;
    assert replies.Some? ==> replies.value + [] == replies.value;
  }

  lemma {:induction false} FailureKeepsState<S>(cfg: Config<S>, s: S, entry: Json, error: RpcError)
    requires EntryReplies(cfg, s, entry).1 == Some([Failure(error)])
    ensures EntryReplies(cfg, s, entry).0 == s
  {
    hide Ascii, Writable;
  }
}
