/**
 * The REST callback of the slash-command endpoint (`slashpress.php`):
 * authentication, construction of the command, the help shortcut, dispatch
 * to the hooked handlers, and the choice of the response from the
 * command's `known` and `handled` flags.
 */
module Pipeline {
  import opened Wrappers
  import opened Strings
  import opened Assoc
  import opened Php
  import opened Settings
  import opened Commands
  import opened Auth
  import opened Dispatch
  import opened Help

  const NoActionPerformed := "Command was understood but no action was performed for some reason."
  const CommandReceived := "Command received."

  /** The preamble of the help sent back for a command no handler claimed. */
  function UnknownCommandPreamble(helpWord: string): string {
    "Don't know what to do with that command. Type `" + helpWord + "` for help."
  }

  /** What the callback produces: nothing (`exit`), a plain-text body, a value WordPress serialises, or an uncaught error. */
  datatype Outcome = Silent | PlainText(body: string) | Json(response: Response) | Fatal

  function HelpWordOf(opts: Options): string {
    opts.helpWord.GetOr(HelpWordDefault)
  }

  /**
   * A `text` field that is not a string. Form bodies hold strings and
   * arrays, and `preg_match` on an array raises a `TypeError` nothing catches.
   */
  predicate TextIsArray(body: map<string, Value>) {
    "text" in body && body["text"].NonString?
  }

  /** The body's `text`; a missing one reads as empty. */
  function TextOf(body: map<string, Value>): string {
    if "text" in body && body["text"].Str? then body["text"].s else ""
  }

  /** The `help_response` block: normalise the terms, gather help, select and render it. */
  function HelpResponse(reg: Registry, c: CommandValue, rawTerms: string, preamble: string): Outcome {
    var terms := NormalizeTerms(rawTerms);
    var c' := HelpGathered(reg, c, terms);
    PlainText(Rendered(preamble, SelectHelp(c'.help, terms)))
  }

  /** The flag checks after dispatch, on the dispatched command `c` and the filtered response `r`. */
  function AfterDispatch(reg: Registry, c: CommandValue, r: Response, text: string, helpWord: string): Outcome {
    if !c.known then HelpResponse(reg, c, text, UnknownCommandPreamble(helpWord))
    else if !c.handled then
      if !r.Truthy() then PlainText(NoActionPerformed)
      else if !r.Printable() then Fatal
      else PlainText(r.AsString())
    else if r.Truthy() && !r.IsScalar() then Json(r)
    else PlainText(if r.AsString() == "" then CommandReceived else r.AsString())
  }

  /** The whole callback. */
  function Respond(req: Request, opts: Options, reg: Registry, env: Env): Outcome {
    if req.sslCheck then Silent
    else
      match Authenticate(req, opts, env)
      case Crashed => Fatal
      case Rejected(message) => PlainText(message)
      case Authenticated(serviceId) =>
        match ParseCommand(req.body, env.urlValid)
        case Failure(message) => PlainText(message)
        case Success(p) =>
          if TextIsArray(req.body) then Fatal
          else Answer(reg, Initial(p, req.body, serviceId), TextOf(req.body), HelpWordOf(opts))
  }

  /** The constructed command `c` answered: help for a help request, otherwise dispatch and the flag checks. */
  function Answer(reg: Registry, c: CommandValue, text: string, helpWord: string): Outcome {
    var m := MatchHelp(text, helpWord);
    if m.Matched? then HelpResponse(reg, c, HelpTerms(m), "")
    else
      var (c1, r) := Dispatched(reg, c);
      AfterDispatch(reg, c1, r, text, helpWord)
  }

  /** The callback as it runs: one live command object shared by all handlers. */
  method HandleRequest(req: Request, opts: Options, reg: Registry, env: Env) returns (out: Outcome)
    ensures out == Respond(req, opts, reg, env)
  {
    if req.sslCheck {
      return Silent;
    }
    var verdict := AuthenticateRequest(req, opts, env);
    if verdict.Crashed? {
      return Fatal;
    } else if verdict.Rejected? {
      return PlainText(verdict.message);
    }
    var created := Command.Create(req.body, verdict.serviceId, env.urlValid);
    if created.Failure? {
      return PlainText(created.error);
    }
    var slash := created.value;
    if TextIsArray(req.body) {
      return Fatal;
    }
    out := AnswerCommand(slash, reg, TextOf(req.body), HelpWordOf(opts));
  }

  /** From `$initial_response = ''` on: the help shortcut, or dispatch and the flag checks. */
  method AnswerCommand(slash: Command, reg: Registry, text: string, helpWord: string) returns (out: Outcome)
    modifies slash
    ensures out == Answer(reg, old(slash.Snapshot()), text, helpWord)
  {
    var m := MatchHelp(text, helpWord);
    if m.Matched? {
      out := HelpReply(slash, reg, HelpTerms(m), "");
      return;
    }
    var r := DispatchCommand(slash, reg);
    if !slash.known {
      out := HelpReply(slash, reg, text, UnknownCommandPreamble(helpWord));
    } else if !slash.handled {
      if !r.Truthy() {
        out := PlainText(NoActionPerformed);
      } else if !r.Printable() {
        out := Fatal;
      } else {
        out := PlainText(r.AsString());
      }
    } else if r.Truthy() && !r.IsScalar() {
      out := Json(r);
    } else {
      var s := r.AsString();
      out := PlainText(if s == "" then CommandReceived else s);
    }
  }

  /** The `help_response` block on the live command object. */
  method HelpReply(slash: Command, reg: Registry, rawTerms: string, preamble: string) returns (out: Outcome)
    modifies slash
    ensures out == HelpResponse(reg, old(slash.Snapshot()), rawTerms, preamble)
  {
    var terms := NormalizeTerms(rawTerms);
    GatherHelp(slash, reg, terms);
    var topics := SelectHelp(slash.help, terms);
    var body := RenderHelp(preamble, topics);
    out := PlainText(body);
  }

  // ---------------------------------------------------------------- lemmas

  /** Slack's SSL check is answered with nothing, before any authentication. */
  lemma SslCheckIsSilent(req: Request, opts: Options, reg: Registry, env: Env)
    requires req.sslCheck
    ensures Respond(req, opts, reg, env) == Silent
  {
  }

  /**
   * A request that fails authentication gets the failure's message (or the
   * uncaught error) whatever handlers are hooked: no handler ever sees it.
   */
  lemma AuthenticationFailureStopsEarly(req: Request, opts: Options, reg: Registry, reg': Registry, env: Env)
    requires !req.sslCheck && !Authenticate(req, opts, env).Authenticated?
    ensures Respond(req, opts, reg, env) == Respond(req, opts, reg', env)
    ensures Authenticate(req, opts, env).Rejected? ==>
              Respond(req, opts, reg, env) == PlainText(Authenticate(req, opts, env).message)
    ensures Authenticate(req, opts, env).Crashed? ==> Respond(req, opts, reg, env) == Fatal
  {
  }

  /** A body the `Command` constructor refuses gets its message, and no handler runs. */
  lemma ConstructionFailureStopsEarly(req: Request, opts: Options, reg: Registry, reg': Registry, env: Env)
    requires !req.sslCheck && Authenticate(req, opts, env).Authenticated?
    requires ParseCommand(req.body, env.urlValid).Failure?
    ensures Respond(req, opts, reg, env) == PlainText(ParseCommand(req.body, env.urlValid).error)
    ensures Respond(req, opts, reg, env) == Respond(req, opts, reg', env)
  {
  }

  /** A `text` field that is an array ends the callback with an uncaught error before any handler runs. */
  lemma ArrayTextIsFatal(req: Request, opts: Options, reg: Registry, reg': Registry, env: Env)
    requires !req.sslCheck && Authenticate(req, opts, env).Authenticated?
    requires ParseCommand(req.body, env.urlValid).Success? && TextIsArray(req.body)
    ensures Respond(req, opts, reg, env) == Fatal
    ensures Respond(req, opts, reg, env) == Respond(req, opts, reg', env)
  {
  }

  /** A signed request with a timestamp 300 seconds or more from the clock is answered "Invalid authentication.". */
  lemma StaleSignatureAnswered(req: Request, opts: Options, reg: Registry, env: Env, n: int)
    requires !req.sslCheck && "service_id" in req.urlParams && AuthMethodIs(req, "sig")
    requires !HeaderFalsy(req.timestampHeader) && !HeaderFalsy(req.signatureHeader)
    requires env.toNumber(req.timestampHeader.value) == Some(n) && Abs(env.now - n) >= MaxSkew
    ensures Respond(req, opts, reg, env) == PlainText(InvalidAuthentication)
  {
    assert n <= env.now - MaxSkew || n >= env.now + MaxSkew;
    StaleTimestampRejected(req, opts, env, n);
  }

  lemma AnswerToHelp(reg: Registry, c: CommandValue, text: string, helpWord: string)
    requires MatchHelp(text, helpWord).Matched?
    ensures Answer(reg, c, text, helpWord) == HelpResponse(reg, c, HelpTerms(MatchHelp(text, helpWord)), "")
  {
  }

  lemma HelpResponseFor(reg: Registry, c: CommandValue, rawTerms: string, terms: string, preamble: string)
    requires NormalizeTerms(rawTerms) == terms
    ensures HelpResponse(reg, c, rawTerms, preamble)
            == PlainText(Rendered(preamble, SelectHelp(HelpGathered(reg, c, terms).help, terms)))
  {
  }

  /**
   * A help request is answered from the help hooks alone, with no preamble,
   * for the captured words joined by single spaces: the response filters are
   * never run.
   */
  lemma HelpRequestSkipsDispatch(reg: Registry, c: CommandValue, text: string, helpWord: string,
                                 filters: map<string, seq<ResponseFilter>>, anyFilters: seq<ResponseFilter>)
    requires MatchHelp(text, helpWord).Matched?
    ensures Answer(reg, c, text, helpWord)
            == Answer(reg.(commandFilters := filters, anyCommandFilters := anyFilters), c, text, helpWord)
    ensures Answer(reg, c, text, helpWord).PlainText?
    ensures var m := MatchHelp(text, helpWord);
      var terms := if m.group.Some? then Join(Words(m.group.value), " ") else "";
      Answer(reg, c, text, helpWord) == PlainText(Rendered("", SelectHelp(HelpGathered(reg, c, terms).help, terms)))
  {
    var terms := NormalizeTerms(HelpTerms(MatchHelp(text, helpWord)));
    assert HelpGathered(reg.(commandFilters := filters, anyCommandFilters := anyFilters), c, terms)
        == HelpGathered(reg, c, terms);
    HelpRequestAnswer(reg, c, text, helpWord);
  }

  /** The help answer spelled out: no preamble, and the captured words joined by single spaces as terms. */
  lemma HelpRequestAnswer(reg: Registry, c: CommandValue, text: string, helpWord: string)
    requires MatchHelp(text, helpWord).Matched?
    ensures var m := MatchHelp(text, helpWord);
      var terms := if m.group.Some? then Join(Words(m.group.value), " ") else "";
      Answer(reg, c, text, helpWord) == PlainText(Rendered("", SelectHelp(HelpGathered(reg, c, terms).help, terms)))
  {
    var m := MatchHelp(text, helpWord);
    AnswerToHelp(reg, c, text, helpWord);
    HelpTermsNormal(m);
    HelpResponseFor(reg, c, HelpTerms(m), if m.group.Some? then Join(Words(m.group.value), " ") else "", "");
  }

  /**
   * When no handler claims the command, the reply is the help rendered
   * under the "Don't know what to do" preamble naming the help word, for the
   * words of the whole command text joined by single spaces. So it starts
   * with that preamble and holds every help text selected.
   */
  lemma UnclaimedCommandGetsHelp(reg: Registry, c: CommandValue, r: Response, text: string, helpWord: string)
    requires !c.known
    ensures var out := AfterDispatch(reg, c, r, text, helpWord);
      var terms := Join(Words(text), " ");
      var topics := SelectHelp(HelpGathered(reg, c, terms).help, terms);
      && out == PlainText(Rendered(UnknownCommandPreamble(helpWord), topics))
      && StartsWith(out.body, UnknownCommandPreamble(helpWord))
      && forall i :: 0 <= i < |Flatten(topics)| ==> Contains(out.body, Flatten(topics)[i])
  {
    var terms := Join(Words(text), " ");
    NormalizeTermsIsWords(text);
    HelpResponseFor(reg, c, text, terms, UnknownCommandPreamble(helpWord));
    RenderedHoldsEveryLine(UnknownCommandPreamble(helpWord), SelectHelp(HelpGathered(reg, c, terms).help, terms));
  }

  /**
   * A claimed command: a value WordPress serialises only for a handled
   * command with a truthy non-scalar response. Otherwise a handled command
   * gets its response as a string, or "Command received." when that string
   * is empty (a `null` response included), and an unhandled one gets its
   * truthy response as a string.
   */
  lemma ClaimedCommandResponse(reg: Registry, c: CommandValue, r: Response, text: string, helpWord: string)
    requires c.known
    ensures var out := AfterDispatch(reg, c, r, text, helpWord);
      && (out.Json? <==> c.handled && r.Truthy() && !r.IsScalar())
      && (out.Json? ==> out.response == r)
      && (!c.handled && !r.Truthy() ==> out == PlainText(NoActionPerformed))
      && (out == Fatal <==> !c.handled && r.ObjectValue?)
      && (c.handled && r == Text("") ==> out == PlainText(CommandReceived))
      && (r.Text? && out.PlainText? ==> out.body != "")
      && (r.Text? && !IsEmptyString(r.s) ==> out == PlainText(r.s))
      && (c.handled && !out.Json? ==>
            r.Printable() && out == PlainText(if r.AsString() == "" then CommandReceived else r.AsString()))
      && (!c.handled && r.Truthy() && r.Printable() ==> out == PlainText(r.AsString()))
  {
  }

  /** The handler a site might hook on `ping`: it claims the command and answers `pong`. */
  function PingFilter(): ResponseFilter {
    (c: CommandValue, r: Response) => ([SetProperty("handled", true)], Text("pong"))
  }

  /** A `/ping` request carrying token `tok` for service `svc`, with no text. */
  function PingRequest(): Request {
    Request(false, map["service_id" := "svc", "auth_method" := "token"],
            map["token" := Str("tok"), "command" := Str("/ping"), "text" := Str("")], None, None, "")
  }

  /** The stored option pairing token `tok` with service `svc`. */
  function PingOptions(): Options {
    NoOptions.(tokens := Some([("tok", ["svc"])]))
  }

  /** One filter on the `ping` hook. */
  function PingRegistry(): Registry {
    Registry(map["ping" := [PingFilter()]], [], map[], [])
  }

  lemma PingAuthenticated(env: Env)
    ensures Authenticate(PingRequest(), PingOptions(), env) == Authenticated("svc")
  {
    assert Get([("tok", ["svc"])], "tok") == Some(["svc"]);
  }

  lemma PingParsed(env: Env)
    ensures ParseCommand(PingRequest().body, env.urlValid).Success?
    ensures ParseCommand(PingRequest().body, env.urlValid).value.name == "ping"
  {
    assert StripSlash("/ping") == "ping";
  }

  lemma PingClaimed(c: CommandValue)
    ensures ApplyOps(c, [SetProperty("handled", true)]) == c.(known := true, handled := true)
  {
    var ops := [SetProperty("handled", true)];
    assert ops[..0] == [];
  }

  lemma PingFiltered(c: CommandValue)
    ensures RunFilters(c, [PingFilter()], Text("")) == (c.(known := true, handled := true), Text("pong"))
  {
    var fs := [PingFilter()];
    assert fs[..0] == [];
    assert RunFilters(c, fs[..0], Text("")) == (c, Text(""));
    assert fs[0](c, Text("")) == ([SetProperty("handled", true)], Text("pong"));
    PingClaimed(c);
  }

  lemma PingDispatched(c: CommandValue)
    requires c.name == "ping"
    ensures Dispatched(PingRegistry(), c) == (c.(known := true, handled := true), Text("pong"))
  {
    assert Hooked(PingRegistry().commandFilters, c.name) == [PingFilter()];
    PingFiltered(c);
  }

  /** The `ping` command, claimed and answered by its filter. */
  lemma PingAnswered(c: CommandValue)
    requires c.name == "ping"
    ensures Answer(PingRegistry(), c, "", HelpWordDefault) == PlainText("pong")
  {
    var c1 := c.(known := true, handled := true);
    calc {
      Answer(PingRegistry(), c, "", HelpWordDefault);
      { assert MatchHelp("", HelpWordDefault) == NoMatch; PingDispatched(c); }
      AfterDispatch(PingRegistry(), c1, Text("pong"), "", HelpWordDefault);
      { assert Text("pong").AsString() == "pong"; }
      PlainText("pong");
    }
  }

  /** A `/ping` sent with a configured token is answered `pong`. */
  lemma PingScenario(env: Env)
    ensures Respond(PingRequest(), PingOptions(), PingRegistry(), env) == PlainText("pong")
  {
    var req := PingRequest();
    PingAuthenticated(env);
    PingParsed(env);
    var c := Initial(ParseCommand(req.body, env.urlValid).value, req.body, "svc");
    assert TextOf(req.body) == "" && HelpWordOf(PingOptions()) == HelpWordDefault;
    PingAnswered(c);
  }
}
