/**
 * The `Command` object handed to every handler (`classes.php`): validated
 * when it is built, then mutated only through its `known` and `handled`
 * setters and `addHelp`.
 */
module Commands {
  import opened Wrappers
  import opened Strings
  import opened Assoc
  import opened Php

  const InvalidCommand := "Invalid slash command."
  const EmptyCommand := "Empty slash command."
  const MalformedUrl := "Response URL looks malformed."
  const NoResponseUrl := "No URL to which a response can be sent"

  /** The fields the constructor derives from the request body. */
  datatype Parsed = Parsed(name: string, responseUrl: Option<string>)

  /** `preg_replace('#^/#', '', $s)`: at most one leading slash removed. */
  function StripSlash(s: string): string {
    if s != [] && s[0] == '/' then s[1..] else s
  }

  /**
   * The `response_url` check of the constructor. `urlValid` stands for
   * `filter_var($u, FILTER_VALIDATE_URL, FILTER_FLAG_PATH_REQUIRED)`, which
   * returns the URL itself when it accepts it.
   */
  function ParseResponseUrl(body: map<string, Value>, urlValid: string -> bool): Result<Option<string>, string> {
    if EmptyField(body, "response_url") then Success(None)
    else
      match body["response_url"]
      case Str(u) =>
        if urlValid(u) && (Contains(u, "http:") || Contains(u, "https:")) then Success(Some(u))
        else Failure(MalformedUrl)
      case NonString(_) => Failure(MalformedUrl)
  }

  /** The validation the constructor performs, in its order; a failure is the thrown message. */
  function ParseCommand(body: map<string, Value>, urlValid: string -> bool): Result<Parsed, string> {
    if EmptyField(body, "command") || !body["command"].Str? then Failure(InvalidCommand)
    else
      var name := StripSlash(body["command"].s);
      if name == "" then Failure(EmptyCommand)
      else
        match ParseResponseUrl(body, urlValid)
        case Failure(e) => Failure(e)
        case Success(url) => Success(Parsed(name, url))
  }

  /** Everything a handler can read of a command. */
  datatype CommandValue = CommandValue(
    serviceId: string,
    name: string,
    responseUrl: Option<string>,
    data: map<string, Value>,
    known: bool,
    handled: bool,
    help: Assoc<string, seq<string>>)

  /** The state right after construction: the body without its `token`, no flags, no help. */
  function Initial(p: Parsed, body: map<string, Value>, serviceId: string): CommandValue {
    CommandValue(serviceId, p.name, p.responseUrl, body - {"token"}, false, false, [])
  }

  /** What a handler may do to the command: assign a property, or call `addHelp`. */
  datatype Op = SetProperty(property: string, value: bool) | AddHelp(topics: seq<string>, text: string)

  /**
   * `__set($property, $value)`, `value` being the truthiness of what was
   * assigned. Assigning `handled` falls through to the `known` case.
   */
  function SetProp(c: CommandValue, property: string, value: bool): CommandValue {
    if property == "handled" then c.(known := c.known || value, handled := value)
    else if property == "known" then c.(known := value)
    else c
  }

  /** `addHelp($topics, $text)`: `text` appended under each topic in turn. */
  function AddHelpTopics(help: Assoc<string, seq<string>>, topics: seq<string>, text: string): Assoc<string, seq<string>> {
    if topics == [] then help
    else AppendAt(AddHelpTopics(help, topics[..|topics| - 1], text), topics[|topics| - 1], text)
  }

  function ApplyOp(c: CommandValue, op: Op): CommandValue {
    match op
    case SetProperty(p, v) => SetProp(c, p, v)
    case AddHelp(topics, text) => c.(help := AddHelpTopics(c.help, topics, text))
  }

  /** The operations of one handler, in the order it performed them. */
  function ApplyOps(c: CommandValue, ops: seq<Op>): CommandValue {
    if ops == [] then c else ApplyOp(ApplyOps(c, ops[..|ops| - 1]), ops[|ops| - 1])
  }

  /** `n` copies of `text`. */
  function Repeat(text: string, n: nat): seq<string> {
    if n == 0 then [] else Repeat(text, n - 1) + [text]
  }

  predicate HandledImpliesKnown(c: CommandValue) {
    c.handled ==> c.known
  }

  /** Number of times `topic` is listed. */
  function Occurrences(topics: seq<string>, topic: string): nat {
    if topics == [] then 0
    else Occurrences(topics[..|topics| - 1], topic) + (if topics[|topics| - 1] == topic then 1 else 0)
  }

  // ---------------------------------------------------------------- lemmas

  lemma {:induction false} OccurrencesAbsent(topics: seq<string>, topic: string)
    requires topic !in topics
    ensures Occurrences(topics, topic) == 0
  {
    if topics != [] {
      assert topics[..|topics| - 1] <= topics;
      OccurrencesAbsent(topics[..|topics| - 1], topic);
    }
  }

  /** The constructor's first check: a missing, empty or non-string `command` is rejected. */
  lemma ParseCommandRequiresCommandString(body: map<string, Value>, urlValid: string -> bool)
    ensures ParseCommand(body, urlValid) == Failure(InvalidCommand)
            <==> EmptyField(body, "command") || !body["command"].Str?
  {
  }

  /** Exactly one leading slash is stripped, and nothing may remain empty. */
  lemma ParseCommandName(body: map<string, Value>, urlValid: string -> bool)
    requires !EmptyField(body, "command") && body["command"].Str?
    ensures var cmd := body["command"].s;
      && (ParseCommand(body, urlValid) == Failure(EmptyCommand) <==> cmd == "/")
      && (ParseCommand(body, urlValid).Success? ==>
            var n := ParseCommand(body, urlValid).value.name;
            n != "" && (if cmd[0] == '/' then cmd == "/" + n else cmd == n))
  {
    var cmd := body["command"].s;
    assert cmd != "";
    if cmd[0] == '/' {
      assert cmd == "/" + cmd[1..];
    }
  }

  /** `"/deploy"` becomes `deploy`; `"/"` alone is rejected. */
  lemma ParseCommandExamples(urlValid: string -> bool)
    ensures ParseCommand(map["command" := Str("/deploy")], urlValid) == Success(Parsed("deploy", None))
    ensures ParseCommand(map["command" := Str("/")], urlValid) == Failure(EmptyCommand)
    ensures ParseCommand(map["command" := Str("//x")], urlValid) == Success(Parsed("/x", None))
  {
    assert "/deploy"[1..] == "deploy";
    assert "//x"[1..] == "/x";
  }

  /**
   * A non-empty `response_url` is kept only when the validator accepts it
   * and it mentions `http:` or `https:`; an empty one leaves no URL.
   */
  lemma ParseCommandResponseUrl(body: map<string, Value>, urlValid: string -> bool)
    requires ParseCommand(body, urlValid) != Failure(InvalidCommand)
    requires ParseCommand(body, urlValid) != Failure(EmptyCommand)
    ensures ParseCommand(body, urlValid).Success? <==> ParseResponseUrl(body, urlValid).Success?
    ensures ParseCommand(body, urlValid).Failure? ==> ParseCommand(body, urlValid).error == MalformedUrl
    ensures ParseCommand(body, urlValid).Success? ==>
      var url := ParseCommand(body, urlValid).value.responseUrl;
      && (url.None? <==> EmptyField(body, "response_url"))
      && (url.Some? ==> body["response_url"] == Str(url.value) && urlValid(url.value)
                        && (Contains(url.value, "http:") || Contains(url.value, "https:")))
  {
  }

  /** After construction the flags are clear, there is no help and no `token` is kept. */
  lemma InitialState(p: Parsed, body: map<string, Value>, serviceId: string)
    ensures var c := Initial(p, body, serviceId);
      && !c.known && !c.handled && c.help == [] && c.serviceId == serviceId
      && "token" !in c.data
      && c.data.Keys == body.Keys - {"token"}
      && (forall k :: k in c.data ==> c.data[k] == body[k])
  {
  }

  /** Assigning `handled`: a truthy value sets both flags, a falsy one clears `handled` only. */
  lemma SetHandled(c: CommandValue, value: bool)
    ensures var r := SetProp(c, "handled", value);
      && r.handled == value
      && r.known == (value || c.known)
      && r.(known := c.known, handled := c.handled) == c
  {
  }

  /** Assigning `known` changes `known` and nothing else. */
  lemma SetKnown(c: CommandValue, value: bool)
    ensures SetProp(c, "known", value) == c.(known := value)
  {
  }

  /** Assigning any other property only raises a warning. */
  lemma SetOtherProperty(c: CommandValue, property: string, value: bool)
    requires property != "handled" && property != "known"
    ensures SetProp(c, property, value) == c
  {
  }

  /** `handled` implies `known` is kept by every operation except assigning a falsy `known`. */
  lemma {:induction false} OpsKeepHandledImpliesKnown(c: CommandValue, ops: seq<Op>)
    requires HandledImpliesKnown(c)
    requires forall i :: 0 <= i < |ops| ==> ops[i] != SetProperty("known", false)
    ensures HandledImpliesKnown(ApplyOps(c, ops))
  {
    if ops != [] {
      OpsKeepHandledImpliesKnown(c, ops[..|ops| - 1]);
    }
  }

  /** The `known` setter does not protect the invariant: `handled` can stand without `known`. */
  lemma KnownSetterCanBreakInvariant(c: CommandValue)
    ensures !HandledImpliesKnown(ApplyOps(c, [SetProperty("handled", true), SetProperty("known", false)]))
  {
    var ops := [SetProperty("handled", true), SetProperty("known", false)];
    assert ops[..1] == [SetProperty("handled", true)] && ops[..1][..0] == [];
  }

  /**
   * `addHelp` appends `text` to the end of each listed topic's list (once per
   * listing) and leaves every other topic as it was.
   */
  lemma {:induction false} AddHelpTopicsGet(help: Assoc<string, seq<string>>, topics: seq<string>, text: string, k: string)
    ensures Get(AddHelpTopics(help, topics, text), k)
            == if HasKey(help, k) || k in topics
               then Some(Get(help, k).GetOr([]) + Repeat(text, Occurrences(topics, k)))
               else None
  {
    AddHelpTopicsHas(help, topics, text, k);
    AddHelpTopicsItems(help, topics, text, k);
  }

  lemma {:induction false} AddHelpTopicsHas(help: Assoc<string, seq<string>>, topics: seq<string>, text: string, k: string)
    ensures HasKey(AddHelpTopics(help, topics, text), k) <==> HasKey(help, k) || k in topics
  {
    if topics != [] {
      var init := topics[..|topics| - 1];
      var last := topics[|topics| - 1];
      AddHelpTopicsHas(help, init, text, k);
      AppendAtGet(AddHelpTopics(help, init, text), last, text, k);
      assert topics == init + [last];
    }
  }

  lemma {:induction false} AddHelpTopicsItems(help: Assoc<string, seq<string>>, topics: seq<string>, text: string, k: string)
    ensures Get(AddHelpTopics(help, topics, text), k).GetOr([])
            == Get(help, k).GetOr([]) + Repeat(text, Occurrences(topics, k))
  {
    if topics != [] {
      var init := topics[..|topics| - 1];
      var last := topics[|topics| - 1];
      var h := AddHelpTopics(help, init, text);
      AddHelpTopicsItems(help, init, text, k);
      assert AddHelpTopics(help, topics, text) == AppendAt(h, last, text);
      if k == last {
        assert Occurrences(topics, k) == Occurrences(init, k) + 1;
        AppendRepeat(h, k, text, Get(help, k).GetOr([]), Occurrences(init, k));
      } else {
        assert Occurrences(topics, k) == Occurrences(init, k);
        AppendAtGet(h, last, text, k);
      }
    }
  }

  /** One more listing of topic `k` appends one more copy of the text under it. */
  lemma AppendRepeat(h: Assoc<string, seq<string>>, k: string, text: string, before: seq<string>, n: nat)
    requires Get(h, k).GetOr([]) == before + Repeat(text, n)
    ensures Get(AppendAt(h, k, text), k).GetOr([]) == before + Repeat(text, n + 1)
  {
    calc {
      Get(AppendAt(h, k, text), k).GetOr([]);
      { AppendAtGet(h, k, text, k); }
      Get(h, k).GetOr([]) + [text];
      before + Repeat(text, n) + [text];
      before + (Repeat(text, n) + [text]);
      before + Repeat(text, n + 1);
    }
  }

  /**
   * `addHelp` keeps the existing topics first and in their order, adds only
   * the listed topics, and never duplicates a topic.
   */
  lemma {:induction false} AddHelpTopicsKeys(help: Assoc<string, seq<string>>, topics: seq<string>, text: string)
    ensures |Keys(help)| <= |Keys(AddHelpTopics(help, topics, text))|
    ensures Keys(AddHelpTopics(help, topics, text))[..|Keys(help)|] == Keys(help)
    ensures UniqueKeys(help) ==> UniqueKeys(AddHelpTopics(help, topics, text))
  {
    if topics != [] {
      var init := topics[..|topics| - 1];
      var h := AddHelpTopics(help, init, text);
      AddHelpTopicsKeys(help, init, text);
      AppendAtKeys(h, topics[|topics| - 1], text);
      var n := |Keys(help)|;
      var kh := Keys(h);
      assert (kh + [topics[|topics| - 1]])[..n] == kh[..n];
      if UniqueKeys(help) {
        AppendAtUnique(h, topics[|topics| - 1], text);
      }
    }
  }

  /** The object the handlers share. Its identity fields never change after construction. */
  class Command {
    const serviceId: string
    const name: string
    const responseUrl: Option<string>
    const data: map<string, Value>
    var known: bool
    var handled: bool
    var help: Assoc<string, seq<string>>

    function Snapshot(): CommandValue
      reads this
    {
      CommandValue(serviceId, name, responseUrl, data, known, handled, help)
    }

    constructor Init(p: Parsed, body: map<string, Value>, serviceId: string)
      ensures Snapshot() == Initial(p, body, serviceId)
    {
      this.serviceId := serviceId;
      this.name := p.name;
      this.responseUrl := p.responseUrl;
      this.data := body - {"token"};
      this.known := false;
      this.handled := false;
      this.help := [];
    }

    /** `new Command($params_post, $service_id)`: a fresh command, or the message it throws. */
    static method Create(body: map<string, Value>, serviceId: string, urlValid: string -> bool)
      returns (r: Result<Command, string>)
      ensures ParseCommand(body, urlValid).Failure? ==> r == Failure(ParseCommand(body, urlValid).error)
      ensures ParseCommand(body, urlValid).Success? ==>
        r.Success? && fresh(r.value)
        && r.value.Snapshot() == Initial(ParseCommand(body, urlValid).value, body, serviceId)
    {
      var parsed := ParseCommand(body, urlValid);
      if parsed.Failure? {
        r := Failure(parsed.error);
      } else {
        var c := new Command.Init(parsed.value, body, serviceId);
        r := Success(c);
      }
    }

    /** `addHelp($topics, $text)`. */
    method AddHelp(topics: seq<string>, text: string)
      modifies this
      ensures Snapshot() == old(Snapshot()).(help := AddHelpTopics(old(help), topics, text))
    {
      var i := 0;
      while i < |topics|
        invariant 0 <= i <= |topics|
        invariant help == AddHelpTopics(old(help), topics[..i], text)
        invariant known == old(known) && handled == old(handled)
      {
        assert topics[..i + 1][..i] == topics[..i];
        help := AppendAt(help, topics[i], text);
        i := i + 1;
      }
      assert topics[..|topics|] == topics;
    }

    /** `__set($property, $value)`; `warned` is the `E_USER_WARNING` for any other name. */
    method Set(property: string, value: bool) returns (warned: bool)
      modifies this
      ensures Snapshot() == SetProp(old(Snapshot()), property, value)
      ensures warned <==> property != "handled" && property != "known"
    {
      warned := false;
      if property == "handled" {
        if value {
          known := true;
        }
        handled := value;
      } else if property == "known" {
        known := value;
      } else {
        warned := true;
      }
    }

    /** One handler operation, performed on the object. */
    method Apply(op: Op)
      modifies this
      ensures Snapshot() == ApplyOp(old(Snapshot()), op)
    {
      match op
      case SetProperty(p, v) =>
        var _ := Set(p, v);
      case AddHelp(topics, text) =>
        AddHelp(topics, text);
    }

    /**
     * A handler's operations, in order. The loop stands for one hooked
     * handler's code running against the object, not for a loop of the class.
     */
    method ApplyAll(ops: seq<Op>)
      modifies this
      ensures Snapshot() == ApplyOps(old(Snapshot()), ops)
    {
      var i := 0;
      while i < |ops|
        invariant 0 <= i <= |ops|
        invariant Snapshot() == ApplyOps(old(Snapshot()), ops[..i])
      {
        assert ops[..i + 1][..i] == ops[..i];
        Apply(ops[i]);
        i := i + 1;
      }
      assert ops[..|ops|] == ops;
    }

    /** `canRespondDelayed()`. */
    predicate CanRespondDelayed() {
      responseUrl.Some?
    }

    /**
     * The gate of `respondDelayed($response)`: with a URL the body is posted
     * there; without one an error is returned and nothing is posted.
     */
    method RespondDelayed(response: string) returns (d: Delivery)
      ensures d.Posted? <==> CanRespondDelayed()
      ensures d.Posted? ==> d == Posted(responseUrl.value, response)
      ensures d.NotSent? ==> d.message == NoResponseUrl
    {
      if responseUrl.Some? {
        d := Posted(responseUrl.value, response);
      } else {
        d := NotSent(NoResponseUrl);
      }
    }
  }

  /** What the delayed responder does: post `body` to `url`, or refuse. */
  datatype Delivery = Posted(url: string, body: string) | NotSent(message: string)

  /** A command can answer later exactly when a non-empty `response_url` was accepted. */
  lemma DelayedResponseNeedsUrl(body: map<string, Value>, urlValid: string -> bool, serviceId: string)
    requires ParseCommand(body, urlValid).Success?
    ensures Initial(ParseCommand(body, urlValid).value, body, serviceId).responseUrl.Some?
            <==> !EmptyField(body, "response_url")
  {
  }
}
