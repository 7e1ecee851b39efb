/**
 * Authentication of an incoming slash command (`slashpress.php`): the
 * service id from the URL, then either a shared token from the body or a
 * timestamped HMAC signature over the raw body.
 */
module Auth {
  import opened Wrappers
  import opened Strings
  import opened Assoc
  import opened Php
  import opened Settings

  const InvalidServiceId := "Invalid service ID."
  const InvalidAuthentication := "Invalid authentication."
  const UnknownRequester := "Unknown requester."
  const UnknownAuthMethod := "Unknown authentication method."

  /** The signature scheme version that prefixes signatures and signed messages. */
  const SigVersion := "v0"
  /** A timestamp this many seconds away from the clock, or more, is refused. */
  const MaxSkew := 300

  /**
   * What the endpoint takes from outside: the clock (`time()`), HMAC-SHA256
   * as a lower-case hex string (`hmac(secret, message)`), WordPress's URL
   * validation, and PHP's conversion of the timestamp header to a number
   * (`None` where that conversion throws).
   */
  datatype Env = Env(
    now: int,
    hmac: (string, string) -> string,
    urlValid: string -> bool,
    toNumber: string -> Option<int>)

  /** The parts of the REST request the callback reads. */
  datatype Request = Request(
    sslCheck: bool,
    urlParams: map<string, string>,
    body: map<string, Value>,
    timestampHeader: Option<string>,
    signatureHeader: Option<string>,
    rawBody: string)

  /** How authentication ends: a service id, a message shown to the caller, or an uncaught error. */
  datatype Verdict = Authenticated(serviceId: string) | Rejected(message: string) | Crashed

  /** Everything before the loop over secrets, and what that loop is given. */
  datatype Stage =
    | Decided(verdict: Verdict)
    | CheckSecrets(serviceId: string, secrets: seq<string>, base: string, signature: string)

  function Abs(x: int): nat {
    if x < 0 then -x else x
  }

  /** A header that is missing, `""` or `"0"` fails `!$header`. */
  predicate HeaderFalsy(h: Option<string>) {
    h.None? || IsEmptyString(h.value)
  }

  predicate AuthMethodIs(req: Request, m: string) {
    "auth_method" in req.urlParams && req.urlParams["auth_method"] == m
  }

  /** The signature one secret produces for the signed base string. */
  function Expected(hmac: (string, string) -> string, secret: string, base: string): string {
    SigVersion + "=" + hmac(secret, base)
  }

  /** The string that is signed: version, timestamp header and raw body, colon-separated. */
  function SignedBase(timestamp: string, rawBody: string): string {
    SigVersion + ":" + timestamp + ":" + rawBody
  }

  /** The `token` method: a non-empty string token listing the URL's service id. */
  function TokenVerdict(body: map<string, Value>, tokens: Option<Assoc<string, seq<string>>>, serviceId: string): Verdict {
    if EmptyField(body, "token") || !body["token"].Str? then Rejected(InvalidAuthentication)
    else
      match Get(tokens.GetOr([]), body["token"].s)
      case None => Rejected(UnknownRequester)
      case Some(ids) => if serviceId in ids then Authenticated(serviceId) else Rejected(UnknownRequester)
  }

  /** The checks of the `sig` method that come before trying the secrets, in their order. */
  function SignatureStage(req: Request, secrets: Option<Assoc<string, seq<string>>>, serviceId: string, env: Env): Stage {
    if HeaderFalsy(req.timestampHeader) || HeaderFalsy(req.signatureHeader) then Decided(Rejected(InvalidAuthentication))
    else
      var ts := req.timestampHeader.value;
      var sig := req.signatureHeader.value;
      match env.toNumber(ts)
      case None => Decided(Crashed)
      case Some(n) =>
        if Abs(env.now - n) >= MaxSkew || !StartsWith(sig, SigVersion + "=") then Decided(Rejected(InvalidAuthentication))
        else
          match Get(secrets.GetOr([]), serviceId)
          case None => Decided(Rejected(UnknownRequester))
          case Some(list) => CheckSecrets(serviceId, list, SignedBase(ts, req.rawBody), sig)
  }

  /** The `try` block up to the loop over secrets. */
  function Precheck(req: Request, opts: Options, env: Env): Stage {
    if "service_id" !in req.urlParams then Decided(Rejected(InvalidServiceId))
    else
      var serviceId := req.urlParams["service_id"];
      if AuthMethodIs(req, "token") then Decided(TokenVerdict(req.body, opts.tokens, serviceId))
      else if AuthMethodIs(req, "sig") then SignatureStage(req, opts.secrets, serviceId, env)
      else Decided(Rejected(UnknownAuthMethod))
  }

  /** Some stored secret of the service signs `base` as `signature`. */
  predicate SignatureMatches(hmac: (string, string) -> string, secrets: seq<string>, base: string, signature: string) {
    exists i :: 0 <= i < |secrets| && Expected(hmac, secrets[i], base) == signature
  }

  /** The outcome of authentication. */
  function Authenticate(req: Request, opts: Options, env: Env): Verdict {
    match Precheck(req, opts, env)
    case Decided(v) => v
    case CheckSecrets(serviceId, secrets, base, sig) =>
      if SignatureMatches(env.hmac, secrets, base, sig) then Authenticated(serviceId) else Rejected(UnknownRequester)
  }

  /** The `foreach` over the service's secrets, leaving at the first that matches. */
  method VerifySignature(hmac: (string, string) -> string, secrets: seq<string>, base: string, signature: string)
    returns (ok: bool)
    ensures ok <==> SignatureMatches(hmac, secrets, base, signature)
  {
    var i := 0;
    while i < |secrets|
      invariant 0 <= i <= |secrets|
      invariant forall j :: 0 <= j < i ==> Expected(hmac, secrets[j], base) != signature
    {
      var calculated := SigVersion + "=" + hmac(secrets[i], base);
      if calculated == signature {
        return true;
      }
      i := i + 1;
    }
    return false;
  }

  /** The authentication `switch` as the callback runs it. */
  method AuthenticateRequest(req: Request, opts: Options, env: Env) returns (v: Verdict)
    ensures v == Authenticate(req, opts, env)
  {
    var stage := Precheck(req, opts, env);
    if stage.Decided? {
      v := stage.verdict;
    } else {
      var ok := VerifySignature(env.hmac, stage.secrets, stage.base, stage.signature);
      v := if ok then Authenticated(stage.serviceId) else Rejected(UnknownRequester);
    }
  }

  // ---------------------------------------------------------------- lemmas

  /** Authentication only ever vouches for the service id named in the URL. */
  lemma AuthenticatedServiceIdFromUrl(req: Request, opts: Options, env: Env)
    ensures Authenticate(req, opts, env).Authenticated? ==>
      "service_id" in req.urlParams && Authenticate(req, opts, env).serviceId == req.urlParams["service_id"]
  {
  }

  /** Without a service id nothing else is looked at. */
  lemma MissingServiceId(req: Request, opts: Options, env: Env)
    requires "service_id" !in req.urlParams
    ensures Authenticate(req, opts, env) == Rejected(InvalidServiceId)
  {
  }

  /** Any method other than `token` and `sig`, or none, is refused. */
  lemma UnknownMethodRejected(req: Request, opts: Options, env: Env)
    requires "service_id" in req.urlParams
    requires !AuthMethodIs(req, "token") && !AuthMethodIs(req, "sig")
    ensures Authenticate(req, opts, env) == Rejected(UnknownAuthMethod)
  {
  }

  /**
   * Token authentication succeeds exactly when the body's token is a string
   * other than `""` and `"0"` whose stored list holds the URL's service id;
   * a missing, empty or non-string token is an invalid authentication.
   */
  lemma TokenAuthentication(req: Request, opts: Options, env: Env)
    requires "service_id" in req.urlParams && AuthMethodIs(req, "token")
    ensures var sid := req.urlParams["service_id"];
      Authenticate(req, opts, env) == Authenticated(sid)
      <==> ("token" in req.body && req.body["token"].Str? && !IsEmptyString(req.body["token"].s)
            && match Get(opts.tokens.GetOr([]), req.body["token"].s)
               case None => false
               case Some(ids) => sid in ids)
    ensures Authenticate(req, opts, env) == Rejected(InvalidAuthentication)
      <==> (EmptyField(req.body, "token") || !req.body["token"].Str?)
    ensures Authenticate(req, opts, env).Authenticated? || Authenticate(req, opts, env).Rejected?
    ensures "token" in req.body && req.body["token"].Str? && !IsEmptyString(req.body["token"].s)
            && !(Get(opts.tokens.GetOr([]), req.body["token"].s).Some?
                 && req.urlParams["service_id"] in Get(opts.tokens.GetOr([]), req.body["token"].s).value)
            ==> Authenticate(req, opts, env) == Rejected(UnknownRequester)
  {
  }

  /**
   * Signature authentication succeeds exactly when both headers are present
   * and truthy, the timestamp converts to a number less than 300 seconds
   * from the clock, the signature carries the `v0=` prefix, and one of the
   * service's stored secrets produces it over `v0:<timestamp>:<body>`.
   */
  lemma SignatureAuthentication(req: Request, opts: Options, env: Env)
    requires "service_id" in req.urlParams && AuthMethodIs(req, "sig")
    ensures var sid := req.urlParams["service_id"];
      Authenticate(req, opts, env) == Authenticated(sid)
      <==> (&& !HeaderFalsy(req.timestampHeader) && !HeaderFalsy(req.signatureHeader)
            && env.toNumber(req.timestampHeader.value).Some?
            && Abs(env.now - env.toNumber(req.timestampHeader.value).value) < MaxSkew
            && StartsWith(req.signatureHeader.value, "v0=")
            && match Get(opts.secrets.GetOr([]), sid)
               case None => false
               case Some(secrets) =>
                 exists i :: 0 <= i < |secrets|
                   && "v0=" + env.hmac(secrets[i], "v0:" + req.timestampHeader.value + ":" + req.rawBody)
                      == req.signatureHeader.value)
  {
    var sid := req.urlParams["service_id"];
    if !HeaderFalsy(req.timestampHeader) && !HeaderFalsy(req.signatureHeader) {
      var ts := req.timestampHeader.value;
      var sig := req.signatureHeader.value;
      assert SigVersion + "=" == "v0=";
      assert SignedBase(ts, req.rawBody) == "v0:" + ts + ":" + req.rawBody;
      match Get(opts.secrets.GetOr([]), sid)
      case None =>
      case Some(secrets) =>
        forall i | 0 <= i < |secrets|
          ensures (Expected(env.hmac, secrets[i], SignedBase(ts, req.rawBody)) == sig)
                  == ("v0=" + env.hmac(secrets[i], "v0:" + ts + ":" + req.rawBody) == sig)
        {
        }
    }
  }

  /** A signed request whose timestamp is 300 seconds or more away from the clock is refused, whatever its signature. */
  lemma StaleTimestampRejected(req: Request, opts: Options, env: Env, n: int)
    requires "service_id" in req.urlParams && AuthMethodIs(req, "sig")
    requires !HeaderFalsy(req.timestampHeader) && !HeaderFalsy(req.signatureHeader)
    requires env.toNumber(req.timestampHeader.value) == Some(n)
    requires n <= env.now - MaxSkew || n >= env.now + MaxSkew
    ensures Authenticate(req, opts, env) == Rejected(InvalidAuthentication)
  {
  }

  /** One second inside the window is accepted when a secret matches. */
  lemma FreshTimestampAccepted(req: Request, opts: Options, env: Env, secrets: seq<string>, i: nat)
    requires "service_id" in req.urlParams && AuthMethodIs(req, "sig")
    requires !HeaderFalsy(req.timestampHeader) && !HeaderFalsy(req.signatureHeader)
    requires env.toNumber(req.timestampHeader.value) == Some(env.now - (MaxSkew - 1))
    requires Get(opts.secrets.GetOr([]), req.urlParams["service_id"]) == Some(secrets)
    requires i < |secrets|
    requires req.signatureHeader.value
             == Expected(env.hmac, secrets[i], SignedBase(req.timestampHeader.value, req.rawBody))
    ensures Authenticate(req, opts, env) == Authenticated(req.urlParams["service_id"])
  {
    assert StartsWith(req.signatureHeader.value, SigVersion + "=");
  }

  /**
   * A header that does not convert to a number is an uncaught error, once
   * both headers are truthy; a falsy header is refused before any conversion.
   */
  lemma TimestampConversion(req: Request, opts: Options, env: Env)
    requires "service_id" in req.urlParams && AuthMethodIs(req, "sig")
    ensures Authenticate(req, opts, env) == Crashed
      <==> !HeaderFalsy(req.timestampHeader) && !HeaderFalsy(req.signatureHeader)
           && env.toNumber(req.timestampHeader.value).None?
    ensures HeaderFalsy(req.timestampHeader) || HeaderFalsy(req.signatureHeader)
      ==> Authenticate(req, opts, env) == Rejected(InvalidAuthentication)
  {
  }

  /**
   * Each header check on its own refuses a signed request as an invalid
   * authentication: a falsy timestamp, a falsy signature, a timestamp out
   * of the window, or a signature without the `v0=` prefix.
   */
  lemma SignatureHeaderChecks(req: Request, opts: Options, env: Env)
    requires "service_id" in req.urlParams && AuthMethodIs(req, "sig")
    ensures HeaderFalsy(req.timestampHeader) ==> Authenticate(req, opts, env) == Rejected(InvalidAuthentication)
    ensures HeaderFalsy(req.signatureHeader) ==> Authenticate(req, opts, env) == Rejected(InvalidAuthentication)
    ensures !HeaderFalsy(req.timestampHeader) && !HeaderFalsy(req.signatureHeader)
            && env.toNumber(req.timestampHeader.value).Some?
            && (Abs(env.now - env.toNumber(req.timestampHeader.value).value) >= MaxSkew
                || !StartsWith(req.signatureHeader.value, "v0="))
            ==> Authenticate(req, opts, env) == Rejected(InvalidAuthentication)
  {
    assert SigVersion + "=" == "v0=";
  }

  /**
   * Past the header checks, a service without stored secrets, or whose
   * secrets all fail to produce the signature, is an unknown requester.
   */
  lemma SignatureUnknownRequester(req: Request, opts: Options, env: Env)
    requires "service_id" in req.urlParams && AuthMethodIs(req, "sig")
    requires !HeaderFalsy(req.timestampHeader) && !HeaderFalsy(req.signatureHeader)
    requires env.toNumber(req.timestampHeader.value).Some?
    requires Abs(env.now - env.toNumber(req.timestampHeader.value).value) < MaxSkew
    requires StartsWith(req.signatureHeader.value, SigVersion + "=")
    ensures var sid := req.urlParams["service_id"];
      var base := SignedBase(req.timestampHeader.value, req.rawBody);
      && (Get(opts.secrets.GetOr([]), sid).None? ==> Authenticate(req, opts, env) == Rejected(UnknownRequester))
      && (Get(opts.secrets.GetOr([]), sid).Some?
          && (forall i :: 0 <= i < |Get(opts.secrets.GetOr([]), sid).value| ==>
                Expected(env.hmac, Get(opts.secrets.GetOr([]), sid).value[i], base) != req.signatureHeader.value)
          ==> Authenticate(req, opts, env) == Rejected(UnknownRequester))
  {
  }
}
