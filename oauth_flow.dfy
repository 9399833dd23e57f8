/**
 * The login helper of auth/auth_code.py, without its sockets, threads and
 * browser: a callback handler that accepts or rejects the query of the
 * broker's redirect, a wait for the authorisation code, and a token step
 * that runs only when no token is held and publishes the token an exchange
 * returns. What the helper changes is two slots of the settings module,
 * `auth_code` and `access_token`; they are the fields of `Settings`.
 */
module OAuthFlow {
  import opened Wrappers

  // ---------------------------------------------------------------------
  // Constants of the login
  // ---------------------------------------------------------------------

  const RedirectUri: string := "http://127.0.0.1:8080/"
  const ResponseType: string := "code"
  /** The `state` value sent with the login and required back on the callback. */
  const State: string := "authorize"
  const GrantType: string := "authorization_code"

  const ErrorBody: string := "Error: Invalid or missing authorization parameters."
  const SuccessBody: string := "<h2>Authorization successful. You may close this tab.</h2>"

  /** What `SessionModel` is built with, for the login and for the token exchange. */
  datatype SessionConfig = SessionConfig(
    clientId: string,
    redirectUri: string,
    responseType: Option<string>,
    state: Option<string>,
    secretKey: string,
    grantType: Option<string>)

  function LoginSession(clientId: string, secret: string): (c: SessionConfig)
    ensures c.redirectUri == RedirectUri && c.state == Some(State) && c.grantType.None?
  {
    SessionConfig(clientId, RedirectUri, Some(ResponseType), Some(State), secret, None)
  }

  function TokenSession(clientId: string, secret: string): (c: SessionConfig)
    ensures c.redirectUri == RedirectUri && c.grantType == Some(GrantType) && c.state.None?
  {
    SessionConfig(clientId, RedirectUri, None, None, secret, Some(GrantType))
  }

  // ---------------------------------------------------------------------
  // The callback
  // ---------------------------------------------------------------------

  /** `parse_qs` of the redirect's query: each name present carries at least one value. */
  type Query = map<string, seq<string>>

  predicate WellFormed(q: Query) {
    forall k :: k in q ==> q[k] != []
  }

  /** `params.get(key, [None])[0]`: the first value of a parameter, None when it is absent. */
  function FirstValue(q: Query, key: string): (r: Option<string>)
    requires WellFormed(q)
    ensures r.Some? <==> key in q
    ensures r.Some? ==> r.value == q[key][0]
  {
    if key in q then Some(q[key][0]) else None
  }

  datatype Verdict = Reject | Accept(code: string)

  /** A code is taken when it is present and not empty and the state is exactly `State`. */
  function Decide(q: Query): (v: Verdict)
    requires WellFormed(q)
    ensures v.Accept? <==> "auth_code" in q && q["auth_code"][0] != "" && "state" in q && q["state"][0] == State
    ensures v.Accept? ==> v.code == q["auth_code"][0]
  {
    var code := FirstValue(q, "auth_code");
    var stateValue := FirstValue(q, "state");
    if code.None? || code.value == "" || stateValue != Some(State) then Reject else Accept(code.value)
  }

  datatype Response = Response(status: int, headers: seq<(string, string)>, body: string)

  function ResponseFor(v: Verdict): (r: Response)
    ensures v.Reject? ==> r.status == 400 && r.headers == [] && r.body == ErrorBody
    ensures v.Accept? ==> r.status == 200 && r.headers == [("Content-type", "text/html")] && r.body == SuccessBody
  {
    match v
    case Reject => Response(400, [], ErrorBody)
    case Accept(_) => Response(200, [("Content-type", "text/html")], SuccessBody)
  }

  // ---------------------------------------------------------------------
  // The two slots, and what each step does to them
  // ---------------------------------------------------------------------

  datatype Slots = Slots(authCode: Option<string>, accessToken: Option<string>)

  /** One GET on the callback server: the slots afterwards and whether shutdown was requested. */
  function Callback(s: Slots, q: Query): (r: (Slots, bool))
    requires WellFormed(q)
    ensures r.0.accessToken == s.accessToken
    ensures r.1 <==> Decide(q).Accept?
    ensures r.1 ==> r.0.authCode == Some(Decide(q).code) && Truthy(r.0.authCode)
    ensures !r.1 ==> r.0 == s
  {
    match Decide(q)
    case Reject => (s, false)
    case Accept(code) => (s.(authCode := Some(code)), true)
  }

  predicate AllWellFormed(requests: seq<Query>) {
    forall i :: 0 <= i < |requests| ==> WellFormed(requests[i])
  }

  /**
   * The wait of `generate_auth_code`, with the server's requests in the order
   * they arrive: requests are handled while no code is held. The slots
   * afterwards and the number of requests handled.
   */
  function Await(s: Slots, requests: seq<Query>): (r: (Slots, nat))
    requires AllWellFormed(requests)
    ensures r.1 <= |requests| && r.0.accessToken == s.accessToken
    ensures r.0.authCode.Some? || r.1 == |requests|
    decreases |requests|
  {
    if s.authCode.Some? || requests == [] then (s, 0)
    else
      var s1 := Callback(s, requests[0]).0;
      var r1 := Await(s1, requests[1..]);
      (r1.0, r1.1 + 1)
  }

  /** The index of the first request the callback accepts, if any. */
  function FirstAccepted(requests: seq<Query>): (r: Option<nat>)
    requires AllWellFormed(requests)
    ensures r.Some? ==> r.value < |requests| && Decide(requests[r.value]).Accept?
    ensures r.Some? ==> forall j :: 0 <= j < r.value ==> Decide(requests[j]).Reject?
    ensures r.None? ==> forall j :: 0 <= j < |requests| ==> Decide(requests[j]).Reject?
    decreases |requests|
  {
    if requests == [] then None
    else if Decide(requests[0]).Accept? then Some(0)
    else
      match FirstAccepted(requests[1..])
      case None => None
      case Some(i) => Some(i + 1)
  }

  /** The outcome of `generate_access_token`. */
  datatype Outcome =
    | AlreadySet
    | AwaitingCallback
    | TokenAcquired(token: string)
    | ExchangeFailed

  /** `session.generate_token()`: a JSON object, or an exception. */
  datatype ExchangeResult = Succeeded(response: map<string, string>) | Failed

  /** The whole of `generate_access_token`, as slots afterwards and outcome. */
  function Flow(s: Slots, requests: seq<Query>, exchange: (SessionConfig, string) -> ExchangeResult,
                clientId: string, secret: string): (r: (Slots, Outcome))
    requires AllWellFormed(requests)
    ensures r.1.AlreadySet? <==> Truthy(s.accessToken)
    ensures !Truthy(s.accessToken) ==> r.0.authCode == Await(s, requests).0.authCode
    ensures r.1.AwaitingCallback? <==> !Truthy(s.accessToken) && Await(s, requests).0.authCode.None?
  {
    if Truthy(s.accessToken) then (s, AlreadySet)
    else
      var s1 := Await(s, requests).0;
      if s1.authCode.None? then (s1, AwaitingCallback)
      else
        match exchange(TokenSession(clientId, secret), s1.authCode.value)
        case Failed => (s1, ExchangeFailed)
        case Succeeded(response) =>
          if "access_token" in response then
            (s1.(accessToken := Some(response["access_token"])), TokenAcquired(response["access_token"]))
          else (s1, ExchangeFailed)
  }

  // ---------------------------------------------------------------------
  // What the steps promise
  // ---------------------------------------------------------------------

  /** Only the first value of a repeated parameter is looked at. */
  lemma FirstValueOnly(q: Query, key: string, extra: seq<string>)
    requires WellFormed(q) && key in q
    ensures WellFormed(q[key := [q[key][0]] + extra])
    ensures Decide(q[key := [q[key][0]] + extra]) == Decide(q)
  {
    var q' := q[key := [q[key][0]] + extra];
    assert FirstValue(q', "auth_code") == FirstValue(q, "auth_code");
    assert FirstValue(q', "state") == FirstValue(q, "state");
  }

  /** A redirect that carries the state the login sent and a code is always accepted. */
  lemma LoginStateAccepted(clientId: string, secret: string, code: string)
    requires code != ""
    ensures var q := map["auth_code" := [code], "state" := [LoginSession(clientId, secret).state.value]];
      WellFormed(q) && Decide(q) == Accept(code)
  {
  }

  /** While no code is held the wait stops at the first accepted request, and takes its code. */
  lemma {:induction false} AwaitTakesFirstAccepted(s: Slots, requests: seq<Query>)
    requires AllWellFormed(requests) && s.authCode.None?
    ensures var r := Await(s, requests);
      match FirstAccepted(requests)
      case Some(i) => r == (s.(authCode := Some(Decide(requests[i]).code)), i + 1)
      case None => r == (s, |requests|)
    decreases |requests|
  {
    if requests != [] && Decide(requests[0]).Reject? {
      assert AllWellFormed(requests[1..]) by {
        forall i | 0 <= i < |requests[1..]| ensures WellFormed(requests[1..][i]) {
          assert requests[1..][i] == requests[i + 1];
        }
      }
      AwaitTakesFirstAccepted(s, requests[1..]);
      match FirstAccepted(requests[1..])
      case Some(i) => assert requests[1..][i] == requests[i + 1];
      case None =>
    }
  }

  /** A code already held ends the wait at once, whatever arrives. */
  lemma AwaitWithCode(s: Slots, requests: seq<Query>)
    requires AllWellFormed(requests) && s.authCode.Some?
    ensures Await(s, requests) == (s, 0)
  {
  }

  /** A token already held short-circuits the flow: nothing changes and no login starts. */
  lemma TokenHeldSkips(s: Slots, requests: seq<Query>, exchange: (SessionConfig, string) -> ExchangeResult,
                       clientId: string, secret: string)
    requires AllWellFormed(requests) && Truthy(s.accessToken)
    ensures Flow(s, requests, exchange, clientId, secret) == (s, AlreadySet)
  {
  }

  /** A published token is the `access_token` field of the exchange's response for the code held. */
  lemma TokenFromResponse(s: Slots, requests: seq<Query>, exchange: (SessionConfig, string) -> ExchangeResult,
                          clientId: string, secret: string)
    requires AllWellFormed(requests)
    ensures var r := Flow(s, requests, exchange, clientId, secret);
      r.1.TokenAcquired? ==>
        && r.0.authCode.Some?
        && exchange(TokenSession(clientId, secret), r.0.authCode.value).Succeeded?
        && var response := exchange(TokenSession(clientId, secret), r.0.authCode.value).response;
           "access_token" in response && r.0.accessToken == Some(response["access_token"]) == Some(r.1.token)
  {
  }

  /** Any outcome but a new token leaves the token slot as it was. */
  lemma FailureKeepsToken(s: Slots, requests: seq<Query>, exchange: (SessionConfig, string) -> ExchangeResult,
                          clientId: string, secret: string)
    requires AllWellFormed(requests)
    ensures var r := Flow(s, requests, exchange, clientId, secret);
      !r.1.TokenAcquired? ==> r.0.accessToken == s.accessToken
  {
  }

  /** Once a non-empty token is published, running the flow again changes nothing. */
  lemma SecondRunSkips(s: Slots, requests: seq<Query>, exchange: (SessionConfig, string) -> ExchangeResult,
                       clientId: string, secret: string,
                       requests2: seq<Query>, exchange2: (SessionConfig, string) -> ExchangeResult)
    requires AllWellFormed(requests) && AllWellFormed(requests2)
    requires var r := Flow(s, requests, exchange, clientId, secret); r.1.TokenAcquired? && r.1.token != ""
    ensures var r := Flow(s, requests, exchange, clientId, secret);
      Flow(r.0, requests2, exchange2, clientId, secret) == (r.0, AlreadySet)
  {
    TokenFromResponse(s, requests, exchange, clientId, secret);
  }

  /**
   * On a successful exchange for the code held, whose response carries an
   * `access_token`, the flow publishes exactly that field.
   */
  lemma TokenPublished(s: Slots, requests: seq<Query>, exchange: (SessionConfig, string) -> ExchangeResult,
                       clientId: string, secret: string, response: map<string, string>)
    requires AllWellFormed(requests) && !Truthy(s.accessToken)
    requires Await(s, requests).0.authCode.Some?
    requires exchange(TokenSession(clientId, secret), Await(s, requests).0.authCode.value) == Succeeded(response)
    requires "access_token" in response
    ensures Flow(s, requests, exchange, clientId, secret)
         == (Await(s, requests).0.(accessToken := Some(response["access_token"])), TokenAcquired(response["access_token"]))
  {
  }

  /**
   * With a code held after the wait, the exchange failing or answering
   * without an `access_token` is reported as a failure, and the slots are
   * those the wait left.
   */
  lemma TokenNotPublished(s: Slots, requests: seq<Query>, exchange: (SessionConfig, string) -> ExchangeResult,
                          clientId: string, secret: string)
    requires AllWellFormed(requests) && !Truthy(s.accessToken)
    requires Await(s, requests).0.authCode.Some?
    requires var x := exchange(TokenSession(clientId, secret), Await(s, requests).0.authCode.value);
      x.Failed? || "access_token" !in x.response
    ensures Flow(s, requests, exchange, clientId, secret) == (Await(s, requests).0, ExchangeFailed)
  {
  }

  /**
   * Starting with neither slot set: no callback accepted means still waiting;
   * otherwise the exchange is asked for the code of the first accepted
   * callback, and its `access_token`, if it gives one, is published.
   */
  lemma {:induction false} FreshFlow(requests: seq<Query>, exchange: (SessionConfig, string) -> ExchangeResult,
                                     clientId: string, secret: string)
    requires AllWellFormed(requests)
    ensures var r := Flow(Slots(None, None), requests, exchange, clientId, secret);
      match FirstAccepted(requests)
      case None => r == (Slots(None, None), AwaitingCallback)
      case Some(i) =>
        var code := Decide(requests[i]).code;
        var x := exchange(TokenSession(clientId, secret), code);
        if x.Succeeded? && "access_token" in x.response then
          r == (Slots(Some(code), Some(x.response["access_token"])), TokenAcquired(x.response["access_token"]))
        else
          r == (Slots(Some(code), None), ExchangeFailed)
  {
    AwaitTakesFirstAccepted(Slots(None, None), requests);
  }

  /**
   * The login end to end: the redirect `?auth_code=ABC123&state=authorize`
   * gets the success page and fills the code slot, and an exchange that
   * answers `{"access_token": "tok_xyz"}` fills the token slot.
   */
  lemma LoginEndToEnd(exchange: (SessionConfig, string) -> ExchangeResult, clientId: string, secret: string)
    requires exchange(TokenSession(clientId, secret), "ABC123") == Succeeded(map["access_token" := "tok_xyz"])
    ensures var q := map["auth_code" := ["ABC123"], "state" := ["authorize"]];
      && WellFormed(q)
      && ResponseFor(Decide(q)) == Response(200, [("Content-type", "text/html")], SuccessBody)
      && Callback(Slots(None, None), q) == (Slots(Some("ABC123"), None), true)
      && Flow(Slots(None, None), [q], exchange, clientId, secret)
         == (Slots(Some("ABC123"), Some("tok_xyz")), TokenAcquired("tok_xyz"))
  {
    var q := map["auth_code" := ["ABC123"], "state" := ["authorize"]];
    assert Decide(q) == Accept("ABC123");
    assert FirstAccepted([q]) == Some(0);
    FreshFlow([q], exchange, clientId, secret);
  }

  // ---------------------------------------------------------------------
  // The settings module and the helper's three steps on it
  // ---------------------------------------------------------------------

  class Settings {
    const clientId: string
    const secretId: string
    var authCode: Option<string>
    var accessToken: Option<string>

    function Current(): Slots
      reads this
    {
      Slots(authCode, accessToken)
    }

    constructor (clientId: string, secretId: string, authCode: Option<string>, accessToken: Option<string>)
      ensures this.clientId == clientId && this.secretId == secretId
      ensures Current() == Slots(authCode, accessToken)
    {
      this.clientId := clientId;
      this.secretId := secretId;
      this.authCode := authCode;
      this.accessToken := accessToken;
    }

    /** `AuthHandler.do_GET`: the response sent and whether server shutdown was requested. */
    method HandleGet(q: Query) returns (response: Response, shutdown: bool)
      requires WellFormed(q)
      modifies this
      ensures response == ResponseFor(Decide(q))
      ensures (Current(), shutdown) == Callback(old(Current()), q)
    {
      var verdict := Decide(q);
      response := ResponseFor(verdict);
      if verdict.Reject? {
        shutdown := false;
        return;
      }
      authCode := Some(verdict.code);
      shutdown := true;
    }

    /**
     * `generate_auth_code`'s wait on `auth_code`, serving the callback
     * requests in order while it lasts. It ends holding a code, or with
     * every request served and still waiting.
     */
    method AwaitAuthCode(requests: seq<Query>) returns (served: nat, responses: seq<Response>)
      requires AllWellFormed(requests)
      modifies this
      ensures (Current(), served) == Await(old(Current()), requests)
      ensures |responses| == served
      ensures forall i :: 0 <= i < served ==> responses[i] == ResponseFor(Decide(requests[i]))
    {
      served, responses := 0, [];
      while authCode.None? && served < |requests|
        invariant served <= |requests| && |responses| == served
        invariant AllWellFormed(requests[served..])
        invariant Await(old(Current()), requests) == (Await(Current(), requests[served..]).0, Await(Current(), requests[served..]).1 + served)
        invariant forall i :: 0 <= i < served ==> responses[i] == ResponseFor(Decide(requests[i]))
        decreases |requests| - served
      {
        assert requests[served..][1..] == requests[served + 1..];
        var response, _ := HandleGet(requests[served]);
        responses := responses + [response];
        served := served + 1;
      }
    }

    /** `generate_access_token`, with the token exchange given as `exchange`. */
    method GenerateAccessToken(requests: seq<Query>, exchange: (SessionConfig, string) -> ExchangeResult)
      returns (outcome: Outcome)
      requires AllWellFormed(requests)
      modifies this
      ensures (Current(), outcome) == Flow(old(Current()), requests, exchange, clientId, secretId)
    {
      if Truthy(accessToken) {
        return AlreadySet;
      }
      var _, _ := AwaitAuthCode(requests);
      if authCode.None? {
        return AwaitingCallback;
      }
      var result := exchange(TokenSession(clientId, secretId), authCode.value);
      if result.Succeeded? && "access_token" in result.response {
        accessToken := Some(result.response["access_token"]);
        outcome := TokenAcquired(result.response["access_token"]);
      } else {
        outcome := ExchangeFailed;
      }
    }
  }
}
