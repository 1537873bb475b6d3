/**
 The OAuth2 authorization-code receiver of the login plugin: a one-shot local
 web server whose single handler catches the browser's redirect to
 `/code-reception-point`, stores the `error` and `code` parameters and sends
 the browser on to a success or failure landing page.

 The receiver is an immutable state. `RunLocalServer` and `Handle` are
 functions from a state (and whatever the embedded server or the request
 supplies) to the next state and what they return. `WaitForCode`, `Shutdown`
 and `GetAuthorizationCode` change no receiver field, so they are functions
 from a state to their result alone. The embedded server itself is not modelled: its
 listening port, or its failure to start, is an input, and waiting on it is a
 plain read of the consumed flag.
 */
module CodeReceiver {
  import opened Wrappers
  import opened Exceptions
  import Decimal

  const SuccessLandingPage := "https://cloud.google.com/tools/intellij/auth_success"
  const FailureLandingPage := "https://cloud.google.com/tools/intellij/auth_failure"
  const CodeReceptionPointPath := "/code-reception-point"
  /** "http://" followed by the local host address 127.0.0.1 and the port separator. */
  const UrlPrefix := "http://127.0.0.1:"

  const ReuseMessage := "Don't reuse the receiver."
  const NotStartedMessage := "Call runLocalServer() first."
  const NeverCreatedMessage := "Server was never created."
  const NotConsumedMessage := "Call this when waitForCode() returns true."

  /**
   The receiver's fields: whether its server object exists, whether a result
   reached the handler, and the `error` and `code` parameters it stored
   (`None` for a missing parameter).
   */
  datatype Receiver = Receiver(serverCreated: bool, resultConsumed: bool,
                               error: Option<string>, authorizationCode: Option<string>)

  /** A freshly constructed receiver. */
  const Fresh := Receiver(false, false, None, None)

  /** The state after a call together with what the call returned or threw. */
  datatype Reply<+T> = Reply(state: Receiver, result: Result<T, Exception>)

  /** What the handler does with the HTTP response. */
  datatype Response = NotHandled | Redirect(location: string)

  /**
   The port named by a URL of the form the receiver hands out, or `None` when
   the URL does not have that form. The port must be written in shortest
   decimal form, as Java prints an `int`.
   */
  function PortOfUrl(url: string): Option<nat> {
    if |url| > |UrlPrefix| + |CodeReceptionPointPath|
       && url[..|UrlPrefix|] == UrlPrefix
       && url[|url| - |CodeReceptionPointPath|..] == CodeReceptionPointPath
    then
      var digits := url[|UrlPrefix|..|url| - |CodeReceptionPointPath|];
      if Decimal.Canonical(digits) then Some(Decimal.ParseNat(digits)) else None
    else None
  }

  /** The URL the receiver listens on, given its port. */
  function ListeningUrl(port: nat): (url: string)
    ensures PortOfUrl(url) == Some(port)
  {
    var digits := Decimal.NatToString(port);
    var url := UrlPrefix + digits + CodeReceptionPointPath;
    assert url[..|UrlPrefix|] == UrlPrefix;
    assert url[|url| - |CodeReceptionPointPath|..] == CodeReceptionPointPath;
    assert url[|UrlPrefix|..|url| - |CodeReceptionPointPath|] == digits;
    Decimal.ParseNatToString(port);
    url
  }

  /** The listening URL is the only URL that names its port. */
  lemma UrlNamingPortIsListeningUrl(url: string, port: nat)
    requires PortOfUrl(url) == Some(port)
    ensures url == ListeningUrl(port)
  {
    var digits := url[|UrlPrefix|..|url| - |CodeReceptionPointPath|];
    Decimal.NatToStringOfParse(digits);
    assert Decimal.NatToString(port) == digits;
    assert url == url[..|UrlPrefix|] + digits + url[|url| - |CodeReceptionPointPath|..];
  }

  /**
   `runLocalServer`. A receiver whose server already exists is refused.
   Otherwise the server object is created before it is started, so even when
   starting fails (`listening` is `None`) the receiver cannot be used again.
   */
  function RunLocalServer(s: Receiver, listening: Option<nat>): (r: Reply<string>)
    ensures s.serverCreated ==> r == Reply(s, Failure(IllegalState(ReuseMessage)))
    ensures !s.serverCreated ==> r.state == s.(serverCreated := true)
    ensures r.result.Success? <==> !s.serverCreated && listening.Some?
    ensures !s.serverCreated && listening.None? ==> r.result == Failure(IOFailure)
    ensures r.result.Success? ==> PortOfUrl(r.result.value) == listening
    ensures r.result.Success? ==> r.result.value == ListeningUrl(listening.value)
  {
    if s.serverCreated then Reply(s, Failure(IllegalState(ReuseMessage)))
    else
      var started := s.(serverCreated := true);
      match listening
      case None => Reply(started, Failure(IOFailure))
      case Some(port) => Reply(started, Success(ListeningUrl(port)))
  }

  /**
   `waitForCode`: a zero timeout is refused first, then a receiver without a
   server; a negative timeout is refused by the underlying timed wait.
   Otherwise the answer is whether a result has been consumed. It changes no
   state.
   */
  function WaitForCode(s: Receiver, timeout: int): (r: Result<bool, Exception>)
    ensures timeout == 0 ==> r == Failure(IllegalArgument)
    ensures timeout != 0 && !s.serverCreated ==> r == Failure(IllegalState(NotStartedMessage))
    ensures timeout < 0 && s.serverCreated ==> r == Failure(IllegalArgument)
    ensures r.Success? <==> timeout > 0 && s.serverCreated
    ensures r.Success? ==> r.value == s.resultConsumed
  {
    if timeout == 0 then Failure(IllegalArgument)
    else if !s.serverCreated then Failure(IllegalState(NotStartedMessage))
    else if timeout < 0 then Failure(IllegalArgument)
    else Success(s.resultConsumed)
  }

  /**
   `shutdown`: refused when no server was created; a failure to stop the
   server is logged and swallowed, so the result does not depend on
   `stopFails` and the call then returns normally.
   */
  function Shutdown(s: Receiver, stopFails: bool): (r: Result<(), Exception>)
    ensures r.Failure? <==> !s.serverCreated
    ensures r.Failure? ==> r.error == IllegalState(NeverCreatedMessage)
  {
    if !s.serverCreated then Failure(IllegalState(NeverCreatedMessage))
    else Success(())
  }

  /**
   `getAuthorizationCode`: refused without a server, then refused until a
   result has been consumed; otherwise the stored code.
   */
  function GetAuthorizationCode(s: Receiver): (r: Result<Option<string>, Exception>)
    ensures !s.serverCreated ==> r == Failure(IllegalState(NeverCreatedMessage))
    ensures s.serverCreated && !s.resultConsumed ==> r == Failure(IllegalState(NotConsumedMessage))
    ensures r.Success? <==> s.serverCreated && s.resultConsumed
    ensures r.Success? ==> r.value == s.authorizationCode
  {
    if !s.serverCreated then Failure(IllegalState(NeverCreatedMessage))
    else if !s.resultConsumed then Failure(IllegalState(NotConsumedMessage))
    else Success(s.authorizationCode)
  }

  /**
   The request handler. A request for any other path is left alone. A request
   for the reception point marks the result consumed, stores its `error` and
   `code` parameters (overwriting any earlier ones) and redirects to the
   success page exactly when it carries no `error`.
   */
  function Handle(s: Receiver, target: string, error: Option<string>, code: Option<string>)
    : (r: (Receiver, Response))
    ensures target != CodeReceptionPointPath ==> r.0 == s && r.1 == NotHandled
    ensures target == CodeReceptionPointPath ==>
              && r.0.resultConsumed
              && r.0.error == error && r.0.authorizationCode == code
              && r.0.serverCreated == s.serverCreated
    ensures r.1 == Redirect(SuccessLandingPage) <==> target == CodeReceptionPointPath && error.None?
    ensures r.1 == Redirect(FailureLandingPage) <==> target == CodeReceptionPointPath && error.Some?
  {
    if target != CodeReceptionPointPath then (s, NotHandled)
    else
      var next := s.(resultConsumed := true, error := error, authorizationCode := code);
      (next, Redirect(if error.None? then SuccessLandingPage else FailureLandingPage))
  }

  // ---------------------------------------------------------------------------
  // Runs: sequences of calls and incoming requests
  // ---------------------------------------------------------------------------

  /** One thing that can happen to a receiver. */
  datatype Event =
    | Start(listening: Option<nat>)
    | Request(target: string, error: Option<string>, code: Option<string>)
    | Wait(timeout: int)
    | Stop(stopFails: bool)
    | FetchCode

  /** The receiver after one event; the queries leave it as it is. */
  function Apply(s: Receiver, e: Event): Receiver {
    match e
    case Start(listening) => RunLocalServer(s, listening).state
    case Request(target, error, code) => Handle(s, target, error, code).0
    case _ => s
  }

  /** The receiver after a run of events, applied first to last. */
  function Run(s: Receiver, events: seq<Event>): Receiver
    decreases |events|
  {
    if events == [] then s else Apply(Run(s, events[..|events| - 1]), events[|events| - 1])
  }

  predicate IsReception(e: Event) {
    e.Request? && e.target == CodeReceptionPointPath
  }

  /** The `error` and `code` of the last request for the reception point, if any. */
  function LastReception(events: seq<Event>): Option<(Option<string>, Option<string>)>
    decreases |events|
  {
    if events == [] then None
    else
      var e := events[|events| - 1];
      if IsReception(e) then Some((e.error, e.code)) else LastReception(events[..|events| - 1])
  }

  predicate HasStart(events: seq<Event>) {
    exists i :: 0 <= i < |events| && events[i].Start?
  }

  /**
   Over any run: the consumed flag is set exactly when it was set before or a
   request reached the reception point, it is never cleared, the stored
   parameters are those of the last such request, and the server exists
   exactly when it existed before or some start was attempted.
   */
  lemma {:induction false} RunStoresLastReception(s: Receiver, events: seq<Event>)
    ensures Run(s, events).resultConsumed <==> s.resultConsumed || LastReception(events).Some?
    ensures LastReception(events).Some? ==>
              (Run(s, events).error, Run(s, events).authorizationCode) == LastReception(events).value
    ensures LastReception(events).None? ==>
              Run(s, events).error == s.error && Run(s, events).authorizationCode == s.authorizationCode
    ensures Run(s, events).serverCreated <==> s.serverCreated || HasStart(events)
    decreases |events|
  {
    if events != [] {
      var init := events[..|events| - 1];
      var e := events[|events| - 1];
      RunStoresLastReception(s, init);
      if HasStart(events) && !e.Start? {
        var i :| 0 <= i < |events| && events[i].Start?;
        assert init[i] == events[i];
      }
      if HasStart(init) {
        var i :| 0 <= i < |init| && init[i].Start?;
        assert events[i] == init[i];
      }
    }
  }

  /** Once a result is consumed it stays consumed, whatever follows. */
  lemma ConsumedStaysConsumed(s: Receiver, events: seq<Event>)
    requires s.resultConsumed
    ensures Run(s, events).resultConsumed
  {
    RunStoresLastReception(s, events);
  }

  /** How many `Start` events of a run start a server successfully. */
  function SuccessfulStarts(s: Receiver, events: seq<Event>): nat
    decreases |events|
  {
    if events == [] then 0
    else
      var init := events[..|events| - 1];
      var before := Run(s, init);
      var e := events[|events| - 1];
      SuccessfulStarts(s, init)
      + (if e.Start? && RunLocalServer(before, e.listening).result.Success? then 1 else 0)
  }

  /** The receiver is single use: over any run at most one start succeeds, and none when the server already exists. */
  lemma {:induction false} AtMostOneSuccessfulStart(s: Receiver, events: seq<Event>)
    ensures SuccessfulStarts(s, events) <= 1
    ensures s.serverCreated ==> SuccessfulStarts(s, events) == 0
    ensures SuccessfulStarts(s, events) == 1 ==> Run(s, events).serverCreated
    decreases |events|
  {
    if events != [] {
      var init := events[..|events| - 1];
      AtMostOneSuccessfulStart(s, init);
      RunStoresLastReception(s, init);
      RunStoresLastReception(s, events);
      var e := events[|events| - 1];
      if e.Start? && RunLocalServer(Run(s, init), e.listening).result.Success? {
        assert !s.serverCreated;
        assert !HasStart(init);
        assert SuccessfulStarts(s, init) == 0 by {
          StartsNeedAStart(s, init);
        }
      }
    }
  }

  /** A run with no `Start` event starts nothing. */
  lemma {:induction false} StartsNeedAStart(s: Receiver, events: seq<Event>)
    requires !HasStart(events)
    ensures SuccessfulStarts(s, events) == 0
    decreases |events|
  {
    if events != [] {
      var init := events[..|events| - 1];
      assert !HasStart(init);
      StartsNeedAStart(s, init);
      assert !events[|events| - 1].Start?;
    }
  }

  /**
   The intended login flow: start the server, receive the redirect with a
   code, then `waitForCode` answers true and `getAuthorizationCode` returns
   that code.
   */
  lemma LoginFlow(port: nat, code: string, timeout: int)
    requires timeout > 0
    ensures var s := Run(Fresh, [Start(Some(port)), Request(CodeReceptionPointPath, None, Some(code))]);
            && WaitForCode(s, timeout) == Success(true)
            && GetAuthorizationCode(s) == Success(Some(code))
  {
    var events := [Start(Some(port)), Request(CodeReceptionPointPath, None, Some(code))];
    assert events[..1] == [Start(Some(port))];
    assert events[..1][..0] == [];
  }
}
