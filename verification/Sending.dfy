/** `http_client_worktask_send_request` of modules/src/http_client.c over every sequence of partial,
    empty, would-block and failed writes. */
module Sending {
  import opened ResponseMachine

  /** What one `transport_write` does: take up to `limit` bytes, nothing, would-block, fail. */
  datatype WriteEvent = Took(limit: nat) | TookNone | Busy | Broke

  const MAX_RETRIES := 3

  /** `accepted` is what the transport has taken so far. */
  datatype Sender = Sender(
    state: State,
    request: string,
    bytesSent: nat,
    retries: nat,
    accepted: string,
    outgoing: seq<WriteEvent>)

  predicate InRange(s: Sender) { s.bytesSent <= |s.request| }

  function Written(s: Sender, limit: nat): (n: nat)
    requires InRange(s)
    ensures n <= |s.request| - s.bytesSent
  {
    if limit <= |s.request| - s.bytesSent then limit else |s.request| - s.bytesSent
  }

  /** One work call in state SendingRequest; an exhausted script answers would-block. */
  function SendStep(s: Sender): Sender
    requires InRange(s)
  {
    if s.outgoing == [] then s else
      var r := s.(outgoing := s.outgoing[1..]);
      match s.outgoing[0]
      case Took(limit) =>
        var n := Written(s, limit);
        if n == 0 then r.(retries := s.retries + 1)
        else
          var sent := s.bytesSent + n;
          var t := r.(bytesSent := sent, accepted := s.accepted + s.request[s.bytesSent..sent]);
          if sent >= |s.request| then t.(retries := 0, state := ReadingFirstline) else t
      case TookNone => r.(retries := s.retries + 1)
      case Busy => r
      case Broke => if s.retries < MAX_RETRIES then r.(retries := s.retries + 1) else r.(state := Error)
  }

  /** The work calls over the whole script. */
  function Drive(s: Sender): Sender
    requires InRange(s)
    decreases |s.outgoing|
  {
    if s.state != SendingRequest || s.outgoing == [] then s else Drive(SendStep(s))
  }

  function Start(request: string, script: seq<WriteEvent>): Sender {
    Sender(SendingRequest, request, 0, 0, "", script)
  }

  /** What holds after every write: the transport has taken exactly the first `bytesSent` bytes, in
      order and once, and reading begins exactly when that is the whole request. */
  predicate InOrder(s: Sender) {
    && s.bytesSent <= |s.request|
    && s.accepted == s.request[..s.bytesSent]
    && s.state in {SendingRequest, ReadingFirstline, Error}
    && (s.state == ReadingFirstline <==> s.bytesSent == |s.request|)
    && (s.state == ReadingFirstline ==> s.retries == 0)
  }

  lemma StepInOrder(s: Sender)
    requires InOrder(s) && s.state == SendingRequest
    ensures InOrder(SendStep(s)) && SendStep(s).request == s.request
  {}

  lemma {:induction false} DriveInOrder(s: Sender)
    requires InOrder(s)
    ensures InOrder(Drive(s)) && Drive(s).request == s.request
    decreases |s.outgoing|
  {
    if s.state == SendingRequest && s.outgoing != [] {
      StepInOrder(s);
      DriveInOrder(SendStep(s));
    }
  }

  /** Sending, over every script: the transport holds a prefix of the request, and the client reads
      the response exactly when the transport holds all of it. */
  lemma SentOnceInOrder(request: string, script: seq<WriteEvent>)
    requires request != ""
    ensures var s := Drive(Start(request, script));
            s.bytesSent <= |request| && s.accepted == request[..s.bytesSent]
            && (s.state == ReadingFirstline <==> s.accepted == request)
            && (s.state == ReadingFirstline ==> s.retries == 0)
  {
    var s := Drive(Start(request, script));
    DriveInOrder(Start(request, script));
    assert request[..|request|] == request;
    assert |request[..s.bytesSent]| == s.bytesSent;
  }

  // ---------------------------------------------------------------------------------------
  // Errors

  /** Writes that count as a retry: nothing taken, or a hard error. */
  function Troubles(es: seq<WriteEvent>): nat {
    if es == [] then 0
    else (if es[0] in {TookNone, Broke, Took(0)} then 1 else 0) + Troubles(es[1..])
  }

  function Offered(es: seq<WriteEvent>): nat {
    if es == [] then 0 else (if es[0].Took? then es[0].limit else 0) + Offered(es[1..])
  }

  function HardErrors(es: seq<WriteEvent>): nat {
    if es == [] then 0 else (if es[0].Broke? then 1 else 0) + HardErrors(es[1..])
  }

  /** Event `j` is a hard error met before the request was out and with the retries used up. */
  predicate Fatal(s: Sender, j: int) {
    && 0 <= j < |s.outgoing| && s.outgoing[j].Broke?
    && s.retries + Troubles(s.outgoing[..j]) >= 3
    && s.bytesSent + Offered(s.outgoing[..j]) < |s.request|
  }

  lemma FatalStep(s: Sender, j: int)
    requires InOrder(s) && s.state == SendingRequest && s.outgoing != [] && SendStep(s).state == SendingRequest
    ensures Fatal(s, j) <==> j != 0 && Fatal(SendStep(s), j - 1)
  {
    var r := SendStep(s);
    if 0 < j < |s.outgoing| {
      var es := s.outgoing[..j];
      assert es[1..] == r.outgoing[..j - 1];
      assert s.outgoing[j] == r.outgoing[j - 1];
      assert Troubles(es) == (if es[0] in {TookNone, Broke, Took(0)} then 1 else 0) + Troubles(es[1..]);
      assert Offered(es) == (if es[0].Took? then es[0].limit else 0) + Offered(es[1..]);
    }
  }

  /** Sending ends in an error exactly when some write is fatal in this sense. */
  lemma {:induction false} FailsExactly(s: Sender)
    requires InOrder(s) && s.state == SendingRequest
    ensures Drive(s).state == Error <==> exists j :: Fatal(s, j)
    decreases |s.outgoing|
  {
    if s.outgoing != [] {
      var r := SendStep(s);
      StepInOrder(s);
      if r.state == SendingRequest {
        FailsExactly(r);
        forall j ensures Fatal(s, j) <==> j != 0 && Fatal(r, j - 1) {
          FatalStep(s, j);
        }
        if j :| Fatal(r, j) {
          assert Fatal(s, j + 1);
        }
      } else if r.state == Error {
        assert Fatal(s, 0);
      } else {
        forall j ensures !Fatal(s, j) {
          CompleteIsNotFatal(s, j);
        }
      }
    }
  }

  lemma CompleteIsNotFatal(s: Sender, j: int)
    requires InOrder(s) && s.state == SendingRequest && s.outgoing != [] && SendStep(s).state == ReadingFirstline
    ensures !Fatal(s, j)
  {}

  lemma {:induction false} HardErrorsAreTroubles(es: seq<WriteEvent>)
    ensures HardErrors(es) <= Troubles(es)
  {
    if es == [] {
    } else {
      HardErrorsAreTroubles(es[1..]);
    }
  }

  /** At most three hard errors are survived: a fourth before the request is out is fatal. */
  lemma FourthErrorIsFatal(request: string, script: seq<WriteEvent>, j: nat)
    requires j < |script| && script[j].Broke? && HardErrors(script[..j]) >= 3 && Offered(script[..j]) < |request|
    ensures Drive(Start(request, script)).state == Error
  {
    HardErrorsAreTroubles(script[..j]);
    assert Fatal(Start(request, script), j);
    FailsExactly(Start(request, script));
  }
}
