/** The event loop of `work` and the constructor around it.

    The loop is split into its two layers. `Requests` is what the framing and
    parsing make of the input bytes, whatever the provider does; `Serve`
    dispatches those requests one after another; `Run` is the loop itself,
    over bytes, and is proved to agree with the two layers composed. */
module Engine {
  import opened Wrappers
  import opened Octets
  import opened Transport
  import opened Parser
  import opened Dispatch
  import Response
  import opened Logger

  /** What a provider method call does: return a boolean, or throw. */
  datatype Answer = Returned(ok: bool) | Threw(message: Bytes)

  /** The concrete subclass. `userManagement` says whether it implements the
      optional interface; `answer` gives the outcome of a call from the calls
      made before it, so a provider may keep state across calls. */
  datatype Provider = Provider(userManagement: bool, answer: (seq<Call>, Call) -> Answer)

  /** A provider never throws. */
  ghost predicate NeverThrows(p: Provider)
  {
    forall history, c :: p.answer(history, c).Returned?
  }

  /** An exception thrown by a provider method. */
  datatype Fault = Fault(call: Call, message: Bytes)

  /** What dispatching one request ends in: the calls made (none or one)
      and the status to send, or an exception from the provider. */
  datatype Handled = Answered(calls: seq<Call>, status: bool) | Faulted(fault: Fault)

  /** The provider method a request reaches, as a run of none or one call. */
  function RoutedCall(req: Request, userManagement: bool): seq<Call>
  {
    var c := Route(req, userManagement);
    if c.Some? then [c.value] else []
  }

  /** The provider methods a run of requests reaches, in order: one call per
      routed request and none for the others, each allowed by the capability. */
  function RoutedCalls(reqs: seq<Request>, userManagement: bool): (calls: seq<Call>)
    ensures |calls| <= |reqs|
    ensures forall i :: 0 <= i < |calls| ==> userManagement || calls[i].Needs() == Core
  {
    if reqs == [] then []
    else RoutedCall(reqs[0], userManagement) + RoutedCalls(reqs[1..], userManagement)
  }

  /** The methods the first `n` requests reach are those the first one
      reaches followed by those the next `n - 1` reach. */
  lemma RoutedCallsCons(reqs: seq<Request>, n: nat, userManagement: bool)
    requires 0 < n <= |reqs|
    ensures RoutedCalls(reqs[..n], userManagement)
            == RoutedCall(reqs[0], userManagement) + RoutedCalls(reqs[1..][..n - 1], userManagement)
  {
    assert reqs[..n][0] == reqs[0];
    assert reqs[..n][1..] == reqs[1..][..n - 1];
  }

  /** The two `switch` blocks of `work` for one request, with the provider
      method invoked. An unrouted command invokes nothing and is answered
      false; a routed one invokes its method once and is answered with what
      the method returns, or throws what the method throws. */
  function Handle(p: Provider, history: seq<Call>, req: Request): (h: Handled)
    ensures h.Answered? ==> h.calls == RoutedCall(req, p.userManagement)
    ensures h.Answered? && h.calls == [] ==> !h.status
    ensures h.Answered? && h.calls != [] ==> p.answer(history, h.calls[0]) == Returned(h.status)
    ensures h.Faulted? ==>
              && RoutedCall(req, p.userManagement) == [h.fault.call]
              && p.answer(history, h.fault.call) == Threw(h.fault.message)
  {
    match Route(req, p.userManagement)
    case None => Answered([], false)
    case Some(c) =>
      match p.answer(history, c)
      case Returned(ok) => Answered([c], ok)
      case Threw(message) => Faulted(Fault(c, message))
  }

  /** The result of dispatching a run of requests: the status sent for each,
      the provider calls made, and the exception that stopped the run, if any. */
  datatype Outcome = Outcome(statuses: seq<bool>, calls: seq<Call>, fault: Option<Fault>)

  /** Dispatches requests in order, one status per request, until a
      provider exception; every request answered cost at most one call. */
  function Serve(p: Provider, history: seq<Call>, reqs: seq<Request>): (o: Outcome)
    ensures |o.statuses| <= |reqs|
    ensures o.fault.None? ==> |o.statuses| == |reqs|
    ensures o.fault.Some? ==> |o.statuses| < |reqs|
    ensures |o.calls| <= |o.statuses| + (if o.fault.Some? then 1 else 0)
    decreases |reqs|
  {
    if reqs == [] then Outcome([], [], None)
    else
      match Handle(p, history, reqs[0])
      case Faulted(f) => Outcome([], [f.call], Some(f))
      case Answered(calls, status) =>
        var o := Serve(p, history + calls, reqs[1..]);
        Outcome([status] + o.statuses, calls + o.calls, o.fault)
  }

  /** The number of requests `Serve` handled, counting the one that threw. */
  function HandledCount(o: Outcome): nat
  {
    |o.statuses| + if o.fault.Some? then 1 else 0
  }

  /** The calls made are exactly the methods the handled requests reach, in
      order: the provider's answers decide the statuses and where the run
      stops, never which methods are called. */
  lemma {:induction false} ServeCalls(p: Provider, history: seq<Call>, reqs: seq<Request>)
    ensures HandledCount(Serve(p, history, reqs)) <= |reqs|
    ensures Serve(p, history, reqs).calls
            == RoutedCalls(reqs[..HandledCount(Serve(p, history, reqs))], p.userManagement)
    decreases |reqs|
  {
    if reqs != [] {
      match Handle(p, history, reqs[0])
      case Faulted(f) =>
        assert Serve(p, history, reqs) == Outcome([], [f.call], Some(f));
        RoutedCallsCons(reqs, 1, p.userManagement);
      case Answered(calls, status) =>
        var o := Serve(p, history + calls, reqs[1..]);
        ServeCalls(p, history + calls, reqs[1..]);
        assert Serve(p, history, reqs) == Outcome([status] + o.statuses, calls + o.calls, o.fault);
        RoutedCallsCons(reqs, 1 + HandledCount(o), p.userManagement);
    }
  }

  /** The calls before request `n` are those of the first request followed
      by those of the requests between it and `n`. */
  lemma HistoryShift(p: Provider, history: seq<Call>, reqs: seq<Request>, n: nat)
    requires 0 < n <= |reqs|
    requires Handle(p, history, reqs[0]).Answered?
    ensures history + Handle(p, history, reqs[0]).calls + RoutedCalls(reqs[1..][..n - 1], p.userManagement)
            == history + RoutedCalls(reqs[..n], p.userManagement)
  {
    RoutedCallsCons(reqs, n, p.userManagement);
  }

  /** Request `i` was handled after the calls of all earlier requests, and
      answered with its status. */
  lemma {:induction false} ServeStatus(p: Provider, history: seq<Call>, reqs: seq<Request>, i: nat)
    requires i < |Serve(p, history, reqs).statuses|
    ensures Handle(p, history + RoutedCalls(reqs[..i], p.userManagement), reqs[i])
            == Answered(RoutedCall(reqs[i], p.userManagement), Serve(p, history, reqs).statuses[i])
    decreases |reqs|
  {
    var h := Handle(p, history, reqs[0]);
    var o := Serve(p, history + h.calls, reqs[1..]);
    assert Serve(p, history, reqs).statuses == [h.status] + o.statuses;
    if i == 0 {
      assert reqs[..0] == [];
      assert history + RoutedCalls([], p.userManagement) == history;
    } else {
      ServeStatus(p, history + h.calls, reqs[1..], i - 1);
      HistoryShift(p, history, reqs, i);
      assert reqs[1..][i - 1] == reqs[i];
      var before := history + RoutedCalls(reqs[..i], p.userManagement);
      assert Handle(p, before, reqs[i]) == Answered(RoutedCall(reqs[i], p.userManagement), o.statuses[i - 1]);
    }
  }

  /** A run stops only at a request whose method, called after the calls of
      all earlier requests, throws; the exception is that one. */
  lemma {:induction false} ServeFault(p: Provider, history: seq<Call>, reqs: seq<Request>)
    requires Serve(p, history, reqs).fault.Some?
    ensures var o := Serve(p, history, reqs);
            Handle(p, history + RoutedCalls(reqs[..|o.statuses|], p.userManagement), reqs[|o.statuses|])
            == Faulted(o.fault.value)
    decreases |reqs|
  {
    var h := Handle(p, history, reqs[0]);
    if h.Faulted? {
      assert reqs[..0] == [];
      assert history + RoutedCalls([], p.userManagement) == history;
    } else {
      var o := Serve(p, history + h.calls, reqs[1..]);
      assert Serve(p, history, reqs).statuses == [h.status] + o.statuses;
      assert Serve(p, history, reqs).fault == o.fault;
      ServeFault(p, history + h.calls, reqs[1..]);
      var n := |o.statuses|;
      HistoryShift(p, history, reqs, n + 1);
      assert reqs[1..][n] == reqs[n + 1];
      var before := history + RoutedCalls(reqs[..n + 1], p.userManagement);
      assert Handle(p, before, reqs[n + 1]) == Faulted(o.fault.value);
    }
  }

  /** With a provider that never throws, every request is answered. */
  lemma {:induction false} ServeNeverThrows(p: Provider, history: seq<Call>, reqs: seq<Request>)
    requires NeverThrows(p)
    ensures Serve(p, history, reqs).fault.None?
    decreases |reqs|
  {
    if reqs != [] {
      var c := Route(reqs[0], p.userManagement);
      if c.Some? {
        assert p.answer(history, c.value).Returned?;
      }
      ServeNeverThrows(p, history + Handle(p, history, reqs[0]).calls, reqs[1..]);
    }
  }

  /** Requests that reach no provider method are all answered false, and
      nothing is called, so nothing can throw. */
  lemma {:induction false} ServeUnrouted(p: Provider, history: seq<Call>, reqs: seq<Request>)
    requires RoutedCalls(reqs, p.userManagement) == []
    ensures Serve(p, history, reqs).fault.None?
    ensures Serve(p, history, reqs).calls == []
    ensures forall i :: 0 <= i < |Serve(p, history, reqs).statuses| ==> !Serve(p, history, reqs).statuses[i]
    decreases |reqs|
  {
    if reqs != [] {
      assert RoutedCall(reqs[0], p.userManagement) == [];
      assert Handle(p, history, reqs[0]) == Answered([], false);
      assert history + [] == history;
      ServeUnrouted(p, history, reqs[1..]);
      var o := Serve(p, history, reqs[1..]);
      assert Serve(p, history, reqs).statuses == [false] + o.statuses;
      assert Serve(p, history, reqs).calls == [] + o.calls;
    }
  }

  /** How the loop ended: end of input at a header read, or a provider
      exception, which escapes the inner `try` of `work`. */
  datatype Exit = EndOfInput | ProviderFault(fault: Fault)

  /** What the program logs. */
  datatype Event =
    | Starting
    | EnteringLoop
    | InvalidLengthSkipped
    | TooShortSkipped(text: Bytes)
    | ReceivedMessage(req: Request)
    | Sending(frame: Bytes)
    | PipeBrokenCaught
    | ProviderFaultCaught(message: Bytes)
    | Exiting

  /** What the inner `try` of one loop iteration ends in: end of input, a
      skipped message with the error logged for it, or a request. */
  datatype Received = Closed | Skipped(error: Event, rest: Bytes) | Got(req: Request, rest: Bytes)

  /** `read` then `parseMessage`. A skipped message or a request always
      consumes input. */
  function Receive(input: Bytes): (r: Received)
    ensures r.Closed? <==> AtEnd(input)
    ensures !r.Closed? ==> |r.rest| < |input| && r.rest == input[|input| - |r.rest|..]
  {
    match ReadFrame(input)
    case PipeBroken => Closed
    case InvalidLength(rest) => Skipped(InvalidLengthSkipped, rest)
    case Frame(payload, rest) =>
      match ParseMessage(payload)
      case TooShort(text) => Skipped(TooShortSkipped(text), rest)
      case Message(req) => Got(req, rest)
  }

  /** The requests the loop parses out of the input, skipping invalid
      lengths and short messages, up to the end of input. */
  function Requests(input: Bytes): seq<Request>
    decreases |input|
  {
    match Receive(input)
    case Closed => []
    case Skipped(_, rest) => Requests(rest)
    case Got(req, rest) => [req] + Requests(rest)
  }

  /** One run of the loop: the bytes written to standard output, the status
      of each response, the provider calls, the log calls, how it ended, and
      the input left unread. */
  datatype Trace = Trace(
    output: Bytes,
    statuses: seq<bool>,
    calls: seq<Call>,
    log: seq<Entry<Event>>,
    exit: Exit,
    remaining: Bytes)

  /** The `while (true)` loop of `work` over the input bytes. The output is
      one response frame per status, in order, and nothing else; each
      answered message cost at most one provider call, and a provider
      exception one more; it stops at end of input only where the header
      read reaches the end. */
  function Run(p: Provider, history: seq<Call>, input: Bytes): (t: Trace)
    ensures t.exit.EndOfInput? ==> AtEnd(t.remaining)
    decreases |input|
  {
    match Receive(input)
    case Closed =>
      Trace([], [], [], [], EndOfInput, input)
    case Skipped(error, rest) =>
      var t := Run(p, history, rest);
      t.(log := [Entry(Error, error)] + t.log)
    case Got(req, rest) =>
      var received := Entry(Debug, ReceivedMessage(req));
      match Handle(p, history, req)
      case Faulted(f) =>
        Trace([], [], [f.call], [received], ProviderFault(f), rest)
      case Answered(calls, status) =>
        var frame := Response.Encode(status);
        var t := Run(p, history + calls, rest);
        Trace(frame + t.output, [status] + t.statuses, calls + t.calls,
              [received, Entry(Debug, Sending(frame))] + t.log, t.exit, t.remaining)
  }

  /** The loop over bytes sends the statuses, makes the calls and ends the
      way dispatching the requests parsed from the same bytes does. */
  ghost predicate Agrees(p: Provider, history: seq<Call>, input: Bytes)
  {
    var t := Run(p, history, input);
    var o := Serve(p, history, Requests(input));
    && t.statuses == o.statuses
    && t.calls == o.calls
    && (t.exit.EndOfInput? <==> o.fault.None?)
    && (t.exit.ProviderFault? ==> o.fault == Some(t.exit.fault))
  }

  /** One dispatched message keeps the loop in step with the dispatcher. */
  lemma AgreesAfterMessage(p: Provider, history: seq<Call>, input: Bytes, req: Request, rest: Bytes)
    requires Receive(input) == Got(req, rest)
    requires Handle(p, history, req).Answered?
    requires Agrees(p, history + Handle(p, history, req).calls, rest)
    ensures Agrees(p, history, input)
  {
    var reqs := Requests(input);
    assert reqs == [req] + Requests(rest);
    assert reqs[0] == req && reqs[1..] == Requests(rest);
  }

  /** A message whose provider call throws ends both the same way. */
  lemma AgreesAtFault(p: Provider, history: seq<Call>, input: Bytes, req: Request, rest: Bytes)
    requires Receive(input) == Got(req, rest)
    requires Handle(p, history, req).Faulted?
    ensures Agrees(p, history, input)
  {
    var reqs := Requests(input);
    assert reqs == [req] + Requests(rest);
    assert reqs[0] == req;
  }

  /** The loop over bytes is the composition of the two layers: it sends the
      statuses, makes the calls and ends the way dispatching the parsed
      requests in order does. */
  lemma {:induction false} RunServes(p: Provider, history: seq<Call>, input: Bytes)
    ensures Agrees(p, history, input)
    decreases |input|
  {
    match Receive(input)
    case Closed =>
    case Skipped(_, rest) =>
      RunServes(p, history, rest);
    case Got(req, rest) =>
      match Handle(p, history, req)
      case Faulted(_) =>
        AgreesAtFault(p, history, input, req, rest);
      case Answered(calls, _) =>
        RunServes(p, history + calls, rest);
        AgreesAfterMessage(p, history, input, req, rest);
  }

  /** Everything written to standard output is one response frame per
      status, in order: a multiple of four bytes that reads back as the
      statuses. */
  lemma {:induction false} RunOutput(p: Provider, history: seq<Call>, input: Bytes)
    ensures Run(p, history, input).output == Response.Responses(Run(p, history, input).statuses)
    decreases |input|
  {
    var r := Receive(input);
    if r.Skipped? {
      RunOutput(p, history, r.rest);
      RunSkippedStep(p, history, input);
    } else if r.Got? && Handle(p, history, r.req).Answered? {
      var h := Handle(p, history, r.req);
      RunOutput(p, history + h.calls, r.rest);
      RunAnsweredStep(p, history, input);
      Response.ResponsesCons(h.status, Run(p, history + h.calls, r.rest).statuses);
    }
  }

  /** At end of input the loop stops at once, having done nothing. */
  lemma RunAtEnd(p: Provider, history: seq<Call>, input: Bytes)
    requires AtEnd(input)
    ensures Run(p, history, input) == Trace([], [], [], [], EndOfInput, input)
  {
  }

  /** A skipped message only puts its error in front of the log of the rest. */
  lemma RunSkippedStep(p: Provider, history: seq<Call>, input: Bytes)
    requires Receive(input).Skipped?
    ensures var u := Run(p, history, Receive(input).rest);
            Run(p, history, input) == u.(log := [Entry(Error, Receive(input).error)] + u.log)
  {
  }

  /** An answered request puts its frame and status in front of the rest. */
  lemma RunAnsweredStep(p: Provider, history: seq<Call>, input: Bytes)
    requires Receive(input).Got?
    requires Handle(p, history, Receive(input).req).Answered?
    ensures var h := Handle(p, history, Receive(input).req);
            var t := Run(p, history + h.calls, Receive(input).rest);
            && Run(p, history, input).output == Response.Encode(h.status) + t.output
            && Run(p, history, input).statuses == [h.status] + t.statuses
            && Run(p, history, input).calls == h.calls + t.calls
            && Run(p, history, input).exit == t.exit
  {
  }

  /** The output of the loop is whole response frames, one per status. */
  lemma OutputFrames(p: Provider, history: seq<Call>, input: Bytes)
    ensures |Run(p, history, input).output| == 4 * |Run(p, history, input).statuses|
    ensures Response.DecodeAll(Run(p, history, input).output) == Some(Run(p, history, input).statuses)
  {
    RunOutput(p, history, input);
    Response.DecodeAllResponses(Run(p, history, input).statuses);
  }

  /** The loop's statuses, calls and ending are those of dispatching the
      requests parsed from its input. */
  lemma LoopIsServe(p: Provider, history: seq<Call>, input: Bytes)
    ensures Run(p, history, input).statuses == Serve(p, history, Requests(input)).statuses
    ensures Run(p, history, input).calls == Serve(p, history, Requests(input)).calls
    ensures Run(p, history, input).exit.EndOfInput? <==> Serve(p, history, Requests(input)).fault.None?
    ensures Run(p, history, input).exit.ProviderFault? ==>
              Serve(p, history, Requests(input)).fault == Some(Run(p, history, input).exit.fault)
  {
    RunServes(p, history, input);
  }

  /** The number of parsed requests the loop handled: those it answered,
      and the one whose provider call threw, if any. */
  function Consumed(t: Trace): nat
  {
    |t.statuses| + if t.exit.ProviderFault? then 1 else 0
  }

  /** The loop handles the parsed requests in order, all of them unless a
      provider call throws; the calls it makes are exactly the methods the
      handled requests reach. */
  lemma LoopCalls(p: Provider, history: seq<Call>, input: Bytes)
    ensures Consumed(Run(p, history, input)) <= |Requests(input)|
    ensures Run(p, history, input).exit.EndOfInput? ==> Consumed(Run(p, history, input)) == |Requests(input)|
    ensures Run(p, history, input).calls
            == RoutedCalls(Requests(input)[..Consumed(Run(p, history, input))], p.userManagement)
  {
    var reqs := Requests(input);
    LoopIsServe(p, history, input);
    ServeCalls(p, history, reqs);
    assert Consumed(Run(p, history, input)) == HandledCount(Serve(p, history, reqs));
  }

  /** A provider without user management only ever sees `authenticate` and
      `exists`, whatever the input. */
  lemma CoreProviderGate(p: Provider, history: seq<Call>, input: Bytes)
    requires !p.userManagement
    ensures forall i :: 0 <= i < |Run(p, history, input).calls| ==> Run(p, history, input).calls[i].Needs() == Core
  {
    var reqs := Requests(input);
    LoopIsServe(p, history, input);
    ServeCalls(p, history, reqs);
  }

  /** The status of the `i`-th response is what handling the `i`-th parsed
      request gives, after the calls of all the requests before it. */
  lemma LoopStatus(p: Provider, history: seq<Call>, input: Bytes, i: nat)
    requires i < |Run(p, history, input).statuses|
    ensures i < |Requests(input)|
    ensures Handle(p, history + RoutedCalls(Requests(input)[..i], p.userManagement), Requests(input)[i])
            == Answered(RoutedCall(Requests(input)[i], p.userManagement), Run(p, history, input).statuses[i])
  {
    LoopIsServe(p, history, input);
    ServeStatus(p, history, Requests(input), i);
  }

  /** The loop ends early only at a request whose provider call threw, and
      it ends with that exception. */
  lemma LoopFault(p: Provider, history: seq<Call>, input: Bytes)
    requires Run(p, history, input).exit.ProviderFault?
    ensures var t := Run(p, history, input);
            var reqs := Requests(input);
            && |t.statuses| < |reqs|
            && Handle(p, history + RoutedCalls(reqs[..|t.statuses|], p.userManagement), reqs[|t.statuses|])
               == Faulted(t.exit.fault)
  {
    LoopIsServe(p, history, input);
    ServeFault(p, history, Requests(input));
  }

  /** With a provider that never throws, the loop runs to the end of input
      and answers every request it parsed. */
  lemma LoopNeverThrows(p: Provider, history: seq<Call>, input: Bytes)
    requires NeverThrows(p)
    ensures Run(p, history, input).exit == EndOfInput
    ensures |Run(p, history, input).statuses| == |Requests(input)|
  {
    LoopIsServe(p, history, input);
    ServeNeverThrows(p, history, Requests(input));
  }

  /** Input whose requests reach no provider method is answered false,
      request by request, and runs to the end without a call. */
  lemma LoopUnrouted(p: Provider, history: seq<Call>, input: Bytes)
    requires RoutedCalls(Requests(input), p.userManagement) == []
    ensures Run(p, history, input).exit == EndOfInput
    ensures Run(p, history, input).calls == []
    ensures forall i :: 0 <= i < |Run(p, history, input).statuses| ==> !Run(p, history, input).statuses[i]
  {
    LoopIsServe(p, history, input);
    ServeUnrouted(p, history, Requests(input));
  }

  /** A frame header of length zero writes nothing, calls nothing and logs
      one error; reading resumes right after the two header bytes. */
  lemma ZeroLengthResumes(p: Provider, history: seq<Call>, more: Bytes)
    ensures var t := Run(p, history, [0, 0] + more);
            var u := Run(p, history, more);
            && t.(log := u.log) == u
            && t.log == [Entry(Error, InvalidLengthSkipped)] + u.log
  {
    ReceiveZeroLength(more);
    RunSkippedStep(p, history, [0, 0] + more);
  }

  /** A zero length is skipped after its two header bytes. */
  lemma ReceiveZeroLength(more: Bytes)
    ensures Receive([0, 0] + more) == Skipped(InvalidLengthSkipped, more)
  {
    var input := [0, 0] + more;
    var r := ReadFrame(input);
    assert 2 <= |input| && input[0] == 0 && Unpack16(input[0], input[1]) == 0;
    assert r.InvalidLength? && r.rest == input[2..];
    assert input[2..] == more;
  }

  /** A lone newline left at the end of the input writes nothing and calls
      nothing; it logs one invalid-length error before the loop finds the
      end of input. */
  lemma TrailingNewlineLogged(p: Provider, history: seq<Call>)
    ensures Run(p, history, [NEWLINE])
            == Trace([], [], [], [Entry(Error, InvalidLengthSkipped)], EndOfInput, [])
  {
    TrailingNewline();
    assert Receive([NEWLINE]) == Skipped(InvalidLengthSkipped, []);
  }

  /** A payload with fewer than two colons writes nothing, calls nothing and
      logs one error carrying the payload; reading resumes right after it. */
  lemma TooShortResumes(p: Provider, history: seq<Call>, input: Bytes, payload: Bytes, rest: Bytes)
    requires ReadFrame(input) == Frame(payload, rest)
    requires multiset(payload)[COLON] < 2
    ensures var t := Run(p, history, input);
            var u := Run(p, history, rest);
            && t.(log := u.log) == u
            && t.log == [Entry(Error, TooShortSkipped(payload))] + u.log
  {
    assert Receive(input) == Skipped(TooShortSkipped(payload), rest);
    RunSkippedStep(p, history, input);
  }

  /** A request a well-behaved peer frames is received whole, and the loop
      goes on right after its frame. */
  lemma ReceiveFrame(req: Request, more: Bytes)
    requires ColonFree(Fields(req))
    requires |Format(req)| < 0x1_0000
    requires |Format(req)| / 256 != NEWLINE
    requires forall i :: 0 <= i < |Format(req)| - 1 ==> Format(req)[i] != NEWLINE
    ensures Receive(EncodeFrame(Format(req)) + more) == Got(req, more)
  {
    var payload := Format(req);
    assert Fields(req)[1..][1..][0] == req.server;
    assert payload == req.command + [COLON] + Join(Fields(req)[1..]);
    FrameRoundTrip(payload, more);
    ParseFormat(req);
  }

  /** The requests parsed from a well-framed request and what follows it. */
  lemma RequestsOfFrame(req: Request, more: Bytes)
    requires ColonFree(Fields(req))
    requires |Format(req)| < 0x1_0000
    requires |Format(req)| / 256 != NEWLINE
    requires forall i :: 0 <= i < |Format(req)| - 1 ==> Format(req)[i] != NEWLINE
    ensures Requests(EncodeFrame(Format(req)) + more) == [req] + Requests(more)
  {
    ReceiveFrame(req, more);
  }

  /** What one run of the constructor leaves behind: the bytes written to
      standard output, the provider calls made and the lines written to the
      log. */
  datatype Effects = Effects(output: Bytes, calls: seq<Call>, lines: seq<Entry<Event>>)

  /** The event the `catch` of the constructor logs for how the loop ended. */
  function Caught(exit: Exit): Event
  {
    match exit
    case EndOfInput => PipeBrokenCaught
    case ProviderFault(f) => ProviderFaultCaught(f.message)
  }

  /** The `log` calls of one run of the constructor, in order. */
  function SessionLog(t: Trace): seq<Entry<Event>>
  {
    [Entry(Info, Starting), Entry(Info, EnteringLoop)] + t.log + [Entry(Error, Caught(t.exit)), Entry(Info, Exiting)]
  }

  /** When the log is open and takes info and error lines, the start, the
      loop entry, the exception that ended the loop and the exit are always
      written, around what the loop's own calls write; with no log open,
      nothing is. */
  lemma SessionLines(cfg: LogConfig, t: Trace)
    ensures Enabled(cfg, Info) && Enabled(cfg, Error) ==>
              Written(cfg, SessionLog(t))
              == [Entry(Info, Starting), Entry(Info, EnteringLoop)] + Written(cfg, t.log)
                 + [Entry(Error, Caught(t.exit)), Entry(Info, Exiting)]
    ensures !cfg.open ==> Written(cfg, SessionLog(t)) == []
  {
    var start, entering := Entry(Info, Starting), Entry(Info, EnteringLoop);
    var caught, exiting := Entry(Error, Caught(t.exit)), Entry(Info, Exiting);
    assert SessionLog(t) == [start] + ([entering] + (t.log + ([caught] + [exiting])));
    WrittenCons(cfg, start, [entering] + (t.log + ([caught] + [exiting])));
    WrittenCons(cfg, entering, t.log + ([caught] + [exiting]));
    WrittenAppend(cfg, t.log, [caught] + [exiting]);
    WrittenCons(cfg, caught, [exiting]);
    WrittenCons(cfg, exiting, []);
    assert [exiting] + [] == [exiting];
  }

  /** The constructor on a fresh process: log the start, run the loop,
      log the exception that ended it, log the exit. The output is whole
      response frames that read back as the loop's statuses; the log gets
      no line when none is open, and only lines of the severities in
      `$logLevel`, so never a debug line unless `$logLevel` was changed to
      include it. */
  function Construct(p: Provider, cfg: LogConfig, input: Bytes): (e: Effects)
    ensures |e.output| == 4 * |Run(p, [], input).statuses|
    ensures Response.DecodeAll(e.output) == Some(Run(p, [], input).statuses)
    ensures !cfg.open ==> e.lines == []
    ensures forall i :: 0 <= i < |e.lines| ==> e.lines[i].severity in cfg.levels
    ensures Debug !in cfg.levels ==> forall i :: 0 <= i < |e.lines| ==> e.lines[i].severity != Debug
  {
    var t := Run(p, [], input);
    OutputFrames(p, [], input);
    Effects(t.output, t.calls, Written(cfg, SessionLog(t)))
  }

  /** With the log open and taking info and error lines, the log of a run
      of the constructor opens with the start and closes with the exit,
      with the exception that ended the loop just before it, however the
      loop ended. */
  lemma ConstructLog(p: Provider, cfg: LogConfig, input: Bytes)
    requires Enabled(cfg, Info) && Enabled(cfg, Error)
    ensures var lines := Construct(p, cfg, input).lines;
            && 4 <= |lines|
            && lines[0] == Entry(Info, Starting)
            && lines[|lines| - 2] == Entry(Error, Caught(Run(p, [], input).exit))
            && lines[|lines| - 1] == Entry(Info, Exiting)
  {
    SessionLines(cfg, Run(p, [], input));
  }
}
