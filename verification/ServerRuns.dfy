/**
  What the web server makes of a whole run: which events, messages and operations come out of the callbacks and
  calls that went in. Nothing is lost, added, altered or reordered.
 */
module ServerRuns {
  import opened Sequences
  import opened ServerProtocol

  // ---- Events

  /** The payloads of the events of these kinds about `id`, in order. */
  ghost function Payloads(es: seq<Event>, kinds: set<EventType>, id: Id): (r: seq<string>) {
    if es == [] then []
    else
      var e := es[|es| - 1];
      Payloads(es[..|es| - 1], kinds, id) + if e.kind in kinds && e.id == id then [e.payload] else []
  }

  ghost function If(condition: bool, payload: string): (r: seq<string>) {
    if condition then [payload] else []
  }

  /** What a callback or call has to report in events of these kinds about `id`. */
  ghost function Told(s: State, a: Action, kinds: set<EventType>, id: Id): (r: seq<string>) {
    match a
    case StartListening(port, success) => If(success && LISTEN in kinds && id == "SERVER", port)
    case StopListening(_, _, reason) =>
      If(s.listening && CLOSE in kinds && id in s.library.open, reason)
      + If(s.listening && SHUTDOWN in kinds && id == "SERVER", "Going Away")
    case SocketOpen(client) => If(OPEN in kinds && client == id, "")
    case SocketMessage(client, text) => If(MESSAGE in kinds && client == id, text)
    case SocketClose(client, text) => If(CLOSE in kinds && client == id, text)
    case Request(request, _) => If(HTTP_START in kinds && request == id, "")
    case Chunk(request, data, isLast) => If((if isLast then HTTP_END else HTTP_DATA) in kinds && request == id, data)
    case Writable(request) => If(HTTP_WRITABLE in kinds && request == id, "")
    case Aborted(request) => If(HTTP_ABORT in kinds && request == id, "")
    case _ => []
  }

  lemma {:induction false} PayloadsSnoc(es: seq<Event>, e: Event, kinds: set<EventType>, id: Id)
    ensures Payloads(es + [e], kinds, id) == Payloads(es, kinds, id) + If(e.kind in kinds && e.id == id, e.payload)
  {
    assert (es + [e])[..|es|] == es;
  }

  /** Clients that are closed together are reported once each. */
  lemma {:induction false} PayloadsOfClosing(es: seq<Event>, ids: seq<Id>, reason: string,
                                             kinds: set<EventType>, id: Id)
    requires Distinct(ids)
    ensures Payloads(es + CloseEvents(ids, reason), kinds, id)
         == Payloads(es, kinds, id) + If(CLOSE in kinds && id in ids, reason)
    decreases |ids|
  {
    hide Payloads, CloseEvents;
    if ids == [] {
      NoCloseEvents(reason);
      assert es + [] == es && Payloads(es, kinds, id) + [] == Payloads(es, kinds, id);
    } else {
      var init, last := ids[..|ids| - 1], ids[|ids| - 1];
      assert ids == init + [last] && last !in init;
      PayloadsOfClosing(es, init, reason, kinds, id);
      CloseEventsSnoc(init, last, reason, es);
      PayloadsSnoc(es + CloseEvents(init, reason), Event(CLOSE, last, reason), kinds, id);
    }
  }

  lemma {:induction false} ShutdownIsTold(s: State, sockets: seq<Id>, pending: seq<Id>, reason: string,
                                          kinds: set<EventType>, id: Id)
    requires Inv(s) && s.listening && Legal(s, StopListening(sockets, pending, reason))
    ensures Payloads(EventsOf(Next(s, StopListening(sockets, pending, reason)).log), kinds, id)
         == Payloads(EventsOf(s.log), kinds, id) + Told(s, StopListening(sockets, pending, reason), kinds, id)
  {
    hide EventsOf, Payloads, Next, CloseEvents, LiveIn;
    var before, live := EventsOf(s.log), LiveIn(s, sockets);
    ShutdownEffect(s, sockets, pending, reason);
    LiveInExactly(s, sockets);
    LiveIsOpenExactly(s, id);
    PayloadsOfClosing(before, live, reason, kinds, id);
    PayloadsSnoc(before + CloseEvents(live, reason), Event(SHUTDOWN, "SERVER", "Going Away"), kinds, id);
    assert id in live <==> id in s.library.open;
    Assoc(Payloads(before, kinds, id), If(CLOSE in kinds && id in s.library.open, reason),
          If(SHUTDOWN in kinds && id == "SERVER", "Going Away"));
  }

  /** The registry has an entry that is not null exactly for every open socket. */
  lemma {:induction false} LiveIsOpenExactly(s: State, id: Id)
    requires Inv(s)
    ensures IsLive(s, id) <==> id in s.library.open
  {
    hide SafeLog, Summary, EventsOf;
  }

  /** The one event that most actions put into the queue, if any. */
  ghost function EventOf(a: Action): (r: seq<Event>) {
    match a
    case StartListening(port, success) => if success then [Event(LISTEN, "SERVER", port)] else []
    case SocketOpen(id) => [Event(OPEN, id, "")]
    case SocketMessage(id, text) => [Event(MESSAGE, id, text)]
    case SocketClose(id, text) => [Event(CLOSE, id, text)]
    case Request(id, _) => [Event(HTTP_START, id, "")]
    case Chunk(id, data, isLast) => [Event(if isLast then HTTP_END else HTTP_DATA, id, data)]
    case Writable(id) => [Event(HTTP_WRITABLE, id, "")]
    case Aborted(id) => [Event(HTTP_ABORT, id, "")]
    case _ => []
  }

  /** What follows the event in the log, if anything: the echo of a message, the handlers of a request. */
  ghost function Aftermath(s: State, a: Action): (r: seq<Observation>) {
    match a
    case SocketMessage(id, text) => if s.echo then [Sent(id, text)] else []
    case Request(id, _) => [Registered(id)]
    case _ => []
  }

  lemma {:induction false} LogOfReport(s: State, a: Action)
    requires EventOf(a) != []
    ensures Next(s, a).log == s.log + [Emitted(EventOf(a)[0])] + Aftermath(s, a)
  {
    assert s.log + [Emitted(EventOf(a)[0])] + [] == s.log + [Emitted(EventOf(a)[0])];
  }

  lemma {:induction false} EventsOfReport(s: State, a: Action)
    requires EventOf(a) != []
    ensures EventsOf(Next(s, a).log) == EventsOf(s.log) + EventOf(a)
  {
    hide EventsOf, Next;
    var e, more := EventOf(a)[0], Aftermath(s, a);
    LogOfReport(s, a);
    Snoc(s.log, Emitted(e));
    if more == [] {
      assert s.log + [Emitted(e)] + [] == s.log + [Emitted(e)];
    } else {
      Snoc(s.log + [Emitted(e)], more[0]);
      assert more == [more[0]] && EventsOf(s.log) + [e] + [] == EventsOf(s.log) + [e];
    }
    assert EventOf(a) == [e];
  }

  lemma {:induction false} SilentAction(s: State, a: Action)
    requires !a.StopListening? && EventOf(a) == []
    ensures EventsOf(Next(s, a).log) == EventsOf(s.log)
  {
    hide EventsOf, RespondTo, SendTo, SendToAll, DropFaded, Shutdown;
    match a
    case Respond(id, op) => RespondEffect(s, id, op);
    case Send(id, message) => SendIsSilent(s, id, message);
    case Broadcast(sockets, message) => BroadcastIsSilent(s, sockets, message);
    case Purge(sockets) => DropFadedEffect(s, sockets);
    case _ =>
  }

  lemma {:induction false} SendIsSilent(s: State, id: Id, message: string)
    ensures EventsOf(SendTo(s, id, message).log) == EventsOf(s.log)
  {
    Snoc(s.log, Sent(id, message));
  }

  lemma {:induction false} BroadcastIsSilent(s: State, order: seq<Id>, message: string)
    ensures EventsOf(SendToAll(s, order, message).log) == EventsOf(s.log)
    decreases |order|
  {
    hide EventsOf;
    if order != [] {
      var r := SendToAll(s, order[..|order| - 1], message);
      BroadcastIsSilent(s, order[..|order| - 1], message);
      Snoc(r.log, Sent(order[|order| - 1], message));
    }
  }

  lemma {:induction false} ActionIsTold(s: State, a: Action, kinds: set<EventType>, id: Id)
    requires Inv(s) && Legal(s, a)
    ensures Payloads(EventsOf(Next(s, a).log), kinds, id)
         == Payloads(EventsOf(s.log), kinds, id) + Told(s, a, kinds, id)
  {
    hide EventsOf, Payloads, Next, Inv, Legal;
    if a.StopListening? {
      if s.listening {
        ShutdownIsTold(s, a.sockets, a.pending, a.reason, kinds, id);
      } else {
        NotListening(s, a);
        assert Payloads(EventsOf(s.log), kinds, id) + [] == Payloads(EventsOf(s.log), kinds, id);
      }
    } else {
      if EventOf(a) == [] {
        SilentAction(s, a);
        assert Payloads(EventsOf(s.log), kinds, id) + [] == Payloads(EventsOf(s.log), kinds, id);
      } else {
        EventsOfReport(s, a);
        PayloadsSnoc(EventsOf(s.log), EventOf(a)[0], kinds, id);
      }
    }
  }

  lemma {:induction false} NotListening(s: State, a: Action)
    requires a.StopListening? && !s.listening
    ensures Next(s, a) == s
  {
  }

  /** What a run has to report, action by action. */
  ghost function Heard(actions: seq<Action>, kinds: set<EventType>, id: Id): (r: seq<string>) {
    if actions == [] then []
    else
      var init, last := actions[..|actions| - 1], actions[|actions| - 1];
      Heard(init, kinds, id) + Told(Run(init), last, kinds, id)
  }

  /** In every run, for every choice of kinds and every id: the events delivered and queued are those that the
      callbacks and calls have to report, in order, with their payloads. */
  lemma {:induction false} RunIsReported(actions: seq<Action>, kinds: set<EventType>, id: Id)
    requires LegalRun(actions)
    ensures var s := Run(actions); Payloads(s.delivered + s.queue, kinds, id) == Heard(actions, kinds, id)
  {
    EventsAreReported(actions, kinds, id);
    EveryRunIsSafe(actions);
  }

  lemma {:induction false} EventsAreReported(actions: seq<Action>, kinds: set<EventType>, id: Id)
    requires LegalRun(actions)
    ensures Payloads(EventsOf(Run(actions).log), kinds, id) == Heard(actions, kinds, id)
  {
    hide Told, Next, Legal, Inv;
    if actions != [] {
      var init := actions[..|actions| - 1];
      EventsAreReported(init, kinds, id);
      EveryRunIsSafe(init);
      ActionIsTold(Run(init), actions[|actions| - 1], kinds, id);
    }
  }

  /** The chunks of a request's body, in the order in which they came in. */
  ghost function Chunks(actions: seq<Action>, id: Id): (r: seq<string>) {
    if actions == [] then []
    else
      var last := actions[|actions| - 1];
      Chunks(actions[..|actions| - 1], id) + if last.Chunk? && last.id == id then [last.data] else []
  }

  lemma {:induction false} ToldChunk(s: State, a: Action, id: Id)
    ensures Told(s, a, {HTTP_DATA, HTTP_END}, id) == if a.Chunk? && a.id == id then [a.data] else []
  {
  }

  lemma {:induction false} HeardChunks(actions: seq<Action>, id: Id)
    ensures Heard(actions, {HTTP_DATA, HTTP_END}, id) == Chunks(actions, id)
  {
    hide Told, Run;
    if actions != [] {
      HeardChunks(actions[..|actions| - 1], id);
      ToldChunk(Run(actions[..|actions| - 1]), actions[|actions| - 1], id);
    }
  }

  /** A request's body arrives as it came in: its HTTP_DATA and HTTP_END events carry its chunks, in order. */
  lemma {:induction false} BodyArrives(actions: seq<Action>, id: Id)
    requires LegalRun(actions)
    ensures var s := Run(actions); Payloads(s.delivered + s.queue, {HTTP_DATA, HTTP_END}, id) == Chunks(actions, id)
  {
    RunIsReported(actions, {HTTP_DATA, HTTP_END}, id);
    HeardChunks(actions, id);
  }

  // ---- Polling

  /** Polling as often as there are events in the queue delivers all of them, in order. */
  lemma {:induction false} PollingDelivers(s: State, n: nat)
    requires n <= |s.queue|
    ensures Polled(s, n) == s.(queue := s.queue[n..], delivered := s.delivered + s.queue[..n])
  {
    if n == 0 {
      assert s.queue[0..] == s.queue && s.delivered + s.queue[..0] == s.delivered;
    } else {
      PollingDelivers(s, n - 1);
      assert s.delivered + s.queue[..n - 1] + [s.queue[n - 1]] == s.delivered + s.queue[..n];
    }
  }

  ghost function Polled(s: State, n: nat): (r: State) {
    if n == 0 then s else Next(Polled(s, n - 1), Poll)
  }

  // ---- Messages and operations

  /** What a function of single observations collects over a log. */
  ghost function Collect<X>(log: seq<Observation>, f: Observation -> seq<X>): (r: seq<X>) {
    if log == [] then [] else Collect(log[..|log| - 1], f) + f(log[|log| - 1])
  }

  lemma {:induction false} CollectSnoc<X>(log: seq<Observation>, o: Observation, f: Observation -> seq<X>)
    ensures Collect(log + [o], f) == Collect(log, f) + f(o)
  {
    assert (log + [o])[..|log|] == log;
  }

  ghost function MessageTo(id: Id): (f: Observation -> seq<string>) {
    (o: Observation) => if o.Sent? && o.id == id then [o.message] else []
  }

  ghost function OperationOn(id: Id): (f: Observation -> seq<ResponseOp>) {
    (o: Observation) => if o.Responded? && o.id == id then [o.op] else []
  }

  /** Nothing is collected from what is not a message or an operation. */
  ghost predicate Quiet<X>(f: Observation -> seq<X>) {
    forall o: Observation :: o.Emitted? || o.Registered? || o.Closing? || o.Purged? ==> f(o) == []
  }

  lemma {:induction false} QuietSnoc<X>(log: seq<Observation>, o: Observation, f: Observation -> seq<X>)
    requires f(o) == []
    ensures Collect(log + [o], f) == Collect(log, f)
  {
    CollectSnoc(log, o, f);
    assert Collect(log, f) + [] == Collect(log, f);
  }

  lemma {:induction false} ClosingIsQuiet<X>(s: State, order: seq<Id>, reason: string, f: Observation -> seq<X>)
    requires Quiet(f)
    ensures Collect(CloseLive(s, order, reason).log, f) == Collect(s.log, f)
    decreases |order|
  {
    hide Collect;
    if order != [] {
      var r, id := CloseLive(s, order[..|order| - 1], reason), order[|order| - 1];
      ClosingIsQuiet(s, order[..|order| - 1], reason, f);
      QuietSnoc(r.log, Closing(id), f);
      QuietSnoc(r.log + [Closing(id)], Emitted(Event(CLOSE, id, reason)), f);
    }
  }

  lemma {:induction false} DroppingIsQuiet<X>(s: State, order: seq<Id>, f: Observation -> seq<X>)
    requires Quiet(f)
    ensures Collect(DropFaded(s, order).log, f) == Collect(s.log, f)
    decreases |order|
  {
    hide Collect;
    if order != [] {
      DroppingIsQuiet(s, order[..|order| - 1], f);
      QuietSnoc(DropFaded(s, order[..|order| - 1]).log, Purged(order[|order| - 1]), f);
    }
  }

  /** The three operations that end a pending response at shutdown. */
  const FAREWELL := [UNAVAILABLE, PLAIN_TEXT, SHUTTING_DOWN]

  lemma {:induction false} AbortOneCollects(s: State, pending: Id, id: Id)
    ensures Collect(AbortOne(s, pending).log, MessageTo(id)) == Collect(s.log, MessageTo(id))
    ensures Collect(AbortOne(s, pending).log, OperationOn(id))
         == Collect(s.log, OperationOn(id)) + if pending == id && id in s.requests then FAREWELL else []
  {
    hide Collect;
    var ops := Collect(s.log, OperationOn(id));
    if pending in s.requests {
      var one := s.log + [Responded(pending, UNAVAILABLE)];
      var two := one + [Responded(pending, PLAIN_TEXT)];
      QuietSnoc(s.log, Responded(pending, UNAVAILABLE), MessageTo(id));
      QuietSnoc(one, Responded(pending, PLAIN_TEXT), MessageTo(id));
      QuietSnoc(two, Responded(pending, SHUTTING_DOWN), MessageTo(id));
      CollectSnoc(s.log, Responded(pending, UNAVAILABLE), OperationOn(id));
      CollectSnoc(one, Responded(pending, PLAIN_TEXT), OperationOn(id));
      CollectSnoc(two, Responded(pending, SHUTTING_DOWN), OperationOn(id));
      assert ops + [UNAVAILABLE] + [PLAIN_TEXT] + [SHUTTING_DOWN] == ops + FAREWELL;
      assert ops + [] + [] + [] == ops;
    }
    assert ops + [] == ops;
  }

  lemma {:induction false} AbortingCollects(s: State, order: seq<Id>, id: Id)
    requires Distinct(order)
    ensures Collect(AbortAll(s, order).log, MessageTo(id)) == Collect(s.log, MessageTo(id))
    ensures Collect(AbortAll(s, order).log, OperationOn(id))
         == Collect(s.log, OperationOn(id)) + if id in order && id in s.requests then FAREWELL else []
    decreases |order|
  {
    hide Collect, AbortOne;
    var ops := Collect(s.log, OperationOn(id));
    if order == [] {
      assert ops + [] == ops;
    } else {
      var init, last := order[..|order| - 1], order[|order| - 1];
      assert order == init + [last] && last !in init;
      AbortingCollects(s, init, id);
      AbortAllEffect(s, init);
      AbortOneCollects(AbortAll(s, init), last, id);
      assert ops + FAREWELL + [] == ops + FAREWELL && ops + [] + FAREWELL == ops + FAREWELL;
      assert ops + [] + [] == ops + [];
    }
  }

  /** The messages that an action sends to a client, on its open socket. */
  ghost function SentBy(s: State, a: Action, id: Id): (r: seq<string>) {
    match a
    case SocketMessage(client, text) => If(s.echo && client == id, text)
    case Send(client, message) => If(client == id && id in s.library.open, message)
    case Broadcast(_, message) => If(id in s.library.open, message)
    case _ => []
  }

  /** The operations that an action performs on a response that is pending. */
  ghost function DoneBy(s: State, a: Action, id: Id): (r: seq<ResponseOp>) {
    match a
    case Respond(request, op) => if request == id && id in s.requests then [op] else []
    case StopListening(_, _, _) => if s.listening && id in s.requests then FAREWELL else []
    case _ => []
  }

  lemma {:induction false} QuietFunctions(id: Id)
    ensures Quiet(MessageTo(id)) && Quiet(OperationOn(id))
  {
  }

  lemma {:induction false} ShutdownCollects(s: State, sockets: seq<Id>, pending: seq<Id>, reason: string, id: Id)
    requires s.listening && Legal(s, StopListening(sockets, pending, reason))
    ensures var r := Shutdown(s, sockets, pending, reason);
            && Collect(r.log, MessageTo(id)) == Collect(s.log, MessageTo(id))
            && Collect(r.log, OperationOn(id))
               == Collect(s.log, OperationOn(id)) + if id in s.requests then FAREWELL else []
  {
    hide Collect, MessageTo, OperationOn, Quiet, CloseLive, DropFaded, AbortAll, EventsOf;
    QuietFunctions(id);
    var closed := CloseLive(s, sockets, reason);
    var dropped := DropFaded(closed, sockets);
    var aborted := AbortAll(dropped, pending);
    ClosingIsQuiet(s, sockets, reason, MessageTo(id));
    ClosingIsQuiet(s, sockets, reason, OperationOn(id));
    DroppingIsQuiet(closed, sockets, MessageTo(id));
    DroppingIsQuiet(closed, sockets, OperationOn(id));
    AbortingCollects(dropped, pending, id);
    CloseLiveSockets(s, sockets, reason);
    DropFadedEffect(closed, sockets);
    EventIsQuiet(aborted.log, Event(SHUTDOWN, "SERVER", "Going Away"), id);
  }

  lemma {:induction false} EventIsQuiet(log: seq<Observation>, e: Event, id: Id)
    ensures Collect(log + [Emitted(e)], MessageTo(id)) == Collect(log, MessageTo(id))
    ensures Collect(log + [Emitted(e)], OperationOn(id)) == Collect(log, OperationOn(id))
  {
    QuietSnoc(log, Emitted(e), MessageTo(id));
    QuietSnoc(log, Emitted(e), OperationOn(id));
  }

  lemma {:induction false} SendCollects(s: State, client: Id, message: string, id: Id)
    ensures Collect(SendTo(s, client, message).log, MessageTo(id))
         == Collect(s.log, MessageTo(id)) + If(client == id && IsLive(s, id), message)
    ensures Collect(SendTo(s, client, message).log, OperationOn(id)) == Collect(s.log, OperationOn(id))
  {
    hide Collect;
    CollectMessage(s.log, client, message, id);
    assert Collect(s.log, MessageTo(id)) + [] == Collect(s.log, MessageTo(id));
  }

  lemma {:induction false} SentLogSnoc(log: seq<Observation>, ids: seq<Id>, id: Id, message: string)
    ensures log + SentLog(ids + [id], message) == log + SentLog(ids, message) + [Sent(id, message)]
  {
    assert (ids + [id])[..|ids|] == ids;
  }

  lemma {:induction false} CollectMessage(log: seq<Observation>, client: Id, message: string, id: Id)
    ensures Collect(log + [Sent(client, message)], MessageTo(id))
         == Collect(log, MessageTo(id)) + If(client == id, message)
    ensures Collect(log + [Sent(client, message)], OperationOn(id)) == Collect(log, OperationOn(id))
  {
    hide Collect;
    CollectSnoc(log, Sent(client, message), MessageTo(id));
    QuietSnoc(log, Sent(client, message), OperationOn(id));
  }

  lemma {:induction false} EitherWay(sent: seq<string>, a: bool, b: bool, message: string)
    requires !(a && b)
    ensures sent + If(a, message) + If(b, message) == sent + If(a || b, message)
  {
  }

  lemma {:induction false} SentLogCollects(log: seq<Observation>, ids: seq<Id>, message: string, id: Id)
    requires Distinct(ids)
    ensures Collect(log + SentLog(ids, message), MessageTo(id)) == Collect(log, MessageTo(id)) + If(id in ids, message)
    ensures Collect(log + SentLog(ids, message), OperationOn(id)) == Collect(log, OperationOn(id))
    decreases |ids|
  {
    var sent := Collect(log, MessageTo(id));
    if ids == [] {
      assert log + SentLog([], message) == log && sent + [] == sent;
    } else {
      hide Collect, SentLog, If;
      var init, last := ids[..|ids| - 1], ids[|ids| - 1];
      assert ids == init + [last] && last !in init;
      SentLogCollects(log, init, message, id);
      SentLogSnoc(log, init, last, message);
      CollectMessage(log + SentLog(init, message), last, message, id);
      EitherWay(sent, id in init, last == id, message);
    }
  }

  lemma {:induction false} BroadcastCollects(s: State, order: seq<Id>, message: string, id: Id)
    requires Distinct(order)
    ensures Collect(SendToAll(s, order, message).log, MessageTo(id))
         == Collect(s.log, MessageTo(id)) + If(id in order && IsLive(s, id), message)
    ensures Collect(SendToAll(s, order, message).log, OperationOn(id)) == Collect(s.log, OperationOn(id))
  {
    hide Collect, EventsOf, SendToAll, MessageTo, OperationOn, LiveIn, SentLog;
    BroadcastEffect(s, order, message);
    LiveInExactly(s, order);
    SentLogCollects(s.log, LiveIn(s, order), message, id);
  }

  /** Reports are neither messages nor operations, apart from the echo. */
  lemma {:induction false} ReportCollects(s: State, a: Action, id: Id)
    requires EventOf(a) != []
    ensures Collect(Next(s, a).log, MessageTo(id)) == Collect(s.log, MessageTo(id)) + SentBy(s, a, id)
    ensures Collect(Next(s, a).log, OperationOn(id)) == Collect(s.log, OperationOn(id))
  {
    hide Collect, Next;
    var e, more := Emitted(EventOf(a)[0]), Aftermath(s, a);
    var sent := Collect(s.log, MessageTo(id));
    LogOfReport(s, a);
    EventIsQuiet(s.log, EventOf(a)[0], id);
    if more == [] {
      assert s.log + [e] + [] == s.log + [e] && sent + [] == sent;
    } else {
      assert more == [more[0]];
      CollectSnoc(s.log + [e], more[0], MessageTo(id));
      QuietSnoc(s.log + [e], more[0], OperationOn(id));
    }
  }

  lemma {:induction false} RespondCollects(s: State, request: Id, op: ResponseOp, id: Id)
    ensures Collect(RespondTo(s, request, op).log, MessageTo(id)) == Collect(s.log, MessageTo(id))
    ensures Collect(RespondTo(s, request, op).log, OperationOn(id))
         == Collect(s.log, OperationOn(id)) + if request == id && id in s.requests then [op] else []
  {
    hide Collect;
    QuietSnoc(s.log, Responded(request, op), MessageTo(id));
    CollectSnoc(s.log, Responded(request, op), OperationOn(id));
    assert Collect(s.log, OperationOn(id)) + [] == Collect(s.log, OperationOn(id));
  }

  lemma {:induction false} ActionCollects(s: State, a: Action, id: Id)
    requires Inv(s) && Legal(s, a)
    ensures Collect(Next(s, a).log, MessageTo(id)) == Collect(s.log, MessageTo(id)) + SentBy(s, a, id)
    ensures Collect(Next(s, a).log, OperationOn(id)) == Collect(s.log, OperationOn(id)) + DoneBy(s, a, id)
  {
    hide Collect, Inv, MessageTo, OperationOn, Quiet, Shutdown, SendToAll, DropFaded, RespondTo, SendTo;
    assert Collect(s.log, MessageTo(id)) + [] == Collect(s.log, MessageTo(id));
    assert Collect(s.log, OperationOn(id)) + [] == Collect(s.log, OperationOn(id));
    if EventOf(a) != [] {
      ReportCollects(s, a, id);
    } else {
      LiveIsOpenExactly(s, id);
      match a
      case StopListening(sockets, pending, reason) =>
        if s.listening { ShutdownCollects(s, sockets, pending, reason, id); }
      case Respond(request, op) => RespondCollects(s, request, op, id);
      case Send(client, message) => SendCollects(s, client, message, id);
      case Broadcast(sockets, message) => BroadcastCollects(s, sockets, message, id);
      case Purge(sockets) =>
        QuietFunctions(id);
        DroppingIsQuiet(s, sockets, MessageTo(id));
        DroppingIsQuiet(s, sockets, OperationOn(id));
      case _ =>
    }
  }

  ghost function AllSent(actions: seq<Action>, id: Id): (r: seq<string>) {
    if actions == [] then []
    else
      var init, last := actions[..|actions| - 1], actions[|actions| - 1];
      AllSent(init, id) + SentBy(Run(init), last, id)
  }

  ghost function AllDone(actions: seq<Action>, id: Id): (r: seq<ResponseOp>) {
    if actions == [] then []
    else
      var init, last := actions[..|actions| - 1], actions[|actions| - 1];
      AllDone(init, id) + DoneBy(Run(init), last, id)
  }

  /** In every run, the messages sent to a client are those addressed to it while its socket is open, and its own
      in echo mode; the operations on a response are those asked for while it is pending, and the farewell of the
      shutdown. */
  lemma {:induction false} RunIsCarriedOut(actions: seq<Action>, id: Id)
    requires LegalRun(actions)
    ensures Collect(Run(actions).log, MessageTo(id)) == AllSent(actions, id)
    ensures Collect(Run(actions).log, OperationOn(id)) == AllDone(actions, id)
  {
    hide SentBy, DoneBy, Next, Legal, Inv, MessageTo, OperationOn;
    if actions != [] {
      var init := actions[..|actions| - 1];
      RunIsCarriedOut(init, id);
      EveryRunIsSafe(init);
      ActionCollects(Run(init), actions[|actions| - 1], id);
    }
  }

  // ---- Modes and request details

  /** Whether the server listens after these actions: since the last successful start there was no stop. */
  ghost predicate Listens(actions: seq<Action>) {
    actions != [] &&
    var last := actions[|actions| - 1];
    (last.StartListening? && last.success) || (!last.StopListening? && Listens(actions[..|actions| - 1]))
  }

  /** Whether echo mode was last switched on. */
  ghost predicate Echoes(actions: seq<Action>) {
    actions != [] &&
    var last := actions[|actions| - 1];
    if last.SetEcho? then last.enabled else Echoes(actions[..|actions| - 1])
  }

  lemma {:induction false} ModesOfAction(s: State, a: Action)
    ensures Next(s, a).listening == ((a.StartListening? && a.success) || (!a.StopListening? && s.listening))
    ensures Next(s, a).echo == if a.SetEcho? then a.enabled else s.echo
  {
    hide EventsOf, SafeLog, Summary;
    match a
    case StopListening(sockets, pending, reason) => ShutdownModes(s, sockets, pending, reason);
    case Broadcast(sockets, message) => BroadcastEffect(s, sockets, message);
    case Purge(sockets) => DropFadedModes(s, sockets);
    case _ =>
  }

  lemma {:induction false} DropFadedModes(s: State, order: seq<Id>)
    ensures DropFaded(s, order).listening == s.listening && DropFaded(s, order).echo == s.echo
    decreases |order|
  {
    if order != [] { DropFadedModes(s, order[..|order| - 1]); }
  }

  lemma {:induction false} CloseLiveModes(s: State, order: seq<Id>, reason: string)
    ensures CloseLive(s, order, reason).listening == s.listening && CloseLive(s, order, reason).echo == s.echo
    decreases |order|
  {
    if order != [] { CloseLiveModes(s, order[..|order| - 1], reason); }
  }

  lemma {:induction false} AbortAllModes(s: State, order: seq<Id>)
    ensures AbortAll(s, order).echo == s.echo
    decreases |order|
  {
    if order != [] { AbortAllModes(s, order[..|order| - 1]); }
  }

  lemma {:induction false} ShutdownModes(s: State, sockets: seq<Id>, pending: seq<Id>, reason: string)
    ensures var r := Shutdown(s, sockets, pending, reason); !r.listening && r.echo == s.echo
  {
    hide CloseLive, DropFaded, AbortAll;
    CloseLiveModes(s, sockets, reason);
    DropFadedModes(CloseLive(s, sockets, reason), sockets);
    AbortAllModes(DropFaded(CloseLive(s, sockets, reason), sockets), pending);
  }

  /** In every run, the server listens and echoes as it was last told to. */
  lemma {:induction false} ModesFollow(actions: seq<Action>)
    ensures Run(actions).listening == Listens(actions) && Run(actions).echo == Echoes(actions)
  {
    hide Next;
    if actions != [] {
      ModesFollow(actions[..|actions| - 1]);
      ModesOfAction(Run(actions[..|actions| - 1]), actions[|actions| - 1]);
    }
  }

  /** The details that came with a request. */
  ghost function DetailsOf(actions: seq<Action>, id: Id): (r: string) {
    if actions == [] then ""
    else
      var last := actions[|actions| - 1];
      if last.Request? && last.id == id then last.details else DetailsOf(actions[..|actions| - 1], id)
  }

  lemma {:induction false} AbortAllDetails(s: State, order: seq<Id>, id: Id)
    requires id in AbortAll(s, order).requests
    ensures id in s.requests && AbortAll(s, order).requests[id] == s.requests[id]
  {
    AbortAllEffect(s, order);
  }

  /** Requests that stay registered keep their details; new ones have what they came with. */
  lemma {:induction false} DetailsOfAction(s: State, a: Action, id: Id)
    requires Inv(s) && Legal(s, a) && id in Next(s, a).requests
    ensures if a.Request? && a.id == id then Next(s, a).requests[id] == a.details
            else id in s.requests && Next(s, a).requests[id] == s.requests[id]
  {
    hide EventsOf, SafeLog, CloseLive, DropFaded, AbortAll, SendToAll, Summary;
    match a
    case StopListening(sockets, pending, reason) =>
      if s.listening {
        var closed := CloseLive(s, sockets, reason);
        CloseLiveSockets(s, sockets, reason);
        DropFadedEffect(closed, sockets);
        AbortAllDetails(DropFaded(closed, sockets), pending, id);
      }
    case Broadcast(sockets, message) => BroadcastEffect(s, sockets, message);
    case Purge(sockets) => DropFadedEffect(s, sockets);
    case _ =>
  }

  /** In every run, a request that is still registered is registered with the details it came with. */
  lemma {:induction false} DetailsAreKept(actions: seq<Action>, id: Id)
    requires LegalRun(actions) && id in Run(actions).requests
    ensures Run(actions).requests[id] == DetailsOf(actions, id)
  {
    hide Next, Legal, Inv;
    if actions != [] {
      var init := actions[..|actions| - 1];
      EveryRunIsSafe(init);
      DetailsOfAction(Run(init), actions[|actions| - 1], id);
      if id in Run(init).requests { DetailsAreKept(init, id); }
    }
  }
}
