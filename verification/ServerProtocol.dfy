/**
  The web server's registries and its deferred event queue, as a state machine.

  A step is a callback of the networking library or a call of the API. `log` records, in order,
  everything the outside can see: events put into the queue, operations on responses and sockets,
  callback handlers set, and clients dropped from the registry. What may appear in the log, and when,
  is `Allowed`. What the networking library knows (`Library`) decides which callbacks can come; that
  this agrees with the log is part of what is proved.
 */
module ServerProtocol {
  import opened Sequences

  type Id = string

  datatype EventType =
    | OPEN | MESSAGE | CLOSE | LISTEN | SHUTDOWN
    | HTTP_START | HTTP_DATA | HTTP_END | HTTP_ABORT | HTTP_WRITABLE

  datatype Event = Event(kind: EventType, id: Id, payload: string)

  datatype ResponseOp =
    | Write(data: string)
    | Status(codeAndText: string)
    | Header(key: string, value: string)
    | TryEnd(data: string, done: bool)
    | End(data: string)

  /** The response is complete after this operation. */
  predicate Ends(op: ResponseOp) {
    op.End? || (op.TryEnd? && op.done)
  }

  datatype Observation =
    | Emitted(event: Event)
    | Responded(id: Id, op: ResponseOp)
    | Registered(id: Id)             // callback handlers set for a request
    | Sent(id: Id, message: string)  // a message sent on a socket
    | Closing(id: Id)                // close() called on a socket
    | Purged(id: Id)

  // ---- What may be observed

  datatype History = History(started: set<Id>, complete: set<Id>, finished: set<Id>,
                             connected: set<Id>, closed: set<Id>, purged: set<Id>)

  ghost function Update(h: History, o: Observation): (r: History) {
    match o
    case Emitted(e) =>
      (match e.kind
       case HTTP_START => h.(started := h.started + {e.id})
       case HTTP_END => h.(complete := h.complete + {e.id})
       case HTTP_ABORT => h.(finished := h.finished + {e.id})
       case OPEN => h.(connected := h.connected + {e.id})
       case CLOSE => h.(closed := h.closed + {e.id})
       case _ => h)
    case Responded(id, op) => if Ends(op) then h.(finished := h.finished + {id}) else h
    case Purged(id) => h.(purged := h.purged + {id})
    case _ => h
  }

  ghost function Summary(log: seq<Observation>): (h: History) {
    if log == [] then History({}, {}, {}, {}, {}, {}) else Update(Summary(log[..|log| - 1]), log[|log| - 1])
  }

  /** What may come next: requests start once and before anything else about them; their bodies end once, with
      nothing of them behind that; no operation reaches a response that was ended or aborted; clients open once,
      close once, and neither send nor are sent anything afterwards; only closed clients are purged, once. */
  ghost predicate Allowed(h: History, o: Observation) {
    match o
    case Emitted(e) =>
      (match e.kind
       case HTTP_START => e.id !in h.started
       case HTTP_DATA => e.id in h.started - h.complete
       case HTTP_END => e.id in h.started - h.complete
       case HTTP_WRITABLE => e.id in h.started
       case HTTP_ABORT => e.id in h.started
       case OPEN => e.id !in h.connected
       case MESSAGE => e.id in h.connected - h.closed
       case CLOSE => e.id in h.connected - h.closed
       case LISTEN => true
       case SHUTDOWN => true)
    case Responded(id, _) => id in h.started - h.finished
    case Registered(id) => id in h.started
    case Sent(id, _) => id in h.connected - h.closed
    case Closing(id) => id in h.connected - h.closed
    case Purged(id) => id in h.closed - h.purged
  }

  ghost predicate SafeLog(log: seq<Observation>) {
    log == [] || (SafeLog(log[..|log| - 1]) && Allowed(Summary(log[..|log| - 1]), log[|log| - 1]))
  }

  lemma {:induction false} Snoc(log: seq<Observation>, o: Observation)
    ensures Summary(log + [o]) == Update(Summary(log), o)
    ensures SafeLog(log + [o]) <==> SafeLog(log) && Allowed(Summary(log), o)
    ensures EventsOf(log + [o]) == EventsOf(log) + if o.Emitted? then [o.event] else []
  {
    assert (log + [o])[..|log|] == log;
  }

  ghost function EventsOf(log: seq<Observation>): (r: seq<Event>) {
    if log == [] then []
    else EventsOf(log[..|log| - 1]) + if log[|log| - 1].Emitted? then [log[|log| - 1].event] else []
  }

  // ---- The machine

  /** What the networking library knows: the ids in use so far, the requests it has callback handlers for, those
      of which it has read the whole body, and the sockets that are open. */
  datatype Library = Library(issued: set<Id>, handlers: set<Id>, complete: set<Id>, open: set<Id>)

  datatype State = State(
    listening: bool,
    echo: bool,
    queue: seq<Event>,
    websockets: map<Id, bool>,  // false: the null pointer of a faded client
    requests: map<Id, string>,  // the request details kept for a response that is not finished
    library: Library,
    log: seq<Observation>,
    delivered: seq<Event>)

  ghost const INITIAL := State(false, false, [], map[], map[], Library({}, {}, {}, {}), [], [])

  datatype Action =
    | StartListening(port: string, success: bool)
    | StopListening(sockets: seq<Id>, pending: seq<Id>, reason: string)
    | SocketOpen(id: Id)
    | SocketMessage(id: Id, text: string)
    | SocketClose(id: Id, text: string)
    | Request(id: Id, details: string)
    | Chunk(id: Id, data: string, isLast: bool)
    | Writable(id: Id)
    | Aborted(id: Id)
    | Respond(id: Id, op: ResponseOp)
    | SetEcho(enabled: bool)
    | Send(id: Id, message: string)
    | Broadcast(sockets: seq<Id>, message: string)
    | Purge(sockets: seq<Id>)
    | Poll

  ghost function EmitEvent(s: State, kind: EventType, id: Id, payload: string): (r: State) {
    s.(queue := s.queue + [Event(kind, id, payload)], log := s.log + [Emitted(Event(kind, id, payload))])
  }

  ghost function Note(s: State, o: Observation): (r: State) {
    s.(log := s.log + [o])
  }

  ghost function OnSocketOpen(s: State, id: Id): (r: State) {
    var accepted := s.(library := s.library.(issued := s.library.issued + {id}, open := s.library.open + {id}));
    EmitEvent(accepted, OPEN, id, "").(websockets := s.websockets[id := true])
  }

  ghost function OnSocketMessage(s: State, id: Id, text: string): (r: State) {
    var queued := EmitEvent(s, MESSAGE, id, text);
    if s.echo then Note(queued, Sent(id, text)) else queued
  }

  ghost function OnSocketClose(s: State, id: Id, text: string): (r: State) {
    var gone := s.(library := s.library.(open := s.library.open - {id}));
    EmitEvent(gone, CLOSE, id, text).(websockets := s.websockets[id := false])
  }

  /** HTTP_START first; then the details are stored; then the library gets its callback handlers. */
  ghost function OnRequest(s: State, id: Id, details: string): (r: State) {
    SetHandlers(StartRequest(s, id, details), id)
  }

  ghost function StartRequest(s: State, id: Id, details: string): (r: State) {
    var accepted := s.(library := s.library.(issued := s.library.issued + {id}));
    var queued := EmitEvent(accepted, HTTP_START, id, "");
    if id in s.requests then queued else queued.(requests := s.requests[id := details])
  }

  ghost function OnChunk(s: State, id: Id, data: string, isLast: bool): (r: State) {
    if isLast
    then EmitEvent(s.(library := s.library.(complete := s.library.complete + {id})), HTTP_END, id, data)
    else EmitEvent(s, HTTP_DATA, id, data)
  }

  ghost function SetHandlers(s: State, id: Id): (r: State) {
    Note(s.(library := s.library.(handlers := s.library.handlers + {id})), Registered(id))
  }

  /** `close()` on a socket: the close handler runs within the call. */
  ghost function CloseSocket(s: State, id: Id, reason: string): (r: State) {
    OnSocketClose(Note(s, Closing(id)), id, reason)
  }

  /** Whether a client is in the registry and not faded. */
  ghost predicate IsLive(s: State, id: Id) {
    id in s.websockets && s.websockets[id]
  }

  ghost function SendTo(s: State, id: Id, message: string): (r: State) {
    if IsLive(s, id) then Note(s, Sent(id, message)) else s
  }

  ghost function SendToAll(s: State, order: seq<Id>, message: string): (r: State) {
    if order == [] then s else SendTo(SendToAll(s, order[..|order| - 1], message), order[|order| - 1], message)
  }

  /** Closes the clients in `order` that are still connected. */
  ghost function CloseLive(s: State, order: seq<Id>, reason: string): (r: State) {
    if order == [] then s
    else
      var r, id := CloseLive(s, order[..|order| - 1], reason), order[|order| - 1];
      if IsLive(r, id) then CloseSocket(r, id, reason) else r
  }

  ghost function Drop(s: State, id: Id): (r: State) {
    s.(websockets := s.websockets - {id}, log := s.log + [Purged(id)])
  }

  /** Drops the faded clients in `order` from the registry. */
  ghost function DropFaded(s: State, order: seq<Id>): (r: State) {
    if order == [] then s
    else
      var r, id := DropFaded(s, order[..|order| - 1]), order[|order| - 1];
      if id in r.websockets && !r.websockets[id] then Drop(r, id) else r
  }

  /** An operation on a response, if the request is still registered. */
  ghost function RespondTo(s: State, id: Id, op: ResponseOp): (r: State) {
    if id !in s.requests then s
    else s.(log := s.log + [Responded(id, op)],
            requests := if Ends(op) then s.requests - {id} else s.requests)
  }

  ghost function AbortAll(s: State, order: seq<Id>): (r: State) {
    if order == [] then s
    else
      var r, id := AbortAll(s, order[..|order| - 1]), order[|order| - 1];
      AbortOne(r, id)
  }

  const UNAVAILABLE := Status("503 Service Unavailable")
  const PLAIN_TEXT := Header("Content-Type", "text/plain")
  const SHUTTING_DOWN := End("Service Unavailable: Server shutting down")

  /** The response to a request that is pending at shutdown. */
  ghost function AbortOne(s: State, id: Id): (r: State) {
    RespondTo(RespondTo(RespondTo(s, id, UNAVAILABLE), id, PLAIN_TEXT), id, SHUTTING_DOWN)
  }

  ghost function Shutdown(s: State, sockets: seq<Id>, pending: seq<Id>, reason: string): (r: State) {
    var closed := DropFaded(CloseLive(s, sockets, reason), sockets);
    EmitEvent(AbortAll(closed, pending).(listening := false), SHUTDOWN, "SERVER", "Going Away")
  }

  ghost function Next(s: State, a: Action): (r: State) {
    match a
    case StartListening(port, success) =>
      if success then EmitEvent(s.(listening := true), LISTEN, "SERVER", port) else s
    case StopListening(sockets, pending, reason) => if s.listening then Shutdown(s, sockets, pending, reason) else s
    case SocketOpen(id) => OnSocketOpen(s, id)
    case SocketMessage(id, text) => OnSocketMessage(s, id, text)
    case SocketClose(id, text) => OnSocketClose(s, id, text)
    case Request(id, details) => OnRequest(s, id, details)
    case Chunk(id, data, isLast) => OnChunk(s, id, data, isLast)
    case Writable(id) => EmitEvent(s, HTTP_WRITABLE, id, "")
    case Aborted(id) => EmitEvent(s, HTTP_ABORT, id, "").(requests := s.requests - {id})
    case Respond(id, op) => RespondTo(s, id, op)
    case SetEcho(enabled) => s.(echo := enabled)
    case Send(id, message) => SendTo(s, id, message)
    case Broadcast(sockets, message) => SendToAll(s, sockets, message)
    case Purge(sockets) => DropFaded(s, sockets)
    case Poll => if s.queue == [] then s else s.(queue := s.queue[1..], delivered := s.delivered + [s.queue[0]])
  }

  /** `order` runs through the keys of a map, each once: the order of an unordered map is not known. */
  ghost predicate Enumerates<T>(order: seq<Id>, m: map<Id, T>) {
    Distinct(order) && forall id :: id in order <==> id in m
  }

  /** What the networking library promises, in terms of what it knows: new ids are fresh, requests are heard of
      only through handlers that were set, of their bodies only until the last chunk, of sockets only while they are
      open. Loops run through each registry
      once, in any order. */
  ghost predicate Legal(s: State, a: Action) {
    match a
    case StopListening(sockets, pending, _) => Enumerates(sockets, s.websockets) && Enumerates(pending, s.requests)
    case SocketOpen(id) => id !in s.library.issued
    case SocketMessage(id, _) => id in s.library.open
    case SocketClose(id, _) => id in s.library.open
    case Request(id, _) => id !in s.library.issued
    case Chunk(id, _, _) => id in s.library.handlers - s.library.complete
    case Writable(id) => id in s.library.handlers
    case Aborted(id) => id in s.library.handlers
    case Broadcast(sockets, _) => Enumerates(sockets, s.websockets)
    case Purge(sockets) => Enumerates(sockets, s.websockets)
    case _ => true
  }

  // ---- The invariant

  /** What the library knows agrees with what was observed. */
  ghost predicate LibraryAgrees(l: Library, h: History) {
    && h.started <= l.issued && h.connected <= l.issued
    && l.handlers <= h.started && l.complete == h.complete
    && l.open == h.connected - h.closed
  }

  /** The registries say exactly what the log says, and no event is lost, duplicated or reordered. */
  ghost predicate Inv(s: State) {
    var h := Summary(s.log);
    && SafeLog(s.log) && LibraryAgrees(s.library, h)
    && s.requests.Keys == h.started - h.finished && h.finished <= h.started
    && s.websockets.Keys == h.connected - h.purged && h.purged <= h.closed <= h.connected
    && (forall id :: id in s.websockets ==> (s.websockets[id] <==> id !in h.closed))
    && s.delivered + s.queue == EventsOf(s.log)
  }

  /** A registry entry that is not null belongs to an open socket: what is sent to it and the calls that close
      it reach one. */
  lemma {:induction false} LiveIsOpen(s: State, id: Id)
    requires Inv(s) && IsLive(s, id)
    ensures id in s.library.open
  {
  }

  lemma {:induction false} EmitKeepsQueue(s: State, kind: EventType, id: Id, payload: string)
    requires s.delivered + s.queue == EventsOf(s.log)
    ensures var r := EmitEvent(s, kind, id, payload); r.delivered + r.queue == EventsOf(r.log)
  {
    var e := Event(kind, id, payload);
    Snoc(s.log, Emitted(e));
    assert s.delivered + (s.queue + [e]) == s.delivered + s.queue + [e];
  }

  /** Observations that are allowed and change no history. */
  lemma {:induction false} NoteKeepsInv(s: State, o: Observation)
    requires Inv(s) && Allowed(Summary(s.log), o) && (o.Registered? || o.Sent? || o.Closing?)
    ensures Inv(Note(s, o))
  {
    hide SafeLog, Summary, EventsOf;
    Snoc(s.log, o);
    assert EventsOf(s.log) + [] == EventsOf(s.log);
  }

  lemma {:induction false} CloseOne(s: State, id: Id, text: string)
    requires Inv(s) && id in s.library.open
    ensures Inv(OnSocketClose(s, id, text))
  {
    hide SafeLog, Summary, EventsOf;
    EmitKeepsQueue(s, CLOSE, id, text);
    Snoc(s.log, Emitted(Event(CLOSE, id, text)));
  }

  lemma {:induction false} CloseSocketKeepsInv(s: State, id: Id, reason: string)
    requires Inv(s) && id in s.library.open
    ensures Inv(CloseSocket(s, id, reason))
  {
    NoteKeepsInv(s, Closing(id));
    CloseOne(Note(s, Closing(id)), id, reason);
  }

  lemma {:induction false} SendKeepsInv(s: State, id: Id, message: string)
    requires Inv(s)
    ensures Inv(SendTo(s, id, message))
  {
    if IsLive(s, id) { NoteKeepsInv(s, Sent(id, message)); }
  }

  lemma {:induction false} SendToAllKeepsInv(s: State, order: seq<Id>, message: string)
    requires Inv(s)
    ensures Inv(SendToAll(s, order, message))
    decreases |order|
  {
    if order != [] {
      SendToAllKeepsInv(s, order[..|order| - 1], message);
      SendKeepsInv(SendToAll(s, order[..|order| - 1], message), order[|order| - 1], message);
    }
  }

  lemma {:induction false} DropOne(s: State, id: Id)
    requires Inv(s) && id in s.websockets && !s.websockets[id]
    ensures Inv(Drop(s, id))
  {
    Snoc(s.log, Purged(id));
    assert EventsOf(Drop(s, id).log) == EventsOf(s.log);
  }

  lemma {:induction false} RespondOne(s: State, id: Id, op: ResponseOp)
    requires Inv(s)
    ensures Inv(RespondTo(s, id, op))
  {
    if id in s.requests {
      Snoc(s.log, Responded(id, op));
      assert EventsOf(RespondTo(s, id, op).log) == EventsOf(s.log);
    }
  }

  lemma {:induction false} CloseLiveKeepsInv(s: State, order: seq<Id>, reason: string)
    requires Inv(s)
    ensures Inv(CloseLive(s, order, reason))
    ensures CloseLive(s, order, reason).websockets.Keys == s.websockets.Keys
    decreases |order|
  {
    if order != [] {
      var r, id := CloseLive(s, order[..|order| - 1], reason), order[|order| - 1];
      CloseLiveKeepsInv(s, order[..|order| - 1], reason);
      if IsLive(r, id) {
        LiveIsOpen(r, id);
        CloseSocketKeepsInv(r, id, reason);
      }
    }
  }

  lemma {:induction false} DropFadedKeepsInv(s: State, order: seq<Id>)
    requires Inv(s)
    ensures Inv(DropFaded(s, order))
    decreases |order|
  {
    if order != [] {
      var r, id := DropFaded(s, order[..|order| - 1]), order[|order| - 1];
      DropFadedKeepsInv(s, order[..|order| - 1]);
      if id in r.websockets && !r.websockets[id] { DropOne(r, id); }
    }
  }

  lemma {:induction false} AbortAllKeepsInv(s: State, order: seq<Id>)
    requires Inv(s)
    ensures Inv(AbortAll(s, order))
    decreases |order|
  {
    if order != [] {
      var r, id := AbortAll(s, order[..|order| - 1]), order[|order| - 1];
      AbortAllKeepsInv(s, order[..|order| - 1]);
      RespondOne(r, id, UNAVAILABLE);
      RespondOne(RespondTo(r, id, UNAVAILABLE), id, PLAIN_TEXT);
      RespondOne(RespondTo(RespondTo(r, id, UNAVAILABLE), id, PLAIN_TEXT), id, SHUTTING_DOWN);
    }
  }

  /** Events that only report something change nothing else. */
  lemma {:induction false} NoticeStep(s: State, kind: EventType, id: Id, payload: string)
    requires Inv(s) && Allowed(Summary(s.log), Emitted(Event(kind, id, payload)))
    requires kind in {HTTP_DATA, HTTP_WRITABLE, MESSAGE, LISTEN, SHUTDOWN}
    ensures Inv(EmitEvent(s, kind, id, payload))
  {
    hide EventsOf, SafeLog, Summary;
    EmitKeepsQueue(s, kind, id, payload);
    Snoc(s.log, Emitted(Event(kind, id, payload)));
  }

  lemma {:induction false} OpenStep(s: State, id: Id)
    requires Inv(s) && Legal(s, SocketOpen(id))
    ensures Inv(Next(s, SocketOpen(id)))
  {
    hide EventsOf, SafeLog, Summary;
    EmitKeepsQueue(s, OPEN, id, "");
    Snoc(s.log, Emitted(Event(OPEN, id, "")));
  }

  lemma {:induction false} RequestStep(s: State, id: Id, details: string)
    requires Inv(s) && Legal(s, Request(id, details))
    ensures Inv(Next(s, Request(id, details)))
  {
    hide EventsOf, SafeLog, Summary;
    EmitKeepsQueue(s, HTTP_START, id, "");
    Snoc(s.log, Emitted(Event(HTTP_START, id, "")));
    HandlersStep(StartRequest(s, id, details), id);
  }

  /** Setting the handlers needs the start to have been observed: the other way round would not be allowed. */
  lemma {:induction false} HandlersStep(s: State, id: Id)
    requires Inv(s) && id in Summary(s.log).started
    ensures Inv(SetHandlers(s, id))
  {
    NoteKeepsInv(s.(library := s.library.(handlers := s.library.handlers + {id})), Registered(id));
  }

  lemma {:induction false} ChunkStep(s: State, id: Id, data: string, isLast: bool)
    requires Inv(s) && Legal(s, Chunk(id, data, isLast))
    ensures Inv(Next(s, Chunk(id, data, isLast)))
  {
    hide EventsOf, SafeLog, Summary;
    if isLast {
      EmitKeepsQueue(s, HTTP_END, id, data);
      Snoc(s.log, Emitted(Event(HTTP_END, id, data)));
    } else {
      NoticeStep(s, HTTP_DATA, id, data);
    }
  }

  lemma {:induction false} MessageStep(s: State, id: Id, text: string)
    requires Inv(s) && Legal(s, SocketMessage(id, text))
    ensures Inv(Next(s, SocketMessage(id, text)))
  {
    var queued := EmitEvent(s, MESSAGE, id, text);
    NoticeStep(s, MESSAGE, id, text);
    if s.echo {
      Snoc(s.log, Emitted(Event(MESSAGE, id, text)));
      NoteKeepsInv(queued, Sent(id, text));
    }
  }

  lemma {:induction false} AbortedStep(s: State, id: Id)
    requires Inv(s) && Legal(s, Aborted(id))
    ensures Inv(Next(s, Aborted(id)))
  {
    hide EventsOf, SafeLog, Summary;
    EmitKeepsQueue(s, HTTP_ABORT, id, "");
    Snoc(s.log, Emitted(Event(HTTP_ABORT, id, "")));
  }

  lemma {:induction false} PollStep(s: State)
    requires Inv(s)
    ensures Inv(Next(s, Poll))
  {
    if s.queue != [] {
      assert s.delivered + [s.queue[0]] + s.queue[1..] == s.delivered + s.queue;
    }
  }

  lemma {:induction false} ShutdownStep(s: State, sockets: seq<Id>, pending: seq<Id>, reason: string)
    requires Inv(s)
    ensures Inv(Shutdown(s, sockets, pending, reason))
  {
    CloseLiveKeepsInv(s, sockets, reason);
    var closed := DropFaded(CloseLive(s, sockets, reason), sockets);
    DropFadedKeepsInv(CloseLive(s, sockets, reason), sockets);
    AbortAllKeepsInv(closed, pending);
    var t := AbortAll(closed, pending).(listening := false);
    EmitKeepsQueue(t, SHUTDOWN, "SERVER", "Going Away");
    Snoc(t.log, Emitted(Event(SHUTDOWN, "SERVER", "Going Away")));
  }

  /** Every step of the machine keeps the invariant. */
  lemma {:induction false} StepKeepsInv(s: State, a: Action)
    requires Inv(s) && Legal(s, a)
    ensures Inv(Next(s, a))
  {
    match a
    case StopListening(sockets, pending, reason) => if s.listening { ShutdownStep(s, sockets, pending, reason); }
    case SocketClose(id, text) => CloseOne(s, id, text);
    case Respond(id, op) => RespondOne(s, id, op);
    case Purge(sockets) => DropFadedKeepsInv(s, sockets);
    case Poll => PollStep(s);
    case StartListening(port, success) => if success { NoticeStep(s.(listening := true), LISTEN, "SERVER", port); }
    case SocketOpen(id) => OpenStep(s, id);
    case SocketMessage(id, text) => MessageStep(s, id, text);
    case Request(id, details) => RequestStep(s, id, details);
    case Chunk(id, data, isLast) => ChunkStep(s, id, data, isLast);
    case Writable(id) => NoticeStep(s, HTTP_WRITABLE, id, "");
    case Aborted(id) => AbortedStep(s, id);
    case SetEcho(_) =>
    case Send(id, message) => SendKeepsInv(s, id, message);
    case Broadcast(sockets, message) => SendToAllKeepsInv(s, sockets, message);
  }

  ghost function Run(actions: seq<Action>): (s: State) {
    if actions == [] then INITIAL else Next(Run(actions[..|actions| - 1]), actions[|actions| - 1])
  }

  ghost predicate LegalRun(actions: seq<Action>) {
    actions != [] ==>
      LegalRun(actions[..|actions| - 1]) && Legal(Run(actions[..|actions| - 1]), actions[|actions| - 1])
  }

  /** In every run, the registries agree with what was observed, which was allowed throughout. */
  lemma {:induction false} EveryRunIsSafe(actions: seq<Action>)
    requires LegalRun(actions)
    ensures Inv(Run(actions))
  {
    if actions != [] {
      EveryRunIsSafe(actions[..|actions| - 1]);
      StepKeepsInv(Run(actions[..|actions| - 1]), actions[|actions| - 1]);
    }
  }

  // ---- What a safe log means, observation by observation

  lemma {:induction false} SafeAt(log: seq<Observation>, j: nat)
    requires SafeLog(log) && j < |log|
    ensures SafeLog(log[..j]) && Allowed(Summary(log[..j]), log[j])
    decreases |log|
  {
    if j < |log| - 1 {
      SafeAt(log[..|log| - 1], j);
      assert log[..|log| - 1][..j] == log[..j];
    }
  }

  lemma {:induction false} SummaryGrows(log: seq<Observation>, i: nat)
    requires i <= |log|
    ensures Summary(log[..i]).finished <= Summary(log).finished
    ensures Summary(log[..i]).closed <= Summary(log).closed
    ensures Summary(log[..i]).complete <= Summary(log).complete
    decreases |log|
  {
    if i < |log| {
      SummaryGrows(log[..|log| - 1], i);
      assert log[..|log| - 1][..i] == log[..i];
    } else {
      assert log[..i] == log;
    }
  }

  /** The response of this request is over after the observation. */
  ghost predicate Finishes(o: Observation, id: Id) {
    || (o.Responded? && o.id == id && Ends(o.op))
    || (o.Emitted? && o.event.kind == HTTP_ABORT && o.event.id == id)
  }

  /** After a response was ended or aborted, no operation reaches it; in particular it is ended only once. */
  lemma {:induction false} NothingAfterFinish(log: seq<Observation>, i: nat, j: nat, id: Id)
    requires SafeLog(log) && i < j < |log| && Finishes(log[i], id)
    ensures !(log[j].Responded? && log[j].id == id)
  {
    SafeAt(log, j);
    SummaryGrows(log[..j], i + 1);
    assert log[..j][..i + 1] == log[..i] + [log[i]];
    Snoc(log[..i], log[i]);
  }

  /** After the end of a body nothing more of it is reported; in particular it ends only once. */
  lemma {:induction false} NothingAfterEnd(log: seq<Observation>, i: nat, j: nat, id: Id)
    requires SafeLog(log) && i < j < |log| && log[i].Emitted? && log[i].event.kind == HTTP_END && log[i].event.id == id
    ensures !(log[j].Emitted? && log[j].event.kind in {HTTP_DATA, HTTP_END} && log[j].event.id == id)
  {
    SafeAt(log, j);
    SummaryGrows(log[..j], i + 1);
    assert log[..j][..i + 1] == log[..i] + [log[i]];
    Snoc(log[..i], log[i]);
  }

  /** A message from or to this client, or the end of it. */
  ghost predicate ConcernsClient(o: Observation, id: Id) {
    || (o.Emitted? && (o.event.kind == CLOSE || o.event.kind == MESSAGE) && o.event.id == id)
    || (o.Sent? && o.id == id)
    || (o.Closing? && o.id == id)
  }

  /** After a client was closed there is no message from it, none is sent to it, and it is not closed again. */
  lemma {:induction false} NothingAfterClose(log: seq<Observation>, i: nat, j: nat, id: Id)
    requires SafeLog(log) && i < j < |log| && log[i].Emitted? && log[i].event.kind == CLOSE && log[i].event.id == id
    ensures !ConcernsClient(log[j], id)
  {
    SafeAt(log, j);
    SummaryGrows(log[..j], i + 1);
    assert log[..j][..i + 1] == log[..i] + [log[i]];
    Snoc(log[..i], log[i]);
  }

  lemma {:induction false} StartedWasObserved(log: seq<Observation>, id: Id) returns (i: nat)
    requires id in Summary(log).started
    ensures i < |log| && log[i].Emitted? && log[i].event.kind == HTTP_START && log[i].event.id == id
  {
    var last := log[|log| - 1];
    if last.Emitted? && last.event.kind == HTTP_START && last.event.id == id {
      i := |log| - 1;
    } else {
      i := StartedWasObserved(log[..|log| - 1], id);
    }
  }

  ghost predicate ConcernsRequest(o: Observation, id: Id) {
    || (o.Responded? && o.id == id)
    || (o.Registered? && o.id == id)
    || (o.Emitted? && o.event.id == id && o.event.kind in {HTTP_DATA, HTTP_END, HTTP_ABORT, HTTP_WRITABLE})
  }

  /** Whatever concerns a request comes after its start. */
  lemma {:induction false} StartComesFirst(log: seq<Observation>, j: nat, id: Id) returns (i: nat)
    requires SafeLog(log) && j < |log| && ConcernsRequest(log[j], id)
    ensures i < j && log[i].Emitted? && log[i].event.kind == HTTP_START && log[i].event.id == id
  {
    SafeAt(log, j);
    i := StartedWasObserved(log[..j], id);
  }

  // ---- Shutdown and purge

  /** The clients in `order` that are connected. */
  ghost function LiveIn(s: State, order: seq<Id>): (r: seq<Id>) {
    if order == [] then []
    else
      var r, id := LiveIn(s, order[..|order| - 1]), order[|order| - 1];
      if IsLive(s, id) then r + [id] else r
  }

  ghost function CloseEvents(ids: seq<Id>, reason: string): (r: seq<Event>) {
    if ids == [] then [] else CloseEvents(ids[..|ids| - 1], reason) + [Event(CLOSE, ids[|ids| - 1], reason)]
  }

  /** Closing leaves every client it went through faded, and the key set as it was. */
  lemma {:induction false} CloseLiveSockets(s: State, order: seq<Id>, reason: string)
    requires Distinct(order)
    ensures var r := CloseLive(s, order, reason);
            && r.websockets.Keys == s.websockets.Keys && r.requests == s.requests && r.listening == s.listening
            && r.delivered == s.delivered
            && (forall id :: id in s.websockets ==> r.websockets[id] == (s.websockets[id] && id !in order))
    decreases |order|
  {
    if order != [] {
      var init, id := order[..|order| - 1], order[|order| - 1];
      CloseLiveSockets(s, init, reason);
      assert order == init + [id] && id !in init;
    }
  }

  lemma {:induction false} NoCloseEvents(reason: string)
    ensures CloseEvents([], reason) == []
  {
  }

  lemma {:induction false} CloseEventsSnoc(ids: seq<Id>, id: Id, reason: string, before: seq<Event>)
    ensures before + CloseEvents(ids + [id], reason) == before + CloseEvents(ids, reason) + [Event(CLOSE, id, reason)]
  {
    assert (ids + [id])[..|ids|] == ids;
  }

  /** Closing goes through the connected clients, once each. */
  lemma {:induction false} CloseLiveEvents(s: State, order: seq<Id>, reason: string)
    requires Distinct(order)
    ensures EventsOf(CloseLive(s, order, reason).log) == EventsOf(s.log) + CloseEvents(LiveIn(s, order), reason)
    decreases |order|
  {
    hide EventsOf, SafeLog, Summary, CloseEvents;
    if order == [] {
      assert CloseEvents([], reason) == [] by { NoCloseEvents(reason); }
    } else {
      var init, id := order[..|order| - 1], order[|order| - 1];
      CloseLiveEvents(s, init, reason);
      CloseLiveSockets(s, init, reason);
      var r, live := CloseLive(s, init, reason), LiveIn(s, init);
      assert order == init + [id] && id !in init;
      Snoc(r.log, Closing(id));
      Snoc(r.log + [Closing(id)], Emitted(Event(CLOSE, id, reason)));
      CloseEventsSnoc(live, id, reason, EventsOf(s.log));
    }
  }

  lemma {:induction false} DropFadedEffect(s: State, order: seq<Id>)
    ensures var r := DropFaded(s, order);
            && EventsOf(r.log) == EventsOf(s.log) && r.requests == s.requests && r.listening == s.listening
            && r.delivered == s.delivered
            && r.websockets == map id | id in s.websockets && (s.websockets[id] || id !in order) :: s.websockets[id]
    decreases |order|
  {
    hide EventsOf, SafeLog, Summary;
    if order != [] {
      var init, id := order[..|order| - 1], order[|order| - 1];
      DropFadedEffect(s, init);
      assert order == init + [id];
      Snoc(DropFaded(s, init).log, Purged(id));
    }
  }

  lemma {:induction false} RespondEffect(s: State, id: Id, op: ResponseOp)
    ensures EventsOf(RespondTo(s, id, op).log) == EventsOf(s.log)
  {
    Snoc(s.log, Responded(id, op));
  }

  lemma {:induction false} AbortOneEffect(s: State, id: Id)
    ensures var r := AbortOne(s, id);
            EventsOf(r.log) == EventsOf(s.log) && r.websockets == s.websockets && r.requests == s.requests - {id}
            && r.delivered == s.delivered
  {
    hide EventsOf;
    RespondEffect(s, id, UNAVAILABLE);
    RespondEffect(RespondTo(s, id, UNAVAILABLE), id, PLAIN_TEXT);
    RespondEffect(RespondTo(RespondTo(s, id, UNAVAILABLE), id, PLAIN_TEXT), id, SHUTTING_DOWN);
  }

  lemma {:induction false} AbortAllEffect(s: State, order: seq<Id>)
    ensures var r := AbortAll(s, order);
            && EventsOf(r.log) == EventsOf(s.log) && r.websockets == s.websockets && r.delivered == s.delivered
            && r.requests == s.requests - (set id | id in order)
    decreases |order|
  {
    hide AbortOne, EventsOf;
    if order != [] {
      var init, id := order[..|order| - 1], order[|order| - 1];
      AbortAllEffect(s, init);
      AbortOneEffect(AbortAll(s, init), id);
      assert order == init + [id];
    }
  }

  /** Shutting down while listening: one CLOSE per connected client, then SHUTDOWN, and both registries are empty. */
  lemma {:induction false} ShutdownEffect(s: State, sockets: seq<Id>, pending: seq<Id>, reason: string)
    requires s.listening && Legal(s, StopListening(sockets, pending, reason))
    ensures var r := Next(s, StopListening(sockets, pending, reason));
            && !r.listening && r.websockets == map[] && r.requests == map[] && r.delivered == s.delivered
            && EventsOf(r.log) == EventsOf(s.log) + CloseEvents(LiveIn(s, sockets), reason)
                                  + [Event(SHUTDOWN, "SERVER", "Going Away")]
  {
    var closed := CloseLive(s, sockets, reason);
    var dropped := DropFaded(closed, sockets);
    CloseLiveSockets(s, sockets, reason);
    CloseLiveEvents(s, sockets, reason);
    DropFadedEffect(closed, sockets);
    AbortAllEffect(dropped, pending);
    Snoc(AbortAll(dropped, pending).log, Emitted(Event(SHUTDOWN, "SERVER", "Going Away")));
  }

  /** The same, seen from the queue: it grows by exactly these events. */
  lemma {:induction false} ShutdownQueue(s: State, sockets: seq<Id>, pending: seq<Id>, reason: string)
    requires Inv(s) && s.listening && Legal(s, StopListening(sockets, pending, reason))
    ensures Next(s, StopListening(sockets, pending, reason)).queue
         == s.queue + (CloseEvents(LiveIn(s, sockets), reason) + [Event(SHUTDOWN, "SERVER", "Going Away")])
  {
    var r := Next(s, StopListening(sockets, pending, reason));
    var more := CloseEvents(LiveIn(s, sockets), reason) + [Event(SHUTDOWN, "SERVER", "Going Away")];
    ShutdownEffect(s, sockets, pending, reason);
    StepKeepsInv(s, StopListening(sockets, pending, reason));
    assert s.delivered + r.queue == s.delivered + s.queue + more;
    SameTail(s.delivered, r.queue, s.queue, more);
  }

  lemma {:induction false} SameTail(a: seq<Event>, b: seq<Event>, c: seq<Event>, d: seq<Event>)
    requires a + b == a + c + d
    ensures b == c + d
  {
    assert (a + b)[|a|..] == b && (a + c + d)[|a|..] == c + d;
  }

  /** The clients that are closed at shutdown are the connected ones, once each. */
  lemma {:induction false} LiveInExactly(s: State, order: seq<Id>)
    requires Distinct(order)
    ensures Distinct(LiveIn(s, order))
    ensures forall id :: id in LiveIn(s, order) <==> id in order && IsLive(s, id)
    decreases |order|
  {
    if order != [] {
      var init, id := order[..|order| - 1], order[|order| - 1];
      LiveInExactly(s, init);
      assert order == init + [id] && id !in init;
    }
  }

  lemma {:induction false} SendToAllLast(s: State, order: seq<Id>, message: string)
    requires order != []
    ensures SendToAll(s, order, message)
         == SendTo(SendToAll(s, order[..|order| - 1], message), order[|order| - 1], message)
  {
  }

  ghost function SentLog(ids: seq<Id>, message: string): (r: seq<Observation>) {
    if ids == [] then [] else SentLog(ids[..|ids| - 1], message) + [Sent(ids[|ids| - 1], message)]
  }

  /** A broadcast sends the message once to every connected client of `order`, and does nothing else. */
  lemma {:induction false} BroadcastEffect(s: State, order: seq<Id>, message: string)
    ensures SendToAll(s, order, message) == s.(log := s.log + SentLog(LiveIn(s, order), message))
    decreases |order|
  {
    hide EventsOf, SafeLog, Summary;
    if order == [] {
      assert s.log + SentLog([], message) == s.log;
    } else {
      var init, id := order[..|order| - 1], order[|order| - 1];
      var live := LiveIn(s, init);
      BroadcastEffect(s, init, message);
      assert (live + [id])[..|live|] == live;
      Assoc(s.log, SentLog(live, message), [Sent(id, message)]);
    }
  }

  /** The registry without faded clients. */
  ghost function LiveOnly(m: map<Id, bool>): (r: map<Id, bool>) {
    map id | id in m && m[id] :: true
  }

  /** Purging removes exactly the faded clients. */
  lemma {:induction false} PurgeEffect(s: State, sockets: seq<Id>)
    requires Legal(s, Purge(sockets))
    ensures Next(s, Purge(sockets)).websockets == LiveOnly(s.websockets)
  {
    DropFadedEffect(s, sockets);
  }
}
