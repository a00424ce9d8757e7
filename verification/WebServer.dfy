/** The web server's state and the methods that change it, each a step of the protocol. */
module WebServer {
  import opened Wrappers
  import opened ServerProtocol

  const CLIENT_ID_SIZE := 37
  const MAX_PAYLOAD_SIZE := 16 * 1024 * 1024

  function TypeCode(kind: EventType): (code: int) {
    match kind
    case OPEN => 1
    case MESSAGE => 2
    case CLOSE => 3
    case LISTEN => 4
    case SHUTDOWN => 5
    case HTTP_START => 6
    case HTTP_DATA => 7
    case HTTP_END => 8
    case HTTP_ABORT => 9
    case HTTP_WRITABLE => 10
  }

  /** The kinds of events in the order in which they are declared. */
  const KINDS := [OPEN, MESSAGE, CLOSE, LISTEN, SHUTDOWN, HTTP_START, HTTP_DATA, HTTP_END, HTTP_ABORT, HTTP_WRITABLE]

  /** Codes count from 1 in that order, so that no two kinds share one; 0 is no event. */
  lemma {:induction false} CodesAreInOrder(i: nat)
    requires i < |KINDS|
    ensures TypeCode(KINDS[i]) == i + 1
  {
  }

  lemma {:induction false} CodesTellKinds(a: EventType, b: EventType)
    requires TypeCode(a) == TypeCode(b)
    ensures a == b && 1 <= TypeCode(a) <= |KINDS| && KINDS[TypeCode(a) - 1] == a
  {
  }

  /** What ends up in the preallocated event buffer. */
  datatype DeliveredEvent = DeliveredEvent(code: int, clientID: string, payload: string)

  function Truncate(s: string, max: nat): (r: string)
    ensures r <= s && |r| == if |s| <= max then |s| else max
  {
    if |s| <= max then s else s[..max]
  }

  datatype SendStatus = Backpressure | Success | Dropped

  datatype HttpSendStatus = NotSent | SentOnly | EndedOnly | SentAndEnded

  class Server {
    var listening: bool
    var echo: bool
    var queue: seq<Event>
    var websockets: map<Id, bool>
    var requests: map<Id, string>
    ghost var library: Library
    ghost var log: seq<Observation>
    ghost var delivered: seq<Event>

    ghost function Abs(): (s: State)
      reads this
    {
      State(listening, echo, queue, websockets, requests, library, log, delivered)
    }

    /** The registries agree with what was observed, which was allowed throughout. */
    ghost predicate Valid()
      reads this
    {
      Inv(Abs())
    }

    constructor ()
      ensures Abs() == INITIAL && Valid()
    {
      listening, echo, queue, websockets, requests := false, false, [], map[], map[];
      library, log, delivered := Library({}, {}, {}, {}), [], [];
    }

    method Emplace(kind: EventType, id: Id, payload: string)
      modifies this
      ensures Abs() == EmitEvent(old(Abs()), kind, id, payload)
    {
      queue := queue + [Event(kind, id, payload)];
      log := log + [Emitted(Event(kind, id, payload))];
    }

    method StartListening(port: string, success: bool)
      requires Valid() && Legal(Abs(), Action.StartListening(port, success))
      modifies this
      ensures Valid() && Abs() == Next(old(Abs()), Action.StartListening(port, success))
    {
      hide Inv, EventsOf, SafeLog, Summary;
      StepKeepsInv(Abs(), Action.StartListening(port, success));
      if !success {
        return;
      }
      listening := true;
      Emplace(LISTEN, "SERVER", port);
    }

    // ---- Event handlers

    method OnWebSocketOpen(id: Id)
      requires Valid() && Legal(Abs(), SocketOpen(id))
      modifies this
      ensures Valid() && Abs() == Next(old(Abs()), SocketOpen(id))
    {
      hide Inv, EventsOf, SafeLog, Summary;
      StepKeepsInv(Abs(), SocketOpen(id));
      library := library.(issued := library.issued + {id}, open := library.open + {id});
      Emplace(OPEN, id, "");
      websockets := websockets[id := true];
    }

    method OnWebSocketClose(id: Id, message: string)
      requires Valid() && Legal(Abs(), SocketClose(id, message))
      modifies this
      ensures Valid() && Abs() == Next(old(Abs()), SocketClose(id, message))
    {
      hide Inv, EventsOf, SafeLog, Summary;
      StepKeepsInv(Abs(), SocketClose(id, message));
      library := library.(open := library.open - {id});
      Emplace(CLOSE, id, message);
      websockets := websockets[id := false];
    }

    method OnWebSocketMessage(id: Id, message: string)
      requires Valid() && Legal(Abs(), SocketMessage(id, message))
      modifies this
      ensures Valid() && Abs() == Next(old(Abs()), SocketMessage(id, message))
    {
      hide Inv, EventsOf, SafeLog, Summary;
      StepKeepsInv(Abs(), SocketMessage(id, message));
      Emplace(MESSAGE, id, message);
      if !echo {
        return;
      }
      log := log + [Sent(id, message)];
    }

    method OnRequest(id: Id, details: string)
      requires Valid() && Legal(Abs(), Request(id, details))
      modifies this
      ensures Valid() && Abs() == Next(old(Abs()), Request(id, details))
    {
      hide Inv, EventsOf, SafeLog, Summary;
      StepKeepsInv(Abs(), Request(id, details));
      library := library.(issued := library.issued + {id});
      Snoc(log, Emitted(Event(HTTP_START, id, "")));
      Emplace(HTTP_START, id, "");
      StoreRequestDetails(id, details);
      SetCallbackHandlers(id);
    }

    method StoreRequestDetails(id: Id, details: string)
      modifies this`requests
      ensures requests == if id in old(requests) then old(requests) else old(requests)[id := details]
    {
      var hasAnotherRequestWithThisID := id in requests;
      if hasAnotherRequestWithThisID {
        return;
      }
      requests := requests[id := details];
    }

    /** From here on the library calls back for this request; its start must have been queued by then. */
    method SetCallbackHandlers(id: Id)
      requires id in Summary(log).started
      modifies this`library, this`log
      ensures Abs() == SetHandlers(old(Abs()), id)
    {
      library := library.(handlers := library.handlers + {id});
      log := log + [Registered(id)];
    }

    method OnData(id: Id, chunk: string, isLast: bool)
      requires Valid() && Legal(Abs(), Chunk(id, chunk, isLast))
      modifies this
      ensures Valid() && Abs() == Next(old(Abs()), Chunk(id, chunk, isLast))
    {
      hide Inv, EventsOf, SafeLog, Summary;
      StepKeepsInv(Abs(), Chunk(id, chunk, isLast));
      if isLast {
        library := library.(complete := library.complete + {id});
        Emplace(HTTP_END, id, chunk);
      } else {
        Emplace(HTTP_DATA, id, chunk);
      }
    }

    method OnConnectionWritable(id: Id)
      requires Valid() && Legal(Abs(), Writable(id))
      modifies this
      ensures Valid() && Abs() == Next(old(Abs()), Writable(id))
    {
      hide Inv, EventsOf, SafeLog, Summary;
      StepKeepsInv(Abs(), Writable(id));
      Emplace(HTTP_WRITABLE, id, "");
    }

    method OnConnectionAborted(id: Id)
      requires Valid() && Legal(Abs(), Aborted(id))
      modifies this
      ensures Valid() && Abs() == Next(old(Abs()), Aborted(id))
    {
      hide Inv, EventsOf, SafeLog, Summary;
      StepKeepsInv(Abs(), Aborted(id));
      Emplace(HTTP_ABORT, id, "");
      requests := requests - {id};
    }

    // ---- Sending on sockets

    method SetEchoMode(enabled: bool)
      requires Valid()
      modifies this
      ensures Valid() && Abs() == Next(old(Abs()), SetEcho(enabled))
    {
      echo := enabled;
    }

    /** `websocket->send` and `websocket->close` are only ever called on open sockets. */
    method SendOn(id: Id, message: string)
      requires id in library.open
      modifies this`log
      ensures log == old(log) + [Sent(id, message)]
    {
      log := log + [Sent(id, message)];
    }

    method SendMessageToClient(message: string, id: Id, result: SendStatus) returns (status: SendStatus)
      requires Valid()
      modifies this
      ensures Valid() && Abs() == Next(old(Abs()), Send(id, message))
      ensures status == if IsLive(old(Abs()), id) then result else Dropped
    {
      SendKeepsInv(Abs(), id, message);
      if id !in websockets || !websockets[id] {
        return Dropped;
      }
      LiveIsOpen(Abs(), id);
      SendOn(id, message);
      return result;
    }

    /** The loop, which sends to the clients that are still connected. */
    method SendToLive(order: seq<Id>, message: string, results: Id -> SendStatus) returns (status: SendStatus)
      requires Valid() && Enumerates(order, websockets)
      modifies this`log
      ensures log == SendToAll(old(Abs()), order, message).log
      ensures status == if exists j :: 0 <= j < |order| && websockets[order[j]] && results(order[j]) == Dropped
                        then Dropped else Success
    {
      hide Inv, SendToAll;
      status := Success;
      ghost var s := Abs();
      NothingSent(s, order, message);
      var i := 0;
      while i < |order|
        invariant 0 <= i <= |order| && log == SendToAll(s, order[..i], message).log
        invariant status == if exists j :: 0 <= j < i && websockets[order[j]] && results(order[j]) == Dropped
                            then Dropped else Success
      {
        SendToAllNext(s, order, i, message);
        if websockets[order[i]] {
          LiveIsOpen(s, order[i]);
          SendOn(order[i], message);
          if results(order[i]) == Dropped {
            status := Dropped;
          }
        }
        i := i + 1;
      }
      assert order[..i] == order;
    }

    /** Sends to every client that is not faded; a single dropped message makes the result `Dropped`. */
    method BroadcastMessage(order: seq<Id>, message: string, results: Id -> SendStatus) returns (status: SendStatus)
      requires Valid() && Legal(Abs(), Broadcast(order, message))
      modifies this`log
      ensures Valid() && Abs() == Next(old(Abs()), Broadcast(order, message))
      ensures status == if exists id :: IsLive(old(Abs()), id) && results(id) == Dropped then Dropped else Success
    {
      hide Inv, SendToAll, Next, Legal;
      BroadcastOutcome(Abs(), order, message);
      status := SendToLive(order, message, results);
      assert forall id :: IsLive(Abs(), id) ==> id in order;
    }

    // ---- Shutdown

    /** `close()` on an open socket, which calls the close handler. */
    method Close(id: Id, reason: string)
      requires Valid() && id in library.open
      modifies this
      ensures Valid() && Abs() == CloseSocket(old(Abs()), id, reason)
    {
      NoteKeepsInv(Abs(), Closing(id));
      log := log + [Closing(id)];
      OnWebSocketClose(id, reason);
    }

    /** Closes every connected client. The close handler runs within `close` and must not change the key set
        that is being iterated over; the map is emptied only after the loop. */
    method DisconnectAllClients(order: seq<Id>, reason: string)
      requires Valid() && Enumerates(order, websockets)
      modifies this
      ensures Valid() && Abs() == DropFaded(CloseLive(old(Abs()), order, reason), order)
      ensures websockets == map[]
    {
      hide CloseLive, DropFaded, EventsOf, Inv;
      NothingClosed(Abs(), order, reason);
      var i := 0;
      while i < |order|
        invariant 0 <= i <= |order| && Valid()
        invariant Abs() == CloseLive(old(Abs()), order[..i], reason)
        invariant websockets.Keys == old(websockets).Keys
      {
        CloseLiveNext(old(Abs()), order, i, reason);
        var isFadedClient := !websockets[order[i]];
        if !isFadedClient {
          LiveIsOpen(Abs(), order[i]);
          Close(order[i], reason);
        }
        i := i + 1;
      }
      assert order[..i] == order;
      ghost var closed := Abs();
      CloseLiveSockets(old(Abs()), order, reason);
      DropFadedEffect(closed, order);
      websockets := map[];
      log := DropFaded(closed, order).log;
      DropFadedFrame(closed, order);
      DropFadedKeepsInv(closed, order);
    }

    method Respond503(id: Id)
      modifies this`log
      ensures log == old(log) + [Responded(id, UNAVAILABLE), Responded(id, PLAIN_TEXT), Responded(id, SHUTTING_DOWN)]
    {
      log := log + [Responded(id, UNAVAILABLE), Responded(id, PLAIN_TEXT), Responded(id, SHUTTING_DOWN)];
    }

    /** The loop, which answers every pending request with an error. */
    method AnswerAll(order: seq<Id>) returns (numAnswered: nat)
      requires Enumerates(order, requests)
      modifies this`log
      ensures numAnswered == |order| && log == AbortAll(old(Abs()), order).log
    {
      hide AbortAll, Enumerates;
      ghost var s := Abs();
      NothingAborted(s, order);
      numAnswered := 0;
      while numAnswered < |order|
        invariant 0 <= numAnswered <= |order| && log == AbortAll(s, order[..numAnswered]).log
      {
        AbortAllNext(s, order, numAnswered);
        Respond503(order[numAnswered]);
        numAnswered := numAnswered + 1;
      }
      assert order[..|order|] == order;
    }

    /** Aborts every pending request; returns how many there were. */
    method AbortAllConnections(order: seq<Id>) returns (numAbortedConnections: nat)
      requires Valid() && Enumerates(order, requests)
      modifies this`log, this`requests
      ensures Valid() && Abs() == AbortAll(old(Abs()), order)
      ensures requests == map[] && numAbortedConnections == |old(requests)|
    {
      hide Inv, AbortAll, Enumerates;
      AbortAllKeepsInv(Abs(), order);
      AbortAllOutcome(Abs(), order);
      numAbortedConnections := AnswerAll(order);
      requests := map[];
    }

    method StopListening(sockets: seq<Id>, pending: seq<Id>, reason: string)
      requires Valid() && Legal(Abs(), Action.StopListening(sockets, pending, reason))
      modifies this
      ensures Valid() && Abs() == Next(old(Abs()), Action.StopListening(sockets, pending, reason))
    {
      hide Inv, CloseLive, DropFaded, AbortAll, EventsOf;
      StepKeepsInv(Abs(), Action.StopListening(sockets, pending, reason));
      if !listening {
        return;
      }
      DropFadedFrame(CloseLive(Abs(), sockets, reason), sockets);
      CloseLiveSockets(Abs(), sockets, reason);
      DisconnectAllClients(sockets, reason);
      ghost var dropped := Abs();
      var _ := AbortAllConnections(pending);
      AbortAllFrame(dropped, pending);
      listening := false;
      Emplace(SHUTDOWN, "SERVER", "Going Away");
    }

    // ---- Purge

    /** One round of the loop: an entry that is null is erased. */
    method EraseIfFaded(id: Id) returns (numErased: nat)
      requires id in websockets
      modifies this`log, this`websockets
      ensures websockets == if old(websockets)[id] then old(websockets) else old(websockets) - {id}
      ensures log == if old(websockets)[id] then old(log) else old(log) + [Purged(id)]
      ensures numErased + |websockets| == |old(websockets)|
    {
      numErased := 0;
      if !websockets[id] {
        SmallerByOne(websockets, id);
        log := log + [Purged(id)];
        websockets := websockets - {id};
        numErased := 1;
      }
    }

    /** The loop, which erases entries while it iterates. */
    method EraseFaded(order: seq<Id>) returns (numErased: nat)
      requires Enumerates(order, websockets)
      modifies this`log, this`websockets
      ensures websockets == DropFaded(old(Abs()), order).websockets && log == DropFaded(old(Abs()), order).log
      ensures numErased + |websockets| == |old(websockets)|
    {
      hide DropFaded, Enumerates;
      ghost var s := Abs();
      NothingDropped(s, order);
      numErased := 0;
      var i := 0;
      while i < |order|
        invariant 0 <= i <= |order| && numErased + |websockets| == |s.websockets|
        invariant websockets == DropFaded(s, order[..i]).websockets && log == DropFaded(s, order[..i]).log
      {
        DropFadedNext(s, order, i);
        var n := EraseIfFaded(order[i]);
        numErased := numErased + n;
        i := i + 1;
      }
      assert order[..i] == order;
    }

    /** Erases exactly the faded clients; what is left and what was erased add up. */
    method PurgeFadedClients(order: seq<Id>) returns (numPurgedClients: nat)
      requires Valid() && Legal(Abs(), Purge(order))
      modifies this`log, this`websockets
      ensures Valid() && Abs() == Next(old(Abs()), Purge(order))
      ensures websockets == LiveOnly(old(websockets))
      ensures numPurgedClients + |websockets| == |old(websockets)|
    {
      hide DropFaded, Inv, LiveOnly, Enumerates, Next, Legal;
      PurgeOutcome(Abs(), order);
      numPurgedClients := EraseFaded(order);
    }

    // ---- Responses

    method WriteResponse(id: Id, data: string, success: bool) returns (status: HttpSendStatus)
      requires Valid()
      modifies this
      ensures Valid() && Abs() == Next(old(Abs()), Respond(id, Write(data)))
      ensures status == SentAndEnded <==> id in old(requests) && success
      ensures status == SentAndEnded || status == NotSent
    {
      hide Inv;
      RespondOne(Abs(), id, Write(data));
      if id !in requests {
        return NotSent;
      }
      log := log + [Responded(id, Write(data))];
      return if success then SentAndEnded else NotSent;
    }

    method EndResponse(id: Id, data: string) returns (status: HttpSendStatus)
      requires Valid()
      modifies this
      ensures Valid() && Abs() == Next(old(Abs()), Respond(id, End(data)))
      ensures status == if id in old(requests) then SentAndEnded else NotSent
    {
      hide Inv;
      RespondOne(Abs(), id, End(data));
      if id !in requests {
        return NotSent;
      }
      log := log + [Responded(id, End(data))];
      requests := requests - {id};
      return SentAndEnded;
    }

    method TryEndResponse(id: Id, data: string, sent: bool, done: bool) returns (status: HttpSendStatus)
      requires Valid()
      modifies this
      ensures Valid() && Abs() == Next(old(Abs()), Respond(id, TryEnd(data, done)))
      ensures id !in old(requests) ==> status == NotSent
      ensures id in old(requests) ==>
                status == if sent then (if done then SentAndEnded else SentOnly)
                          else if done then EndedOnly else NotSent
    {
      hide Inv;
      RespondOne(Abs(), id, TryEnd(data, done));
      if id !in requests {
        return NotSent;
      }
      log := log + [Responded(id, TryEnd(data, done))];
      if done {
        requests := requests - {id};
      }
      return if sent then (if done then SentAndEnded else SentOnly) else if done then EndedOnly else NotSent;
    }

    method WriteResponseStatus(id: Id, statusCodeAndText: string) returns (ok: bool)
      requires Valid()
      modifies this
      ensures Valid() && Abs() == Next(old(Abs()), Respond(id, Status(statusCodeAndText)))
      ensures ok <==> id in old(requests)
    {
      hide Inv;
      RespondOne(Abs(), id, Status(statusCodeAndText));
      if id !in requests {
        return false;
      }
      log := log + [Responded(id, Status(statusCodeAndText))];
      return true;
    }

    method WriteResponseHeader(id: Id, key: string, value: string) returns (ok: bool)
      requires Valid()
      modifies this
      ensures Valid() && Abs() == Next(old(Abs()), Respond(id, Header(key, value))) && (ok <==> id in old(requests))
    {
      hide Inv;
      RespondOne(Abs(), id, Header(key, value));
      if id !in requests {
        return false;
      }
      log := log + [Responded(id, Header(key, value))];
      return true;
    }

    // ---- Polling

    /** Takes the oldest event off the queue; its payload is cut only to what fits before the terminator. */
    method GetNextDeferredEvent(hasBuffer: bool, hasPayloadBuffer: bool) returns (r: Option<DeliveredEvent>)
      requires Valid()
      modifies this
      ensures Valid()
      ensures r.Some? <==> hasBuffer && hasPayloadBuffer && old(queue) != []
      ensures Abs() == if r.Some? then Next(old(Abs()), Poll) else old(Abs())
      ensures r.Some? ==> r.value == DeliveredEvent(TypeCode(old(queue)[0].kind),
                                                    Truncate(old(queue)[0].id, CLIENT_ID_SIZE - 1),
                                                    Truncate(old(queue)[0].payload, MAX_PAYLOAD_SIZE - 1))
    {
      hide Inv;
      PollStep(Abs());
      if !hasBuffer || !hasPayloadBuffer || |queue| == 0 {
        return None;
      }
      var event := queue[0];
      delivered := delivered + [event];
      queue := queue[1..];
      return Some(DeliveredEvent(TypeCode(event.kind), Truncate(event.id, CLIENT_ID_SIZE - 1),
                                 Truncate(event.payload, MAX_PAYLOAD_SIZE - 1)));
    }
  }

  lemma {:induction false} SmallerByOne(m: map<Id, bool>, id: Id)
    requires id in m
    ensures |m - {id}| == |m| - 1
  {
    assert (m - {id}).Keys == m.Keys - {id};
  }

  lemma {:induction false} EnumerationLength<T>(order: seq<Id>, m: map<Id, T>)
    requires Enumerates(order, m)
    ensures |order| == |m|
    decreases |order|
  {
    if order == [] {
      assert m.Keys == {};
    } else {
      var init, id := order[..|order| - 1], order[|order| - 1];
      var rest := m - {id};
      assert order == init + [id];
      assert rest.Keys == m.Keys - {id};
      EnumerationLength(init, rest);
    }
  }

  lemma {:induction false} DropFadedFrame(s: State, order: seq<Id>)
    ensures var r := DropFaded(s, order); r == s.(websockets := r.websockets, log := r.log)
    decreases |order|
  {
    if order != [] { DropFadedFrame(s, order[..|order| - 1]); }
  }

  lemma {:induction false} AbortAllFrame(s: State, order: seq<Id>)
    ensures var r := AbortAll(s, order); r == s.(requests := r.requests, log := r.log)
    decreases |order|
  {
    if order != [] { AbortAllFrame(s, order[..|order| - 1]); }
  }

  /** After the loop only the registry and the log are different. */
  lemma {:induction false} PurgeOutcome(s: State, order: seq<Id>)
    requires Inv(s) && Legal(s, Purge(order))
    ensures Enumerates(order, s.websockets) && Inv(Next(s, Purge(order)))
    ensures DropFaded(s, order).websockets == LiveOnly(s.websockets)
    ensures Next(s, Purge(order)) == s.(websockets := DropFaded(s, order).websockets, log := DropFaded(s, order).log)
  {
    DropFadedKeepsInv(s, order);
    PurgeEffect(s, order);
    DropFadedFrame(s, order);
  }

  lemma {:induction false} NothingDropped(s: State, order: seq<Id>)
    ensures DropFaded(s, order[..0]) == s
  {
  }

  /** A client that has not been reached yet is still in the registry. */
  lemma {:induction false} DropFadedNext(s: State, order: seq<Id>, i: nat)
    requires Enumerates(order, s.websockets) && i < |order|
    ensures var r := DropFaded(s, order[..i]);
            && order[i] in r.websockets
            && DropFaded(s, order[..i + 1]) == if r.websockets[order[i]] then r else Drop(r, order[i])
  {
    hide EventsOf;
    assert order[..i + 1][..i] == order[..i];
    DropFadedEffect(s, order[..i]);
    assert order[i] in s.websockets && order[i] !in order[..i];
  }

  lemma {:induction false} NothingClosed(s: State, order: seq<Id>, reason: string)
    ensures CloseLive(s, order[..0], reason) == s
  {
  }

  lemma {:induction false} CloseLiveNext(s: State, order: seq<Id>, i: nat, reason: string)
    requires Enumerates(order, s.websockets) && i < |order|
    ensures var r := CloseLive(s, order[..i], reason);
            && order[i] in r.websockets
            && CloseLive(s, order[..i + 1], reason)
               == if r.websockets[order[i]] then CloseSocket(r, order[i], reason) else r
  {
    assert order[..i + 1][..i] == order[..i];
    CloseLiveSockets(s, order[..i], reason);
    assert order[i] in s.websockets;
  }

  lemma {:induction false} NothingSent(s: State, order: seq<Id>, message: string)
    ensures SendToAll(s, order[..0], message) == s
  {
  }

  lemma {:induction false} SendToAllNext(s: State, order: seq<Id>, i: nat, message: string)
    requires Enumerates(order, s.websockets) && i < |order|
    ensures order[i] in s.websockets
    ensures SendToAll(s, order[..i + 1], message).log
         == SendToAll(s, order[..i], message).log + if s.websockets[order[i]] then [Sent(order[i], message)] else []
  {
    hide SendToAll;
    BroadcastEffect(s, order[..i], message);
    SendToAllLast(s, order[..i + 1], message);
    assert order[..i + 1][..i] == order[..i];
    assert order[i] in order;
  }

  /** A broadcast changes only the log. */
  lemma {:induction false} BroadcastOutcome(s: State, order: seq<Id>, message: string)
    requires Inv(s) && Legal(s, Broadcast(order, message))
    ensures Enumerates(order, s.websockets) && Inv(Next(s, Broadcast(order, message)))
    ensures Next(s, Broadcast(order, message)) == s.(log := SendToAll(s, order, message).log)
  {
    SendToAllKeepsInv(s, order, message);
    BroadcastEffect(s, order, message);
  }

  /** After the loop only the registry and the log are different, and the registry is empty. */
  lemma {:induction false} AbortAllOutcome(s: State, order: seq<Id>)
    requires Enumerates(order, s.requests)
    ensures AbortAll(s, order) == s.(requests := map[], log := AbortAll(s, order).log) && |order| == |s.requests|
  {
    AbortAllFrame(s, order);
    AbortAllEffect(s, order);
    EnumerationLength(order, s.requests);
  }

  lemma {:induction false} NothingAborted(s: State, order: seq<Id>)
    ensures AbortAll(s, order[..0]) == s
  {
  }

  lemma {:induction false} AbortOneLog(s: State, id: Id)
    requires id in s.requests
    ensures AbortOne(s, id).log
         == s.log + [Responded(id, UNAVAILABLE), Responded(id, PLAIN_TEXT), Responded(id, SHUTTING_DOWN)]
  {
    assert s.log + [Responded(id, UNAVAILABLE)] + [Responded(id, PLAIN_TEXT)] + [Responded(id, SHUTTING_DOWN)]
        == s.log + [Responded(id, UNAVAILABLE), Responded(id, PLAIN_TEXT), Responded(id, SHUTTING_DOWN)];
  }

  /** A pending request that has not been reached yet is still registered, and gets the three operations. */
  lemma {:induction false} AbortAllNext(s: State, order: seq<Id>, n: nat)
    requires Enumerates(order, s.requests) && n < |order|
    ensures AbortAll(s, order[..n + 1]).log
         == AbortAll(s, order[..n]).log
            + [Responded(order[n], UNAVAILABLE), Responded(order[n], PLAIN_TEXT), Responded(order[n], SHUTTING_DOWN)]
  {
    hide EventsOf, AbortOne;
    assert order[..n + 1][..n] == order[..n];
    AbortAllEffect(s, order[..n]);
    assert order[n] in s.requests && order[n] !in order[..n];
    AbortOneLog(AbortAll(s, order[..n]), order[n]);
  }
}
