/**
 * The synchronization server's WebSocket side as an object: the room directory
 * `activeRooms` and the accepted sockets' fields, updated in place by the
 * connection, message, pong and close handlers and by the heartbeat timer.
 * Every handler runs to completion before the next event, so each method is
 * one atomic step; each returns the deliveries it causes and is proved to
 * take the directory to the state the `Directory` and `Relay` functions name.
 */
module Router {

  import opened Wrappers
  import opened JsText
  import opened Schema
  import opened Wire
  import opened Storage
  import opened Directory
  import opened Relay
  import opened Arrays

  /** Close code for a refused handshake: policy violation, section 7.4.1 of RFC 6455. */
  const PolicyViolation := 1008

  /** `!param` is false: the query parameter is there and not empty. */
  predicate Present(p: Option<string>) {
    p.Some? && p.value != ""
  }

  /**
   * The handshake: with all three query parameters present, the socket's
   * fields (user id parsed with `parseInt`, alive, OPEN); otherwise refusal.
   */
  function Handshake(roomId: Option<string>, userId: Option<string>, username: Option<string>): (c: Option<Client>)
    ensures c.None? <==> !Present(roomId) || !Present(userId) || !Present(username)
    ensures c.Some? ==> c.value.roomId == roomId.value && c.value.username == username.value
    ensures c.Some? ==> c.value.userIdText == userId.value && c.value.userId == ParseInt(userId.value)
    ensures c.Some? ==> c.value.isAlive && c.value.readyState == Open
  {
    if Present(roomId) && Present(userId) && Present(username) then
      Some(Client(roomId.value, userId.value, ParseInt(userId.value), username.value, true, Open))
    else None
  }

  /**
   * The `user_joined` payload the connection handler sends: the user id is
   * the query-string text itself, so it never equals the parsed number the
   * matching `user_left` carries (see the findings in README.md).
   */
  function JoinedPayload(c: Client, now: Instant): (e: Envelope)
    ensures e.UserJoined? && e.userId == JStr(c.userIdText) && e.username == c.username && e.timestamp == now
    ensures e.userId != LeftPayload(c, now).userId
  {
    UserJoined(JStr(c.userIdText), c.username, now)
  }

  class RoomServer {
    /** `activeRooms`: room id to its member sockets, in join order. */
    var rooms: map<string, seq<ConnId>>
    /** The accepted sockets and their fields. */
    var clients: map<ConnId, Client>
    const storage: MemStorage

    function State(): Dir
      reads this
    {
      Dir(rooms, clients)
    }

    ghost predicate Valid()
      reads this, storage
    {
      Directory.Valid(State()) && storage.Valid()
    }

    constructor (storage: MemStorage)
      requires storage.Valid()
      ensures Valid() && this.storage == storage
      ensures rooms == map[] && clients == map[]
    {
      this.storage := storage;
      rooms := map[];
      clients := map[];
    }

    /** `broadcastToRoom`: one `send` of the payload to each OPEN member of the room but the sender. */
    method BroadcastToRoom(roomId: string, payload: Envelope, sender: Option<ConnId>) returns (out: set<Delivery>)
      ensures out == Broadcast(State(), roomId, payload, sender)
    {
      out := {};
      if roomId !in rooms {
        return;
      }
      var members := rooms[roomId];
      var i := 0;
      while i < |members|
        invariant 0 <= i <= |members|
        invariant out == Send(RecipientsAmong(State(), members[..i], sender), payload)
      {
        var c := members[i];
        RecipientsAmongSnoc(State(), members[..i], c, sender);
        assert members[..i + 1] == members[..i] + [c];
        if Some(c) != sender && c in clients && clients[c].readyState == Open {
          SendOneMore(RecipientsAmong(State(), members[..i], sender), c, payload);
          out := out + {Delivery(c, payload)};
        }
        i := i + 1;
      }
      assert members[..i] == members;
    }

    /**
     * The connection handler: a socket missing a parameter is closed with
     * 1008 and nothing changes; otherwise it joins its room (created if
     * absent) and every other OPEN member is told `user_joined`.
     */
    method Connect(id: ConnId, roomId: Option<string>, userId: Option<string>, username: Option<string>, now: Instant)
      returns (closeCode: Option<int>, out: set<Delivery>)
      requires Valid() && id !in clients
      modifies this
      ensures Valid()
      ensures Handshake(roomId, userId, username).None? ==>
                closeCode == Some(PolicyViolation) && out == {} && State() == old(State())
      ensures Handshake(roomId, userId, username).Some? ==>
                var c := Handshake(roomId, userId, username).value;
                closeCode == None && State() == Join(old(State()), id, c)
                && out == Broadcast(State(), c.roomId, JoinedPayload(c, now), Some(id))
    {
      var c := Handshake(roomId, userId, username);
      if c.None? {
        closeCode, out := Some(PolicyViolation), {};
        return;
      }
      var client := c.value;
      JoinValid(State(), id, client);
      clients := clients[id := client];
      var members := if client.roomId in rooms then rooms[client.roomId] else [];
      rooms := rooms[client.roomId := members + [id]];
      closeCode := None;
      out := BroadcastToRoom(client.roomId, JoinedPayload(client, now), Some(id));
    }

    /**
     * The message handler. The directory is untouched; the deliveries are
     * those `Relay.Deliveries` names, the next message id being the store's
     * counter. A persisted code update writes the sender's room (not the
     * frame's `roomId`); a stored chat message is appended. `storeOk` false
     * stands for a store call that throws: the store is unchanged, and a chat
     * message is then not broadcast while a code update already was.
     */
    method OnMessage(id: ConnId, frame: Frame, now: Instant, storeOk: bool) returns (out: set<Delivery>)
      requires Valid() && id in clients
      modifies storage
      ensures Valid()
      ensures out == Deliveries(State(), id, frame, old(storage.messagesCounter), now, storeOk)
      ensures storage.rooms ==
                if frame.Data? && ShouldPersist(frame.data) && storeOk
                then RoomCodeUpdated(old(storage.rooms), clients[id].roomId, frame.data.code, frame.data.language)
                else old(storage.rooms)
      ensures storage.messages ==
                if frame.Data? && TypeOf(frame.data) == "chat_message" && storeOk
                then old(storage.messages) + [MessageWithId(ChatInsert(clients[id], ContentOf(frame.data), now), old(storage.messagesCounter))]
                else old(storage.messages)
      ensures storage.users == old(storage.users) && storage.snippets == old(storage.snippets)
      ensures storage.waitlist == old(storage.waitlist)
    {
      var client := clients[id];
      var room := client.roomId;
      out := {};
      if frame.Malformed? {
        return;
      }
      var data := frame.data;
      match RouteOf(frame)
      case Drop =>
      case ToOthers =>
        out := ForwardCodeUpdate(id, data, storeOk);
      case StoreThenToOthers(content) =>
        out := StoreAndRelayChat(id, content, now, storeOk);
      case ToEveryone =>
        out := BroadcastToRoom(room, data, None);
      case ToTarget(target) =>
        out := SendToTarget(room, target, data);
    }

    /** The code_update case: relayed to the others, then written to the sender's room when asked to persist. */
    method ForwardCodeUpdate(id: ConnId, data: Envelope, storeOk: bool) returns (out: set<Delivery>)
      requires Valid() && id in clients
      modifies storage
      ensures Valid()
      ensures out == Broadcast(State(), clients[id].roomId, data, Some(id))
      ensures storage.rooms ==
                if ShouldPersist(data) && storeOk
                then RoomCodeUpdated(old(storage.rooms), clients[id].roomId, data.code, data.language)
                else old(storage.rooms)
      ensures storage.messages == old(storage.messages)
      ensures storage.users == old(storage.users) && storage.snippets == old(storage.snippets)
      ensures storage.waitlist == old(storage.waitlist)
    {
      var room := clients[id].roomId;
      out := BroadcastToRoom(room, data, Some(id));
      if ShouldPersist(data) && storeOk {
        var _ := storage.UpdateRoomCode(room, data.code, data.language);
      }
    }

    /** The chat_message case: stored, then the stored record relayed to the others; nothing when the store throws. */
    method StoreAndRelayChat(id: ConnId, content: Option<string>, now: Instant, storeOk: bool) returns (out: set<Delivery>)
      requires Valid() && id in clients
      modifies storage
      ensures Valid()
      ensures out ==
                if storeOk
                then Broadcast(State(), clients[id].roomId,
                               ChatStored(MessageWithId(ChatInsert(clients[id], content, now), old(storage.messagesCounter))), Some(id))
                else {}
      ensures storage.messages ==
                if storeOk
                then old(storage.messages) + [MessageWithId(ChatInsert(clients[id], content, now), old(storage.messagesCounter))]
                else old(storage.messages)
      ensures storage.rooms == old(storage.rooms)
      ensures storage.users == old(storage.users) && storage.snippets == old(storage.snippets)
      ensures storage.waitlist == old(storage.waitlist)
    {
      out := {};
      if storeOk {
        var saved := storage.CreateMessage(ChatInsert(clients[id], content, now));
        out := BroadcastToRoom(clients[id].roomId, ChatStored(saved), Some(id));
      }
    }

    /** The signalling forward: the first member whose user id is the target, if it is OPEN. */
    method SendToTarget(roomId: string, target: Option<JsonId>, payload: Envelope) returns (out: set<Delivery>)
      ensures out == Unicast(State(), roomId, target, payload)
    {
      ghost var d := State();
      ghost var p := (c: ConnId) => Targets(d, c, target);
      var members := if roomId in rooms then rooms[roomId] else [];
      var i := 0;
      while i < |members| && !(members[i] in clients && IdMatches(clients[members[i]].userId, target))
        invariant 0 <= i <= |members|
        invariant forall k :: 0 <= k < i ==> !p(members[k])
      {
        i := i + 1;
      }
      FirstIndexIsFirst(members, p, i);
      if i < |members| && members[i] in clients && clients[members[i]].readyState == Open {
        out := {Delivery(members[i], payload)};
      } else {
        out := {};
      }
    }

    /** The pong handler: the socket is alive again. */
    method Pong(id: ConnId)
      requires Valid()
      modifies this
      ensures Valid()
      ensures State() == Directory.Pong(old(State()), id)
    {
      if id in clients {
        clients := clients[id := clients[id].(isAlive := true)];
      }
    }

    /**
     * The close handler: the socket leaves its room; an emptied room is
     * deleted and nobody is told, otherwise the rest hear `user_left`.
     */
    method Close(id: ConnId, now: Instant) returns (out: set<Delivery>)
      requires Valid()
      modifies this
      ensures Valid()
      ensures State() == Leave(old(State()), id)
      ensures out == Departure(old(State()), id, now)
    {
      LeaveValid(State(), id);
      ghost var before := State();
      out := {};
      if id !in clients {
        return;
      }
      var client := clients[id];
      var r := client.roomId;
      clients := clients - {id};
      if r in rooms {
        var rest := Without(rooms[r], {id});
        if rest == [] {
          rooms := rooms - {r};
        } else {
          rooms := rooms[r := rest];
          out := BroadcastToRoom(r, LeftPayload(client, now), None);
        }
      }
    }

    /**
     * One tick of the heartbeat timer: every socket that has not answered
     * since the last tick is terminated, every other one is marked suspect and
     * pinged.
     */
    method Sweep() returns (pinged: set<ConnId>, terminated: set<ConnId>)
      requires Valid()
      modifies this
      ensures Valid()
      ensures State() == MarkAll(old(State()))
      ensures pinged == Survivors(old(State())) && terminated == Evicted(old(State()))
    {
      ghost var d0 := State();
      var marked;
      marked, pinged, terminated := MarkEach(State());
      clients := marked;
      MarkAllValid(d0);
    }

    /**
     * A heartbeat tick together with the close events of the sockets it
     * terminated: afterwards the directory is `AfterSweep` of the one before,
     * and each OPEN survivor has heard `user_left` for each terminated
     * member of its room. The deliveries are returned per terminated socket.
     */
    method Heartbeat(now: Instant) returns (pinged: set<ConnId>, out: map<ConnId, set<Delivery>>)
      requires Valid()
      modifies this
      ensures Valid()
      ensures State() == AfterSweep(old(State()))
      ensures pinged == Survivors(old(State()))
      ensures out == Departures(old(State()), Evicted(old(State())), now)
    {
      ghost var d0 := State();
      var terminated;
      pinged, terminated := Sweep();
      out := CloseAllTerminated(this, d0, terminated, now);
    }
  }

  /**
   * Where the closes after a sweep of `d0` stand once the sockets in `closed`
   * have closed: the server holds the directory without them and `sent`
   * holds their `user_left` messages.
   */
  ghost predicate ClosedSoFar(server: RoomServer, d0: Dir, closed: set<ConnId>, sent: map<ConnId, set<Delivery>>, now: Instant)
    reads server, server.storage
  {
    && server.Valid() && Directory.Valid(d0) && closed <= Evicted(d0)
    && server.State() == CloseAll(MarkAll(d0), closed)
    && sent == Departures(d0, closed, now)
  }

  /** The close events of the sockets a sweep terminated, one after another. */
  method CloseAllTerminated(server: RoomServer, ghost d0: Dir, terminated: set<ConnId>, now: Instant)
    returns (out: map<ConnId, set<Delivery>>)
    requires server.Valid() && Directory.Valid(d0)
    requires server.State() == MarkAll(d0) && terminated == Evicted(d0)
    modifies server
    ensures server.Valid()
    ensures server.State() == CloseAll(MarkAll(d0), terminated)
    ensures out == Departures(d0, terminated, now)
  {
    CloseNothing(MarkAll(d0));
    var todo := terminated;
    ghost var closed: set<ConnId> := {};
    out := map[];
    while todo != {}
      invariant closed !! todo && closed + todo == terminated
      invariant ClosedSoFar(server, d0, closed, out, now)
      decreases todo
    {
      var e :| e in todo;
      MoveOne(closed, todo, terminated, e);
      out := CloseTerminated(server, d0, closed, e, now, out);
      closed := closed + {e};
      todo := todo - {e};
    }
  }

  /** The close event of one more socket the sweep terminated. */
  method CloseTerminated(server: RoomServer, ghost d0: Dir, ghost closed: set<ConnId>, e: ConnId, now: Instant, sent: map<ConnId, set<Delivery>>)
    returns (out: map<ConnId, set<Delivery>>)
    requires ClosedSoFar(server, d0, closed, sent, now)
    requires e in Evicted(d0) && e !in closed
    modifies server
    ensures ClosedSoFar(server, d0, closed + {e}, out, now)
  {
    MarkAllValid(d0);
    LeaveAfterCloseAll(MarkAll(d0), closed, e);
    DepartureAfterCloseAll(d0, closed, e, now);
    var gone := server.Close(e, now);
    DeparturesOneMore(d0, closed, e, now);
    out := sent[e := gone];
  }

  /** An index before which nothing satisfies `p` and at which `p` holds (or the end) is `FirstIndex`. */
  lemma FirstIndexIsFirst<T>(s: seq<T>, p: T -> bool, i: nat)
    requires i <= |s|
    requires forall k :: 0 <= k < i ==> !p(s[k])
    requires i < |s| ==> p(s[i])
    ensures i == FirstIndex(s, p)
  {
  }

  /**
   * The loop of one heartbeat tick over every connection: a socket that did
   * not answer is set CLOSING (terminated), any other is marked suspect
   * (pinged).
   */
  method MarkEach(d0: Dir) returns (marked: map<ConnId, Client>, pinged: set<ConnId>, terminated: set<ConnId>)
    ensures Dir(d0.rooms, marked) == MarkAll(d0)
    ensures pinged == Survivors(d0) && terminated == Evicted(d0)
  {
    marked := d0.clients;
    var todo := d0.clients.Keys;
    ghost var done: set<ConnId> := {};
    pinged, terminated := {}, {};
    while todo != {}
      invariant done !! todo && done + todo == d0.clients.Keys
      invariant marked == MarkedAmong(d0.clients, done)
      invariant pinged == AliveAmong(d0.clients, done)
      invariant terminated == DeadAmong(d0.clients, done)
      decreases todo
    {
      var c :| c in todo;
      MoveOne(done, todo, d0.clients.Keys, c);
      MarkOneMore(d0.clients, done, c);
      assert marked[c] == d0.clients[c];
      if !marked[c].isAlive {
        marked := marked[c := marked[c].(readyState := Closing)];
        terminated := terminated + {c};
      } else {
        marked := marked[c := marked[c].(isAlive := false)];
        pinged := pinged + {c};
      }
      todo := todo - {c};
      done := done + {c};
    }
    MarkedAll(d0, done);
  }

  /** Moving one element from the pending part of a split to the finished part keeps it a split. */
  lemma MoveOne<T>(finished: set<T>, pending: set<T>, all: set<T>, x: T)
    requires finished !! pending && finished + pending == all && x in pending
    ensures finished + {x} !! pending - {x} && (finished + {x}) + (pending - {x}) == all
  {
  }

  /** The sockets of `clients` in `done` marked by the sweep, the others as they were. */
  ghost function MarkedAmong(clients: map<ConnId, Client>, done: set<ConnId>): map<ConnId, Client> {
    map c | c in clients :: if c in done then Mark(clients[c]) else clients[c]
  }

  /** The sockets among `done` that a sweep pings. */
  ghost function AliveAmong(clients: map<ConnId, Client>, done: set<ConnId>): set<ConnId> {
    set c | c in clients && c in done && clients[c].isAlive
  }

  /** The sockets among `done` that a sweep terminates. */
  ghost function DeadAmong(clients: map<ConnId, Client>, done: set<ConnId>): set<ConnId> {
    set c | c in clients && c in done && !clients[c].isAlive
  }

  lemma MarkOneMore(clients: map<ConnId, Client>, done: set<ConnId>, c: ConnId)
    requires c in clients && c !in done
    ensures MarkedAmong(clients, done + {c}) == MarkedAmong(clients, done)[c := Mark(clients[c])]
    ensures AliveAmong(clients, done + {c}) == AliveAmong(clients, done) + (if clients[c].isAlive then {c} else {})
    ensures DeadAmong(clients, done + {c}) == DeadAmong(clients, done) + (if clients[c].isAlive then {} else {c})
  {
  }

  lemma MarkedAll(d: Dir, done: set<ConnId>)
    requires done == d.clients.Keys
    ensures Dir(d.rooms, MarkedAmong(d.clients, done)) == MarkAll(d)
    ensures AliveAmong(d.clients, done) == Survivors(d)
    ensures DeadAmong(d.clients, done) == Evicted(d)
  {
  }

  /** The recipients of a broadcast among the first members of the room's list. */
  ghost function RecipientsAmong(d: Dir, ids: seq<ConnId>, sender: Option<ConnId>): set<ConnId> {
    set c | c in ids && Some(c) != sender && IsOpen(d, c)
  }

  lemma RecipientsAmongSnoc(d: Dir, ids: seq<ConnId>, c: ConnId, sender: Option<ConnId>)
    ensures RecipientsAmong(d, ids + [c], sender) ==
              RecipientsAmong(d, ids, sender) + (if Some(c) != sender && IsOpen(d, c) then {c} else {})
  {
  }

  lemma SendOneMore(targets: set<ConnId>, c: ConnId, payload: Envelope)
    ensures Send(targets + {c}, payload) == Send(targets, payload) + {Delivery(c, payload)}
  {
  }
}
