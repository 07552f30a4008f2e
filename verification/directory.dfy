/**
 * The room directory of the synchronization server, as a value: `activeRooms`
 * (room id to the insertion-ordered set of its connections) together with the
 * per-connection fields the server keeps (room, user id, name, liveness flag)
 * and the transport's ready state. Each event handler of the server is one
 * atomic step on this value; the functions here say what each step yields, and
 * the lemmas state what the steps guarantee.
 */
module Directory {

  import opened Wrappers
  import opened JsText
  import opened Wire

  /** Identity of one accepted WebSocket object. */
  type ConnId = nat

  /** `WebSocket.readyState`; only OPEN sockets are written to. */
  datatype ReadyState = Connecting | Open | Closing | Closed

  /** The fields the server sets on an accepted socket, and its transport state. */
  datatype Client = Client(
    roomId: string, userIdText: string, userId: IntOrNaN, username: string,
    isAlive: bool, readyState: ReadyState)

  datatype Dir = Dir(rooms: map<string, seq<ConnId>>, clients: map<ConnId, Client>)

  /** One `send` of one payload to one connection. */
  datatype Delivery = Delivery(to: ConnId, payload: Envelope)

  ghost predicate Distinct(s: seq<ConnId>) {
    forall i, j :: 0 <= i < j < |s| ==> s[i] != s[j]
  }

  /**
   * The directory invariant: a room is present iff its member set is non-empty;
   * a member set holds each connection once; every member is a live client of
   * that room, and every client is a member of its room.
   */
  ghost predicate Valid(d: Dir) {
    && (forall r :: r in d.rooms ==> d.rooms[r] != [] && Distinct(d.rooms[r]))
    && (forall r, c :: r in d.rooms && c in d.rooms[r] ==> c in d.clients && d.clients[c].roomId == r)
    && (forall c :: c in d.clients ==> d.clients[c].roomId in d.rooms && c in d.rooms[d.clients[c].roomId])
  }

  /** `activeRooms.get(roomId) || []` */
  function Members(d: Dir, roomId: string): seq<ConnId> {
    if roomId in d.rooms then d.rooms[roomId] else []
  }

  predicate IsOpen(d: Dir, c: ConnId) {
    c in d.clients && d.clients[c].readyState == Open
  }

  /** The connections `broadcastToRoom(roomId, _, sender)` writes to. */
  function Recipients(d: Dir, roomId: string, sender: Option<ConnId>): set<ConnId> {
    set c | c in Members(d, roomId) && Some(c) != sender && IsOpen(d, c)
  }

  function Broadcast(d: Dir, roomId: string, payload: Envelope, sender: Option<ConnId>): set<Delivery> {
    Send(Recipients(d, roomId, sender), payload)
  }

  /** One `send(payload)` to each connection in `targets`. */
  function Send(targets: set<ConnId>, payload: Envelope): set<Delivery> {
    set c | c in targets :: Delivery(c, payload)
  }

  /**
   * A broadcast delivers its one payload to exactly the OPEN members of the
   * room other than the sender, never across a room boundary, and nothing when
   * the room is absent.
   */
  lemma BroadcastExact(d: Dir, roomId: string, payload: Envelope, sender: Option<ConnId>, x: Delivery)
    requires Valid(d)
    ensures x in Broadcast(d, roomId, payload, sender) <==>
              x.payload == payload && roomId in d.rooms && x.to in d.rooms[roomId] && Some(x.to) != sender && IsOpen(d, x.to)
    ensures x in Broadcast(d, roomId, payload, sender) ==> d.clients[x.to].roomId == roomId
    ensures roomId !in d.rooms ==> Broadcast(d, roomId, payload, sender) == {}
  {
  }

  function Elems(s: seq<ConnId>): set<ConnId> {
    set c | c in s
  }

  lemma {:induction false} DistinctCard(s: seq<ConnId>)
    requires Distinct(s)
    ensures |Elems(s)| == |s|
  {
    if s != [] {
      var tail := s[1..];
      assert Distinct(tail) by {
        forall i, j | 0 <= i < j < |tail| ensures tail[i] != tail[j] {
          assert tail[i] == s[i + 1] && tail[j] == s[j + 1];
        }
      }
      DistinctCard(tail);
      assert s == [s[0]] + tail;
      assert Elems(s) == Elems(tail) + {s[0]};
      assert s[0] !in tail by {
        forall j | 0 <= j < |tail| ensures tail[j] != s[0] {
          assert tail[j] == s[j + 1];
        }
      }
      assert s[0] !in Elems(tail);
      assert |Elems(tail) + {s[0]}| == |Elems(tail)| + 1;
    }
  }

  lemma {:induction false} DeliveryCard(targets: set<ConnId>, payload: Envelope)
    ensures |Send(targets, payload)| == |targets|
    decreases |targets|
  {
    if targets != {} {
      var c :| c in targets;
      var rest := targets - {c};
      DeliveryCard(rest, payload);
      assert Send(targets, payload) == Send(rest, payload) + {Delivery(c, payload)};
    }
  }

  /** With every member OPEN, a broadcast that excludes a member of a room of N reaches exactly N - 1 connections. */
  lemma BroadcastReachesOthers(d: Dir, roomId: string, payload: Envelope, sender: ConnId)
    requires Valid(d)
    requires sender in Members(d, roomId)
    requires forall c :: c in Members(d, roomId) ==> IsOpen(d, c)
    ensures |Broadcast(d, roomId, payload, Some(sender))| == |Members(d, roomId)| - 1
  {
    var members := Members(d, roomId);
    var all := Elems(members);
    assert Recipients(d, roomId, Some(sender)) == all - {sender};
    assert sender in all;
    assert |all - {sender}| == |all| - 1;
    DistinctCard(members);
    DeliveryCard(Recipients(d, roomId, Some(sender)), payload);
  }

  // ---------------------------------------------------------------------------
  // Join and leave
  // ---------------------------------------------------------------------------

  /** `room.delete(c)` for every `c` in `gone`: the remaining members, in order. */
  function Without(s: seq<ConnId>, gone: set<ConnId>): (r: seq<ConnId>)
    ensures forall c :: c in r <==> c in s && c !in gone
    ensures |r| <= |s|
  {
    if s == [] then []
    else if s[0] in gone then Without(s[1..], gone)
    else [s[0]] + Without(s[1..], gone)
  }

  lemma {:induction false} WithoutDistinct(s: seq<ConnId>, gone: set<ConnId>)
    requires Distinct(s)
    ensures Distinct(Without(s, gone))
  {
    if s != [] {
      WithoutDistinct(s[1..], gone);
      assert s[0] !in s[1..];
    }
  }

  lemma {:induction false} WithoutNothing(s: seq<ConnId>, gone: set<ConnId>)
    requires forall c :: c in s ==> c !in gone
    ensures Without(s, gone) == s
  {
    if s != [] {
      WithoutNothing(s[1..], gone);
    }
  }

  lemma {:induction false} WithoutTwice(s: seq<ConnId>, a: set<ConnId>, b: set<ConnId>)
    ensures Without(Without(s, a), b) == Without(s, a + b)
  {
    if s != [] {
      WithoutTwice(s[1..], a, b);
      if s[0] !in a {
        var w := Without(s[1..], a);
        assert Without(s, a) == [s[0]] + w;
        assert ([s[0]] + w)[0] == s[0] && ([s[0]] + w)[1..] == w;
      }
    }
  }

  /** The connection handler's join: the socket is added to its room's set, which is created when absent. */
  function Join(d: Dir, id: ConnId, c: Client): Dir {
    Dir(d.rooms[c.roomId := Members(d, c.roomId) + [id]], d.clients[id := c])
  }

  /**
   * The close handler: the socket leaves its room, and the room is deleted when
   * that leaves it empty; the socket is gone from the server's clients. A
   * socket the server no longer knows changes nothing.
   */
  function Leave(d: Dir, id: ConnId): Dir {
    if id !in d.clients then d
    else
      var r := d.clients[id].roomId;
      var clients := d.clients - {id};
      if r !in d.rooms then Dir(d.rooms, clients) else Dir(LeaveRoom(d.rooms, r, id), clients)
  }

  /** The `user_left` payload for a departing client (its id as the server's parsed number). */
  function LeftPayload(c: Client, now: int): Envelope {
    UserLeft(NumberToJson(c.userId), c.username, now)
  }

  /** What the close handler sends: `user_left` to the remaining members, or nothing if the room was deleted. */
  function Departure(d: Dir, id: ConnId, now: int): set<Delivery> {
    if id in d.clients && d.clients[id].roomId in d.rooms && Without(d.rooms[d.clients[id].roomId], {id}) != [] then
      Broadcast(Leave(d, id), d.clients[id].roomId, LeftPayload(d.clients[id], now), None)
    else {}
  }

  /** A join appends the socket to its room, last in join order, and touches no other room or socket. */
  lemma JoinAppends(d: Dir, id: ConnId, c: Client)
    ensures var d' := Join(d, id, c);
            && Members(d', c.roomId) == Members(d, c.roomId) + [id]
            && (forall r :: r != c.roomId ==> Members(d', r) == Members(d, r))
            && d'.clients.Keys == d.clients.Keys + {id} && d'.clients[id] == c
            && (forall x :: x in d.clients && x != id ==> d'.clients[x] == d.clients[x])
  {
    var d' := Join(d, id, c);
    forall r | r != c.roomId ensures Members(d', r) == Members(d, r) {
    }
  }

  /**
   * A close removes the socket from the clients and from its room, deletes
   * the room exactly when that empties it, and touches no other room.
   */
  lemma LeaveRemoves(d: Dir, id: ConnId)
    ensures var d' := Leave(d, id);
            && d'.clients == d.clients - {id}
            && (id in d.clients ==> Members(d', d.clients[id].roomId) == Without(Members(d, d.clients[id].roomId), {id}))
            && (id in d.clients && d.clients[id].roomId in d.rooms ==>
                  (d.clients[id].roomId in d'.rooms <==> Without(d.rooms[d.clients[id].roomId], {id}) != []))
            && (forall r :: (id !in d.clients || r != d.clients[id].roomId) ==> Members(d', r) == Members(d, r))
  {
    var d' := Leave(d, id);
    if id in d.clients {
      var r := d.clients[id].roomId;
      forall q | q != r ensures Members(d', q) == Members(d, q) {
      }
    }
  }

  /**
   * What a close sends, in terms of the directory before it: `user_left` to
   * every other OPEN member of the departing socket's room, nothing else, and
   * nothing for a socket the server does not know.
   */
  lemma DepartureExact(d: Dir, id: ConnId, now: int, x: Delivery)
    ensures x in Departure(d, id, now) <==>
              id in d.clients && x.payload == LeftPayload(d.clients[id], now)
              && x.to in Members(d, d.clients[id].roomId) && x.to != id && IsOpen(d, x.to)
  {
    if id in d.clients {
      var r := d.clients[id].roomId;
      LeaveRemoves(d, id);
      if x.to in Members(d, r) && x.to != id {
        assert x.to in Without(Members(d, r), {id});
      }
    }
  }

  lemma JoinValid(d: Dir, id: ConnId, c: Client)
    requires Valid(d) && id !in d.clients
    ensures Valid(Join(d, id, c))
  {
    var d' := Join(d, id, c);
    var s := Members(d, c.roomId) + [id];
    assert id !in Members(d, c.roomId);
    assert Distinct(s);
    forall r, x | r in d'.rooms && x in d'.rooms[r] ensures x in d'.clients && d'.clients[x].roomId == r {
      if r == c.roomId && x != id {
        assert x in Members(d, c.roomId);
      }
    }
  }

  /** The joiner's announcement reaches exactly the OPEN members the room had before the join. */
  lemma JoinAnnouncedToOthers(d: Dir, id: ConnId, c: Client, payload: Envelope)
    requires Valid(d) && id !in d.clients
    ensures Broadcast(Join(d, id, c), c.roomId, payload, Some(id)) == Broadcast(d, c.roomId, payload, None)
  {
    var d' := Join(d, id, c);
    assert id !in Members(d, c.roomId);
    forall x ensures x in Recipients(d', c.roomId, Some(id)) <==> x in Recipients(d, c.roomId, None) {
      if x in Recipients(d, c.roomId, None) {
        assert x in Members(d', c.roomId);
      }
    }
    assert Recipients(d', c.roomId, Some(id)) == Recipients(d, c.roomId, None);
  }

  lemma LeaveValid(d: Dir, id: ConnId)
    requires Valid(d)
    ensures Valid(Leave(d, id))
  {
    if id in d.clients {
      var r := d.clients[id].roomId;
      WithoutDistinct(d.rooms[r], {id});
      var d' := Leave(d, id);
      forall x | x in d'.clients ensures d'.clients[x].roomId in d'.rooms && x in d'.rooms[d'.clients[x].roomId] {
        assert x in d.rooms[d.clients[x].roomId];
      }
    }
  }

  /** A room is in the directory iff it has members: the invariant every step keeps. */
  lemma RoomPresentIffNonEmpty(d: Dir, r: string)
    requires Valid(d)
    ensures r in d.rooms <==> exists c :: c in d.clients && d.clients[c].roomId == r
  {
    if r in d.rooms {
      var c := d.rooms[r][0];
      assert c in d.rooms[r];
      assert c in d.clients && d.clients[c].roomId == r;
    }
  }

  /** Joining and then closing a fresh socket leaves the directory as it was. */
  lemma LeaveUndoesJoin(d: Dir, id: ConnId, c: Client)
    requires Valid(d) && id !in d.clients
    ensures Leave(Join(d, id, c), id) == d
  {
    var members := Members(d, c.roomId);
    assert id !in members;
    WithoutNothing(members, {id});
    assert Without(members + [id], {id}) == members by {
      WithoutSnoc(members, id, {id});
    }
    assert (d.clients[id := c]) - {id} == d.clients;
    if c.roomId in d.rooms {
      assert d.rooms[c.roomId := members] == d.rooms;
    } else {
      assert d.rooms[c.roomId := members + [id]] - {c.roomId} == d.rooms;
    }
  }

  lemma {:induction false} WithoutSnoc(s: seq<ConnId>, x: ConnId, gone: set<ConnId>)
    ensures Without(s + [x], gone) == Without(s, gone) + (if x in gone then [] else [x])
  {
    if s != [] {
      assert (s + [x])[1..] == s[1..] + [x];
      WithoutSnoc(s[1..], x, gone);
    }
  }

  /** Closing is idempotent: a second close of the same socket changes nothing and sends nothing. */
  lemma LeaveIdempotent(d: Dir, id: ConnId, now: int)
    ensures Leave(Leave(d, id), id) == Leave(d, id)
    ensures Departure(Leave(d, id), id, now) == {}
  {
  }

  // ---------------------------------------------------------------------------
  // Heartbeat
  // ---------------------------------------------------------------------------

  /** The pong handler: the socket is marked alive. */
  function Pong(d: Dir, id: ConnId): Dir {
    if id in d.clients then d.(clients := d.clients[id := d.clients[id].(isAlive := true)]) else d
  }

  /** The sockets a sweep terminates: those that have not answered since the previous sweep. */
  function Evicted(d: Dir): set<ConnId> {
    set c | c in d.clients && !d.clients[c].isAlive
  }

  /** The sockets a sweep marks suspect and pings. */
  function Survivors(d: Dir): set<ConnId> {
    set c | c in d.clients && d.clients[c].isAlive
  }

  /** One sweep step on one socket: `terminate()` (CLOSING) if not alive, else `isAlive = false`. */
  function Mark(c: Client): Client {
    if c.isAlive then c.(isAlive := false) else c.(readyState := Closing)
  }

  function MarkAll(d: Dir): Dir {
    Dir(d.rooms, map c | c in d.clients :: Mark(d.clients[c]))
  }

  /** The directory once each socket in `gone` has been closed (in any order). */
  function CloseAll(d: Dir, gone: set<ConnId>): Dir {
    Dir(CloseRooms(d.rooms, gone), map c | c in d.clients && c !in gone :: d.clients[c])
  }

  /** Every room without the sockets in `gone`; rooms left empty are deleted. */
  function CloseRooms(rooms: map<string, seq<ConnId>>, gone: set<ConnId>): map<string, seq<ConnId>> {
    map r | r in rooms && Without(rooms[r], gone) != [] :: Without(rooms[r], gone)
  }

  /** The room update of a close handler: `r` without `e`, deleted when that leaves it empty. */
  function LeaveRoom(rooms: map<string, seq<ConnId>>, r: string, e: ConnId): map<string, seq<ConnId>>
    requires r in rooms
  {
    var rest := Without(rooms[r], {e});
    if rest == [] then rooms - {r} else rooms[r := rest]
  }

  /** The directory after a sweep and the close events of the sockets it terminated. */
  function AfterSweep(d: Dir): Dir {
    CloseAll(MarkAll(d), Evicted(d))
  }

  /** The `user_left` messages the close of a terminated socket sends: one to each OPEN survivor of its room. */
  function LeftFrames(d: Dir, e: ConnId, now: int): set<Delivery>
    requires e in d.clients
  {
    Send(Listeners(d, d.clients[e].roomId), LeftPayload(d.clients[e], now))
  }

  /**
   * The `user_left` messages the closes of the sockets in `gone` send, kept
   * apart per departed socket: two sockets of the same user in one room send
   * two identical frames to each listener.
   */
  function Departures(d: Dir, gone: set<ConnId>, now: int): map<ConnId, set<Delivery>> {
    map e | e in gone && e in d.clients :: LeftFrames(d, e, now)
  }

  /**
   * One sweep marks every socket suspect; one that was already suspect is
   * terminated (CLOSING); rooms and every other field stay as they were.
   */
  lemma MarkAllMarksEach(d: Dir)
    ensures MarkAll(d).rooms == d.rooms && MarkAll(d).clients.Keys == d.clients.Keys
    ensures forall c :: c in d.clients ==> !MarkAll(d).clients[c].isAlive
    ensures forall c :: c in d.clients ==>
              MarkAll(d).clients[c].readyState == (if d.clients[c].isAlive then d.clients[c].readyState else Closing)
    ensures forall c :: c in d.clients ==>
              MarkAll(d).clients[c].(isAlive := d.clients[c].isAlive, readyState := d.clients[c].readyState) == d.clients[c]
  {
  }

  /**
   * After a sweep and its closes, exactly the sockets that had answered
   * remain, each now suspect and otherwise unchanged, and every room keeps
   * its members but the terminated ones, in order.
   */
  lemma AfterSweepExact(d: Dir)
    ensures AfterSweep(d).clients.Keys == Survivors(d)
    ensures forall c :: c in AfterSweep(d).clients ==> AfterSweep(d).clients[c] == d.clients[c].(isAlive := false)
    ensures forall r :: Members(AfterSweep(d), r) == Without(Members(d, r), Evicted(d))
  {
    forall r ensures Members(AfterSweep(d), r) == Without(Members(d, r), Evicted(d)) {
      if r !in d.rooms {
        assert Members(d, r) == [];
      }
    }
  }

  lemma MarkAllValid(d: Dir)
    requires Valid(d)
    ensures Valid(MarkAll(d))
  {
  }

  lemma CloseAllValid(d: Dir, gone: set<ConnId>)
    requires Valid(d)
    ensures Valid(CloseAll(d, gone))
  {
    var d' := CloseAll(d, gone);
    forall r | r in d'.rooms ensures d'.rooms[r] != [] && Distinct(d'.rooms[r]) {
      WithoutDistinct(d.rooms[r], gone);
    }
    forall x | x in d'.clients ensures d'.clients[x].roomId in d'.rooms && x in d'.rooms[d'.clients[x].roomId] {
      var r := d.clients[x].roomId;
      assert x in d.rooms[r];
      assert x in Without(d.rooms[r], gone);
    }
  }

  lemma AfterSweepValid(d: Dir)
    requires Valid(d)
    ensures Valid(AfterSweep(d))
  {
    MarkAllValid(d);
    CloseAllValid(MarkAll(d), Evicted(d));
  }

  /** After a sweep every remaining socket is suspect: unless it answers, the next sweep terminates all of them. */
  lemma SweepLeavesAllSuspect(d: Dir)
    ensures Evicted(AfterSweep(d)) == AfterSweep(d).clients.Keys
    ensures AfterSweep(d).clients.Keys == Survivors(d)
  {
  }

  // ---------------------------------------------------------------------------
  // Between two sweeps: any interleaving of the other handlers

  /**
   * One handler run between two sweeps, as it changes the directory: a new
   * socket connects, a socket closes, a socket answers a ping, or a socket
   * sends a frame (which leaves the directory as it is).
   */
  datatype Event =
    | Connected(id: ConnId, client: Client)
    | Disconnected(id: ConnId)
    | Answered(id: ConnId)
    | Messaged(id: ConnId)

  function Step(d: Dir, e: Event): Dir {
    match e
    case Connected(j, c) => Join(d, j, c)
    case Disconnected(j) => Leave(d, j)
    case Answered(j) => Pong(d, j)
    case Messaged(_) => d
  }

  /** The directory after the events of `es`, in order. */
  function Replay(d: Dir, es: seq<Event>): Dir
    decreases |es|
  {
    if es == [] then d else Replay(Step(d, es[0]), es[1..])
  }

  /** The socket is unknown or has not answered since the last sweep: the next sweep terminates it. */
  predicate Suspect(d: Dir, id: ConnId) {
    id in d.clients ==> !d.clients[id].isAlive
  }

  /** The socket is known and has answered since the last sweep. */
  predicate Answering(d: Dir, id: ConnId) {
    id in d.clients && d.clients[id].isAlive
  }

  /** An event that makes `id` alive again: its pong, or a new socket under its identity. */
  predicate Wakes(e: Event, id: ConnId) {
    (e.Answered? || e.Connected?) && e.id == id
  }

  /** An event that ends or replaces the socket `id`. */
  predicate Ends(e: Event, id: ConnId) {
    (e.Disconnected? || e.Connected?) && e.id == id
  }

  lemma {:induction false} ReplayConcat(d: Dir, a: seq<Event>, b: seq<Event>)
    ensures Replay(d, a + b) == Replay(Replay(d, a), b)
    decreases |a|
  {
    if a != [] {
      assert (a + b)[0] == a[0] && (a + b)[1..] == a[1..] + b;
      ReplayConcat(Step(d, a[0]), a[1..], b);
    } else {
      assert a + b == b;
    }
  }

  /** A sweep leaves every socket suspect, whether it stays or not. */
  lemma SweepMakesSuspect(d: Dir, id: ConnId)
    ensures Suspect(AfterSweep(d), id)
  {
    SweepLeavesAllSuspect(d);
    if id in AfterSweep(d).clients {
      assert id in Evicted(AfterSweep(d));
    }
  }

  /** A suspect socket does not survive the next sweep. */
  lemma SuspectEvicted(d: Dir, id: ConnId)
    requires Suspect(d, id)
    ensures id !in AfterSweep(d).clients
  {
    AfterSweepExact(d);
  }

  /** A socket that has answered survives the next sweep. */
  lemma AnsweringSurvives(d: Dir, id: ConnId)
    requires Answering(d, id)
    ensures id in AfterSweep(d).clients
  {
    AfterSweepExact(d);
    assert id in Survivors(d);
  }

  /** Other sockets' connects, pongs and frames, and any close, leave a socket suspect. */
  lemma {:induction false} ReplayKeepsSuspect(d: Dir, es: seq<Event>, id: ConnId)
    requires Suspect(d, id)
    requires forall i :: 0 <= i < |es| ==> !Wakes(es[i], id)
    ensures Suspect(Replay(d, es), id)
    decreases |es|
  {
    if es != [] {
      assert !Wakes(es[0], id);
      ReplayKeepsSuspect(Step(d, es[0]), es[1..], id);
    }
  }

  /** Any events that neither close nor replace a socket keep it answering. */
  lemma {:induction false} ReplayKeepsAnswering(d: Dir, es: seq<Event>, id: ConnId)
    requires Answering(d, id)
    requires forall i :: 0 <= i < |es| ==> !Ends(es[i], id)
    ensures Answering(Replay(d, es), id)
    decreases |es|
  {
    if es != [] {
      assert !Ends(es[0], id);
      ReplayKeepsAnswering(Step(d, es[0]), es[1..], id);
    }
  }

  /** Any events that neither close nor replace a socket keep it connected. */
  lemma {:induction false} ReplayKeepsPresent(d: Dir, es: seq<Event>, id: ConnId)
    requires id in d.clients
    requires forall i :: 0 <= i < |es| ==> !Ends(es[i], id)
    ensures id in Replay(d, es).clients
    decreases |es|
  {
    if es != [] {
      assert !Ends(es[0], id);
      ReplayKeepsPresent(Step(d, es[0]), es[1..], id);
    }
  }

  /**
   * A socket that sends no pong between two sweeps is gone after the second,
   * whatever other sockets do in between (connect, answer, send, close).
   */
  lemma SilentSocketEvictedBySecondSweep(d: Dir, es: seq<Event>, id: ConnId)
    requires forall i :: 0 <= i < |es| ==> !Wakes(es[i], id)
    ensures id !in AfterSweep(Replay(AfterSweep(d), es)).clients
  {
    SweepMakesSuspect(d, id);
    ReplayKeepsSuspect(AfterSweep(d), es, id);
    SuspectEvicted(Replay(AfterSweep(d), es), id);
  }

  /**
   * A pong between two sweeps saves a socket that is still connected from the
   * second one, whatever other sockets do before or after it, as long as the
   * socket itself is not closed in between.
   */
  lemma PongSparesSocket(d: Dir, before: seq<Event>, after: seq<Event>, id: ConnId)
    requires id in AfterSweep(d).clients
    requires forall i :: 0 <= i < |before| ==> !Ends(before[i], id)
    requires forall i :: 0 <= i < |after| ==> !Ends(after[i], id)
    ensures id in AfterSweep(Replay(AfterSweep(d), before + [Answered(id)] + after)).clients
  {
    var d1 := AfterSweep(d);
    ReplayKeepsPresent(d1, before, id);
    var d2 := Replay(d1, before);
    var d3 := Pong(d2, id);
    assert Answering(d3, id);
    assert Replay(d2, [Answered(id)]) == d3 by {
      assert [Answered(id)][1..] == [];
    }
    ReplayConcat(d1, before, [Answered(id)]);
    ReplayConcat(d1, before + [Answered(id)], after);
    ReplayKeepsAnswering(d3, after, id);
    AnsweringSurvives(Replay(d3, after), id);
  }

  /** Closing one more socket after a set of closes is the same as closing the larger set. */
  lemma LeaveAfterCloseAll(d: Dir, closed: set<ConnId>, e: ConnId)
    requires Valid(d) && e in d.clients && e !in closed
    ensures Leave(CloseAll(d, closed), e) == CloseAll(d, closed + {e})
  {
    var r := d.clients[e].roomId;
    assert e in d.rooms[r];
    forall q | q in d.rooms && q != r ensures e !in d.rooms[q] {
    }
    CloseOneMoreRooms(d.rooms, r, closed, e);
  }

  lemma CloseOneMoreRooms(rooms: map<string, seq<ConnId>>, r: string, closed: set<ConnId>, e: ConnId)
    requires r in rooms && e in rooms[r] && e !in closed
    requires forall q :: q in rooms && q != r ==> e !in rooms[q]
    ensures r in CloseRooms(rooms, closed)
    ensures LeaveRoom(CloseRooms(rooms, closed), r, e) == CloseRooms(rooms, closed + {e})
  {
    var cur := CloseRooms(rooms, closed);
    var next := CloseRooms(rooms, closed + {e});
    assert e in Without(rooms[r], closed);
    assert r in cur;
    WithoutTwice(rooms[r], closed, {e});
    var after := LeaveRoom(cur, r, e);
    forall q | q != r ensures (q in after <==> q in next) && (q in after ==> after[q] == next[q]) {
      if q in rooms {
        CloseOtherRoom(rooms[q], closed, e);
      }
    }
    SameRooms(after, next);
  }

  lemma CloseOtherRoom(s: seq<ConnId>, closed: set<ConnId>, e: ConnId)
    requires e !in s
    ensures Without(s, closed + {e}) == Without(s, closed)
  {
    WithoutTwice(s, closed, {e});
    WithoutNothing(Without(s, closed), {e});
  }

  lemma SameRooms(a: map<string, seq<ConnId>>, b: map<string, seq<ConnId>>)
    requires forall q :: q in a <==> q in b
    requires forall q :: q in a ==> a[q] == b[q]
    ensures a == b
  {
  }

  /** The OPEN survivors of a sweep that share the room `r`. */
  function Listeners(d: Dir, r: string): set<ConnId> {
    set c | c in Survivors(d) && d.clients[c].roomId == r && d.clients[c].readyState == Open
  }

  lemma ListenersAfterCloses(d: Dir, closed: set<ConnId>, e: ConnId)
    requires Valid(d)
    requires closed <= Evicted(d) && e in Evicted(d)
    ensures Recipients(CloseAll(MarkAll(d), closed + {e}), d.clients[e].roomId, None) == Listeners(d, d.clients[e].roomId)
  {
    var next := CloseAll(MarkAll(d), closed + {e});
    var r := d.clients[e].roomId;
    forall c ensures c in Recipients(next, r, None) <==> c in Listeners(d, r) {
      if c in Listeners(d, r) {
        assert c in d.rooms[r];
        assert c !in closed + {e};
        assert c in Without(d.rooms[r], closed + {e});
      }
    }
  }

  /** A close sends `user_left` to the OPEN members its room still has after the close, and to no one else. */
  lemma DepartureReachesRemaining(d: Dir, e: ConnId, now: int)
    requires Valid(d) && e in d.clients
    ensures Departure(d, e, now) == Send(Recipients(Leave(d, e), d.clients[e].roomId, None), LeftPayload(d.clients[e], now))
  {
    var r := d.clients[e].roomId;
    if Without(d.rooms[r], {e}) == [] {
      assert Members(Leave(d, e), r) == [];
      assert Recipients(Leave(d, e), r, None) == {};
    }
  }

  /** The `user_left` messages sent when one more terminated socket closes. */
  lemma DepartureAfterCloseAll(d: Dir, closed: set<ConnId>, e: ConnId, now: int)
    requires Valid(d)
    requires closed <= Evicted(d) && e in Evicted(d) && e !in closed
    ensures Departure(CloseAll(MarkAll(d), closed), e, now) == LeftFrames(d, e, now)
  {
    DepartureToRemaining(d, closed, e, now);
    ListenersAfterCloses(d, closed, e);
  }

  lemma DepartureToRemaining(d: Dir, closed: set<ConnId>, e: ConnId, now: int)
    requires Valid(d)
    requires closed <= Evicted(d) && e in Evicted(d) && e !in closed
    ensures Departure(CloseAll(MarkAll(d), closed), e, now)
            == Send(Recipients(CloseAll(MarkAll(d), closed + {e}), d.clients[e].roomId, None), LeftPayload(d.clients[e], now))
  {
    var m := MarkAll(d);
    MarkAllValid(d);
    CloseAllValid(m, closed);
    var cur := CloseAll(m, closed);
    LeaveAfterCloseAll(m, closed, e);
    assert cur.clients[e] == Mark(d.clients[e]);
    DepartureReachesRemaining(cur, e, now);
  }

  lemma DeparturesOneMore(d: Dir, closed: set<ConnId>, e: ConnId, now: int)
    requires e in d.clients
    ensures Departures(d, closed + {e}, now) == Departures(d, closed, now)[e := LeftFrames(d, e, now)]
  {
  }

  /** Closing no socket changes nothing. */
  lemma CloseNothing(d: Dir)
    requires Valid(d)
    ensures CloseAll(d, {}) == d
  {
    forall r | r in d.rooms ensures Without(d.rooms[r], {}) == d.rooms[r] {
      WithoutNothing(d.rooms[r], {});
    }
    SameRooms(CloseRooms(d.rooms, {}), d.rooms);
  }
}
