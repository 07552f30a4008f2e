/**
 * The in-memory persistence gateway (`MemStorage`): users and rooms in
 * insertion-ordered maps, messages, snippets and waitlist entries in arrays,
 * and one id counter per generated id. A JavaScript `Map` iterates in
 * insertion order and `set` on a present key keeps its place, so the rooms map
 * is a sequence of rooms with distinct ids; the users map only ever receives
 * fresh counter ids, so it is the sequence of users in id order.
 */
module Storage {

  import opened Wrappers
  import opened JsText
  import opened Schema
  import opened Arrays

  // ---------------------------------------------------------------------------
  // Queries (pure)
  // ---------------------------------------------------------------------------

  function Timestamp(m: Message): int { m.timestamp }

  /** The sort key that puts the newest snippet first (`b.createdAt - a.createdAt`). */
  function NewestFirst(s: Snippet): int { -s.createdAt }

  /** `getMessagesByRoom`: the stored messages of one room, oldest first. */
  function MessagesByRoom(messages: seq<Message>, roomId: string): (r: seq<Message>)
    ensures forall m :: m in r <==> m in messages && m.roomId == roomId
    ensures multiset(r) == multiset(Filter(messages, (m: Message) => m.roomId == roomId))
    ensures forall i, j :: 0 <= i < j < |r| ==> r[i].timestamp <= r[j].timestamp
  {
    SortByKey(Filter(messages, (m: Message) => m.roomId == roomId), Timestamp)
  }

  /** `getSnippetsByUser`: one user's snippets, newest first. */
  function SnippetsByUser(snippets: seq<Snippet>, userId: int): (r: seq<Snippet>)
    ensures forall s :: s in r <==> s in snippets && s.userId == userId
    ensures multiset(r) == multiset(Filter(snippets, (s: Snippet) => s.userId == userId))
    ensures forall i, j :: 0 <= i < j < |r| ==> r[i].createdAt >= r[j].createdAt
  {
    var r := SortByKey(Filter(snippets, (s: Snippet) => s.userId == userId), NewestFirst);
    assert forall i, j :: 0 <= i < j < |r| ==> NewestFirst(r[i]) <= NewestFirst(r[j]);
    r
  }

  /** `getUserByUsername`: the first user (in id order) with exactly this username. */
  function UserByUsername(users: seq<User>, username: string): (r: Option<User>)
    ensures r.Some? ==> r.value in users && r.value.username == username
    ensures r.None? <==> forall u :: u in users ==> u.username != username
    ensures UsernamesUnique(users) && r.Some? ==>
              forall u :: u in users && u.username == username ==> u == r.value
  {
    Find(users, (u: User) => u.username == username)
  }

  /** `getUser`: the user with this id. */
  function UserById(users: seq<User>, id: int): (r: Option<User>)
    ensures r.Some? ==> r.value in users && r.value.id == id
    ensures r.None? <==> forall u :: u in users ==> u.id != id
  {
    Find(users, (u: User) => u.id == id)
  }

  /** True when some message of room `roomId` was sent by user `userId` (`messages.some(...)`). */
  predicate SentIn(messages: seq<Message>, roomId: string, userId: int) {
    exists m :: m in messages && m.roomId == roomId && m.senderId == Int(userId)
  }

  function ParticipantOf(u: User): Participant { Participant(u.id, u.username) }

  /** `.map(({ id, username }) => ({ id, username }))` */
  function Project(users: seq<User>): (ps: seq<Participant>)
    ensures |ps| == |users|
    ensures forall i :: 0 <= i < |users| ==> ps[i] == ParticipantOf(users[i])
  {
    if users == [] then [] else [ParticipantOf(users[0])] + Project(users[1..])
  }

  lemma ProjectMembers(users: seq<User>)
    ensures forall p :: p in Project(users) ==> exists u :: u in users && ParticipantOf(u) == p
    ensures forall u :: u in users ==> ParticipantOf(u) in Project(users)
  {
    var ps := Project(users);
    forall p | p in ps ensures exists u :: u in users && ParticipantOf(u) == p {
      var i :| 0 <= i < |ps| && ps[i] == p;
      assert users[i] in users;
    }
    forall u | u in users ensures ParticipantOf(u) in ps {
      var i :| 0 <= i < |users| && users[i] == u;
      assert ps[i] == ParticipantOf(u);
    }
  }

  /**
   * The participants `getRoom` attaches: the creator first, then every
   * registered user who sent a message in the room, in id order, without the
   * creator's id.
   */
  function Participants(users: seq<User>, messages: seq<Message>, room: Room): (ps: seq<Participant>)
    ensures |ps| >= 1 && ps[0] == Participant(room.createdById, room.createdByUsername)
    ensures forall u :: u in users && u.id != room.createdById && SentIn(messages, room.id, u.id) ==>
              ParticipantOf(u) in ps[1..]
    ensures forall p :: p in ps[1..] ==>
              p.id != room.createdById && exists u :: u in users && ParticipantOf(u) == p && SentIn(messages, room.id, u.id)
  {
    var senders := Filter(users, (u: User) => SentIn(messages, room.id, u.id));
    var projected := Project(senders);
    ProjectMembers(senders);
    var others := Filter(projected, (p: Participant) => p.id != room.createdById);
    var ps := [Participant(room.createdById, room.createdByUsername)] + others;
    assert ps[1..] == others;
    ps
  }

  // ---------------------------------------------------------------------------
  // Rooms: an insertion-ordered map from room id to room
  // ---------------------------------------------------------------------------

  ghost predicate RoomIdsDistinct(rooms: seq<Room>) {
    forall i, j :: 0 <= i < j < |rooms| ==> rooms[i].id != rooms[j].id
  }

  /** `rooms.get(id)` */
  function FindRoom(rooms: seq<Room>, id: string): (r: Option<Room>)
    ensures r.None? <==> forall x :: x in rooms ==> x.id != id
    ensures r.Some? ==> r.value in rooms && r.value.id == id
  {
    Find(rooms, (x: Room) => x.id == id)
  }

  lemma FindRoomUnique(rooms: seq<Room>, x: Room)
    requires RoomIdsDistinct(rooms) && x in rooms
    ensures FindRoom(rooms, x.id) == Some(x)
  {
    var r := FindRoom(rooms, x.id).value;
    var i :| 0 <= i < |rooms| && rooms[i] == x;
    var j :| 0 <= j < |rooms| && rooms[j] == r;
    assert i == j;
  }

  /** `rooms.set(room.id, room)`: replaces the room with that id in place, or appends. */
  function PutRoom(rooms: seq<Room>, room: Room): (r: seq<Room>)
    requires RoomIdsDistinct(rooms)
    ensures RoomIdsDistinct(r)
    ensures FindRoom(r, room.id) == Some(room)
    ensures forall id :: id != room.id ==> FindRoom(r, id) == FindRoom(rooms, id)
    ensures |r| == if FindRoom(rooms, room.id).Some? then |rooms| else |rooms| + 1
    ensures forall x :: x in r ==> x == room || x in rooms
  {
    var i := FirstIndex(rooms, (x: Room) => x.id == room.id);
    var r := if i < |rooms| then rooms[i := room] else rooms + [room];
    PutRoomFrame(rooms, room, i, r);
    r
  }

  lemma PutRoomFrame(rooms: seq<Room>, room: Room, i: nat, r: seq<Room>)
    requires RoomIdsDistinct(rooms)
    requires i == FirstIndex(rooms, (x: Room) => x.id == room.id)
    requires r == if i < |rooms| then rooms[i := room] else rooms + [room]
    ensures RoomIdsDistinct(r)
    ensures FindRoom(r, room.id) == Some(room)
    ensures forall id :: id != room.id ==> FindRoom(r, id) == FindRoom(rooms, id)
  {
    PutRoomDistinct(rooms, room, i, r);
    FindRoomUnique(r, room);
    forall id | id != room.id ensures FindRoom(r, id) == FindRoom(rooms, id) {
      PutRoomKeeps(rooms, room, i, r, id);
    }
  }

  lemma PutRoomDistinct(rooms: seq<Room>, room: Room, i: nat, r: seq<Room>)
    requires RoomIdsDistinct(rooms)
    requires i == FirstIndex(rooms, (x: Room) => x.id == room.id)
    requires r == if i < |rooms| then rooms[i := room] else rooms + [room]
    ensures RoomIdsDistinct(r) && room in r
  {
    assert r[i] == room;
  }

  lemma PutRoomKeeps(rooms: seq<Room>, room: Room, i: nat, r: seq<Room>, id: string)
    requires RoomIdsDistinct(rooms) && RoomIdsDistinct(r)
    requires i == FirstIndex(rooms, (x: Room) => x.id == room.id)
    requires r == if i < |rooms| then rooms[i := room] else rooms + [room]
    requires id != room.id
    ensures FindRoom(r, id) == FindRoom(rooms, id)
  {
    match FindRoom(rooms, id)
    case Some(x) =>
      var k :| 0 <= k < |rooms| && rooms[k] == x;
      assert k != i && r[k] == x;
      FindRoomUnique(r, x);
    case None =>
      assert forall j :: 0 <= j < |r| && j != i ==> r[j] == rooms[j];
  }

  /**
   * The rooms after `updateRoomCode(id, code, language)`: unchanged for an
   * unknown id; otherwise that room, in place, with its code and language
   * overwritten and every other field kept.
   */
  function RoomCodeUpdated(rooms: seq<Room>, id: string, code: string, language: string): (r: seq<Room>)
    requires RoomIdsDistinct(rooms)
    ensures RoomIdsDistinct(r) && |r| == |rooms|
    ensures FindRoom(rooms, id).None? ==> r == rooms
    ensures FindRoom(rooms, id).Some? ==>
              FindRoom(r, id) == Some(FindRoom(rooms, id).value.(code := Some(code), language := language))
    ensures forall other :: other != id ==> FindRoom(r, other) == FindRoom(rooms, other)
  {
    match FindRoom(rooms, id)
    case None => rooms
    case Some(room) => PutRoom(rooms, room.(code := Some(code), language := language))
  }

  /** Replacing a stored room writes it at the index the room with that id already had. */
  lemma PutRoomInPlace(rooms: seq<Room>, room: Room)
    requires RoomIdsDistinct(rooms) && FindRoom(rooms, room.id).Some?
    ensures var i := FirstIndex(rooms, (x: Room) => x.id == room.id);
            i < |rooms| && PutRoom(rooms, room) == rooms[i := room]
  {
  }

  /** Of two code updates to the same room, the later one wins outright: the earlier one leaves no trace. */
  lemma LastWriterWins(rooms: seq<Room>, id: string, code1: string, language1: string, code2: string, language2: string)
    requires RoomIdsDistinct(rooms)
    ensures RoomCodeUpdated(RoomCodeUpdated(rooms, id, code1, language1), id, code2, language2)
            == RoomCodeUpdated(rooms, id, code2, language2)
  {
    if FindRoom(rooms, id).Some? {
      var room := FindRoom(rooms, id).value;
      var first := room.(code := Some(code1), language := language1);
      var second := room.(code := Some(code2), language := language2);
      var p := (x: Room) => x.id == id;
      var i := FirstIndex(rooms, p);
      PutRoomInPlace(rooms, first);
      var mid := rooms[i := first];
      assert FindRoom(mid, id) == Some(first);
      PutRoomInPlace(mid, second);
      assert FirstIndex(mid, p) == i;
      PutRoomInPlace(rooms, second);
    }
  }

  // ---------------------------------------------------------------------------
  // Waitlist
  // ---------------------------------------------------------------------------

  /**
   * `addToWaitlist` on the entries `waitlist`: the entry already holding the
   * e-mail, unchanged entries; or a new entry with the next id, appended.
   */
  function Enlist(waitlist: seq<WaitlistEntry>, email: string, now: Instant): (r: (WaitlistEntry, seq<WaitlistEntry>))
    ensures r.0.email == email && r.0 in r.1
    ensures (exists e :: e in waitlist && e.email == email) ==> r.1 == waitlist
    ensures (forall e :: e in waitlist ==> e.email != email) ==>
              r.0 == WaitlistEntry(|waitlist| + 1, email, now) && r.1 == waitlist + [r.0]
    ensures EmailsUnique(waitlist) ==> EmailsUnique(r.1)
  {
    match Find(waitlist, (e: WaitlistEntry) => e.email == email)
    case Some(e) => (e, waitlist)
    case None =>
      var e := WaitlistEntry(|waitlist| + 1, email, now);
      (e, waitlist + [e])
  }

  /** Adding the same e-mail twice is the same as adding it once: same entry, same entries. */
  lemma EnlistIdempotent(waitlist: seq<WaitlistEntry>, email: string, now: Instant, later: Instant)
    requires EmailsUnique(waitlist)
    ensures Enlist(Enlist(waitlist, email, now).1, email, later) == Enlist(waitlist, email, now)
  {
    var (e, w) := Enlist(waitlist, email, now);
    var found := Find(w, (x: WaitlistEntry) => x.email == email);
    assert found.Some?;
    assert found.value == e by {
      var i :| 0 <= i < |w| && w[i] == found.value;
      var j :| 0 <= j < |w| && w[j] == e;
      assert i == j;
    }
  }

  // ---------------------------------------------------------------------------
  // The store
  // ---------------------------------------------------------------------------

  class MemStorage {
    var users: seq<User>
    var rooms: seq<Room>
    var messages: seq<Message>
    var snippets: seq<Snippet>
    var waitlist: seq<WaitlistEntry>
    var usersCounter: int
    var messagesCounter: int
    var snippetsCounter: int
    var waitlistCounter: int

    /**
     * Each counter is one more than the number of records it has numbered, and
     * the record at position i holds id i + 1; room ids are distinct; stored
     * rooms carry no participants; waitlist e-mails are unique.
     */
    ghost predicate Valid()
      reads this
    {
      && (forall i :: 0 <= i < |users| ==> users[i].id == i + 1) && usersCounter == |users| + 1
      && (forall i :: 0 <= i < |messages| ==> messages[i].id == i + 1) && messagesCounter == |messages| + 1
      && (forall i :: 0 <= i < |snippets| ==> snippets[i].id == i + 1) && snippetsCounter == |snippets| + 1
      && (forall i :: 0 <= i < |waitlist| ==> waitlist[i].id == i + 1) && waitlistCounter == |waitlist| + 1
      && RoomIdsDistinct(rooms)
      && (forall x :: x in rooms ==> x.participants.None?)
      && EmailsUnique(waitlist)
    }

    constructor ()
      ensures Valid()
      ensures users == [] && rooms == [] && messages == [] && snippets == [] && waitlist == []
      ensures usersCounter == 1 && messagesCounter == 1 && snippetsCounter == 1 && waitlistCounter == 1
    {
      users, rooms, messages, snippets, waitlist := [], [], [], [], [];
      usersCounter, messagesCounter, snippetsCounter, waitlistCounter := 1, 1, 1, 1;
    }

    function GetUser(id: int): (r: Option<User>)
      reads this
      requires Valid()
      ensures r.Some? <==> 1 <= id <= |users|
      ensures r.Some? ==> r.value == users[id - 1]
    {
      var r := UserById(users, id);
      assert 1 <= id <= |users| ==> users[id - 1] in users;
      r
    }

    function GetUserByUsername(username: string): (r: Option<User>)
      reads this
      ensures r.Some? ==> r.value in users && r.value.username == username
      ensures r.None? <==> forall u :: u in users ==> u.username != username
    {
      UserByUsername(users, username)
    }

    /** `createUser`: the next user id; earlier users untouched. MemStorage itself does not check the username. */
    method CreateUser(ins: InsertUser) returns (u: User)
      requires Valid()
      modifies this
      ensures Valid()
      ensures u == User(old(usersCounter), ins.username, ins.password)
      ensures users == old(users) + [u] && usersCounter == old(usersCounter) + 1
      ensures rooms == old(rooms) && messages == old(messages) && snippets == old(snippets) && waitlist == old(waitlist)
      ensures messagesCounter == old(messagesCounter) && snippetsCounter == old(snippetsCounter)
      ensures waitlistCounter == old(waitlistCounter)
      ensures UsernamesUnique(old(users)) && old(GetUserByUsername(ins.username)).None? ==> UsernamesUnique(users)
      ensures GetUserByUsername(ins.username).Some?
    {
      u := User(usersCounter, ins.username, ins.password);
      usersCounter := usersCounter + 1;
      users := users + [u];
    }

    /** `getRooms`: every room, in insertion order. */
    function GetRooms(): (r: seq<Room>)
      reads this
      ensures r == rooms
    {
      rooms
    }

    /** `getRoom`: the stored room with its participants, or None for an unknown id. */
    function GetRoom(id: string): (r: Option<Room>)
      reads this
      ensures r.None? <==> FindRoom(rooms, id).None?
      ensures r.Some? ==> r.value == FindRoom(rooms, id).value.(participants := r.value.participants)
      ensures r.Some? ==> r.value.participants == Some(Participants(users, messages, FindRoom(rooms, id).value))
    {
      match FindRoom(rooms, id)
      case None => None
      case Some(room) => Some(room.(participants := Some(Participants(users, messages, room))))
    }

    /** `createRoom`: stores the room under its id, replacing any room with that id; a missing or empty code becomes null. */
    method CreateRoom(ins: InsertRoom) returns (room: Room)
      requires Valid()
      modifies this
      ensures Valid()
      ensures room == Room(ins.id, ins.name, ins.language, if ins.code == Some("") then None else ins.code,
                           ins.createdById, ins.createdByUsername, ins.createdAt, None)
      ensures rooms == PutRoom(old(rooms), room)
      ensures FindRoom(rooms, ins.id) == Some(room)
      ensures forall id :: id != ins.id ==> FindRoom(rooms, id) == FindRoom(old(rooms), id)
      ensures users == old(users) && messages == old(messages) && snippets == old(snippets) && waitlist == old(waitlist)
      ensures usersCounter == old(usersCounter) && messagesCounter == old(messagesCounter)
      ensures snippetsCounter == old(snippetsCounter) && waitlistCounter == old(waitlistCounter)
    {
      var code := if ins.code == Some("") then None else ins.code;
      room := Room(ins.id, ins.name, ins.language, code, ins.createdById, ins.createdByUsername, ins.createdAt, None);
      rooms := PutRoom(rooms, room);
    }

    /**
     * `updateRoomCode`: None and no change for an unknown id; otherwise the
     * room's code and language are overwritten (last writer wins), its other
     * fields and every other room are kept, and the room is read back.
     */
    method UpdateRoomCode(id: string, code: string, language: string) returns (r: Option<Room>)
      requires Valid()
      modifies this
      ensures Valid()
      ensures rooms == RoomCodeUpdated(old(rooms), id, code, language)
      ensures old(FindRoom(rooms, id)).None? ==> r.None? && rooms == old(rooms)
      ensures old(FindRoom(rooms, id)).Some? ==>
                FindRoom(rooms, id) == Some(old(FindRoom(rooms, id)).value.(code := Some(code), language := language))
                && r == GetRoom(id) && r.Some?
      ensures forall other :: other != id ==> FindRoom(rooms, other) == FindRoom(old(rooms), other)
      ensures |rooms| == |old(rooms)|
      ensures users == old(users) && messages == old(messages) && snippets == old(snippets) && waitlist == old(waitlist)
      ensures usersCounter == old(usersCounter) && messagesCounter == old(messagesCounter)
      ensures snippetsCounter == old(snippetsCounter) && waitlistCounter == old(waitlistCounter)
    {
      match FindRoom(rooms, id)
      case None =>
        r := None;
      case Some(room) =>
        rooms := PutRoom(rooms, room.(code := Some(code), language := language));
        r := GetRoom(id);
    }

    function GetMessagesByRoom(roomId: string): (r: seq<Message>)
      reads this
      ensures forall m :: m in r <==> m in messages && m.roomId == roomId
      ensures forall i, j :: 0 <= i < j < |r| ==> r[i].timestamp <= r[j].timestamp
    {
      MessagesByRoom(messages, roomId)
    }

    /** `createMessage`: the next message id; the message is appended and earlier ones are untouched. */
    method CreateMessage(ins: InsertMessage) returns (m: Message)
      requires Valid()
      modifies this
      ensures Valid()
      ensures m == MessageWithId(ins, old(messagesCounter))
      ensures messages == old(messages) + [m] && messagesCounter == old(messagesCounter) + 1
      ensures forall x :: x in old(messages) ==> x.id < m.id
      ensures users == old(users) && rooms == old(rooms) && snippets == old(snippets) && waitlist == old(waitlist)
      ensures usersCounter == old(usersCounter) && snippetsCounter == old(snippetsCounter)
      ensures waitlistCounter == old(waitlistCounter)
    {
      m := MessageWithId(ins, messagesCounter);
      messagesCounter := messagesCounter + 1;
      messages := messages + [m];
    }

    function GetSnippetsByUser(userId: int): (r: seq<Snippet>)
      reads this
      ensures forall s :: s in r <==> s in snippets && s.userId == userId
      ensures forall i, j :: 0 <= i < j < |r| ==> r[i].createdAt >= r[j].createdAt
    {
      SnippetsByUser(snippets, userId)
    }

    /** `createSnippet`: the next snippet id; a missing or empty room id becomes null. */
    method CreateSnippet(ins: InsertSnippet) returns (s: Snippet)
      requires Valid()
      modifies this
      ensures Valid()
      ensures s == SnippetWithId(ins.(roomId := if ins.roomId == Some("") then None else ins.roomId), old(snippetsCounter))
      ensures snippets == old(snippets) + [s] && snippetsCounter == old(snippetsCounter) + 1
      ensures users == old(users) && rooms == old(rooms) && messages == old(messages) && waitlist == old(waitlist)
      ensures usersCounter == old(usersCounter) && messagesCounter == old(messagesCounter)
      ensures waitlistCounter == old(waitlistCounter)
    {
      var roomId := if ins.roomId == Some("") then None else ins.roomId;
      s := SnippetWithId(ins.(roomId := roomId), snippetsCounter);
      snippetsCounter := snippetsCounter + 1;
      snippets := snippets + [s];
    }

    /** `addToWaitlist`: the existing entry for a known e-mail, with nothing changed; else a new entry with the next id. */
    method AddToWaitlist(email: string, now: Instant) returns (e: WaitlistEntry)
      requires Valid()
      modifies this
      ensures Valid()
      ensures (e, waitlist) == Enlist(old(waitlist), email, now)
      ensures waitlistCounter == |waitlist| + 1
      ensures (exists x :: x in old(waitlist) && x.email == email) ==>
                waitlist == old(waitlist) && waitlistCounter == old(waitlistCounter)
      ensures users == old(users) && rooms == old(rooms) && messages == old(messages) && snippets == old(snippets)
      ensures usersCounter == old(usersCounter) && messagesCounter == old(messagesCounter)
      ensures snippetsCounter == old(snippetsCounter)
    {
      match Find(waitlist, (x: WaitlistEntry) => x.email == email)
      case Some(existing) =>
        e := existing;
      case None =>
        e := WaitlistEntry(waitlistCounter, email, now);
        waitlistCounter := waitlistCounter + 1;
        waitlist := waitlist + [e];
    }
  }
}
