/**
 * The client's view of a room: the state the room hook keeps (code, language,
 * users, chat messages, cursors), the update each inbound envelope applies,
 * and the two editor actions that change local state and send an envelope.
 */
module RoomState {

  import opened Wrappers
  import opened Arrays
  import opened Wire

  /** An entry of the user list: `{ id: data.userId, username }`. */
  datatype UserEntry = UserEntry(id: JsonId, username: string)

  datatype State = State(
    code: string, language: string, users: seq<UserEntry>, messages: seq<Envelope>, cursors: seq<Cursor>)

  /** The hook's initial state. */
  function Initial(): (s: State)
    ensures s.code == "" && s.language == "javascript"
    ensures s.users == [] && s.messages == [] && s.cursors == []
  {
    State("", "javascript", [], [], [])
  }

  predicate UniqueUserIds(users: seq<UserEntry>) {
    forall i, j :: 0 <= i < j < |users| ==> users[i].id != users[j].id
  }

  predicate UniqueCursorIds(cursors: seq<Cursor>) {
    forall i, j :: 0 <= i < j < |cursors| ==> cursors[i].userId != cursors[j].userId
  }

  /** What every reachable state satisfies: no user id and no cursor user id occurs twice. */
  predicate Inv(s: State) {
    UniqueUserIds(s.users) && UniqueCursorIds(s.cursors)
  }

  /**
   * The cursor upsert: the cursor of the same user is replaced at its index,
   * every other entry kept where it was; a cursor of a new user is appended.
   */
  function Upsert(cursors: seq<Cursor>, c: Cursor): (r: seq<Cursor>)
    ensures (forall k :: 0 <= k < |cursors| ==> cursors[k].userId != c.userId) ==> r == cursors + [c]
    ensures UniqueCursorIds(cursors) ==>
              forall k :: 0 <= k < |cursors| && cursors[k].userId == c.userId ==> r == cursors[k := c]
    ensures UniqueCursorIds(cursors) ==> UniqueCursorIds(r)
  {
    var i := FirstIndex(cursors, (x: Cursor) => x.userId == c.userId);
    if i < |cursors| then
      var r := cursors[..i] + [c] + cursors[i + 1..];
      assert r == cursors[i := c];
      r
    else cursors + [c]
  }

  /** The `user_joined` update: the user is appended unless some entry already has its id. */
  function AddUser(users: seq<UserEntry>, id: JsonId, username: string): (r: seq<UserEntry>)
    ensures (exists u :: u in users && u.id == id) ==> r == users
    ensures (forall u :: u in users ==> u.id != id) ==> r == users + [UserEntry(id, username)]
    ensures UniqueUserIds(users) ==> UniqueUserIds(r)
    ensures exists u :: u in r && u.id == id
  {
    if exists u | u in users :: u.id == id then users
    else
      var r := users + [UserEntry(id, username)];
      assert r[|users|] in r;
      r
  }

  /** The `user_left` update on the user list: every entry with that id goes, the others stay in order. */
  function RemoveUser(users: seq<UserEntry>, id: JsonId): (r: seq<UserEntry>)
    ensures forall u :: u in r <==> u in users && u.id != id
    ensures UniqueUserIds(users) ==> UniqueUserIds(r)
  {
    var r := Filter(users, (u: UserEntry) => u.id != id);
    FilterUnique(users, id);
    r
  }

  /** The `user_left` update on the cursors: every cursor of that user goes, the others stay in order. */
  function RemoveCursor(cursors: seq<Cursor>, id: JsonId): (r: seq<Cursor>)
    ensures forall c :: c in r <==> c in cursors && c.userId != id
    ensures UniqueCursorIds(cursors) ==> UniqueCursorIds(r)
  {
    var r := Filter(cursors, (c: Cursor) => c.userId != id);
    FilterUniqueCursors(cursors, id);
    r
  }

  lemma {:induction false} FilterUnique(users: seq<UserEntry>, id: JsonId)
    ensures UniqueUserIds(users) ==> UniqueUserIds(Filter(users, (u: UserEntry) => u.id != id))
  {
    if users != [] && UniqueUserIds(users) {
      var tail := users[1..];
      FilterUnique(tail, id);
      var p := (u: UserEntry) => u.id != id;
      assert Filter(users, p) == (if p(users[0]) then [users[0]] else []) + Filter(tail, p);
      forall u | u in Filter(tail, p) ensures u.id != users[0].id {
        var k :| 0 <= k < |tail| && tail[k] == u;
        assert users[k + 1] == u;
      }
    }
  }

  lemma {:induction false} FilterUniqueCursors(cursors: seq<Cursor>, id: JsonId)
    ensures UniqueCursorIds(cursors) ==> UniqueCursorIds(Filter(cursors, (c: Cursor) => c.userId != id))
  {
    if cursors != [] && UniqueCursorIds(cursors) {
      var tail := cursors[1..];
      FilterUniqueCursors(tail, id);
      var p := (c: Cursor) => c.userId != id;
      assert Filter(cursors, p) == (if p(cursors[0]) then [cursors[0]] else []) + Filter(tail, p);
      forall c | c in Filter(tail, p) ensures c.userId != cursors[0].userId {
        var k :| 0 <= k < |tail| && tail[k] == c;
        assert cursors[k + 1] == c;
      }
    }
  }

  /** The `onmessage` switch: the state after one inbound envelope. */
  function Apply(s: State, data: Envelope): (t: State)
    ensures !data.CodeUpdate? ==> t.code == s.code
    ensures !data.LanguageUpdate? ==> t.language == s.language
    ensures t.messages == s.messages + (if data.ChatSend? || data.ChatStored? then [data] else [])
    ensures !data.UserJoined? && !data.UserLeft? ==> t.users == s.users
    ensures !data.CursorUpdate? && !data.UserLeft? ==> t.cursors == s.cursors
  {
    match data
    case CodeUpdate(_, code, _, _, _) => s.(code := code)
    case LanguageUpdate(_, language, _) => s.(language := language)
    case ChatSend(_) => s.(messages := s.messages + [data])
    case ChatStored(_) => s.(messages := s.messages + [data])
    case CursorUpdate(c) => s.(cursors := Upsert(s.cursors, c))
    case UserJoined(id, username, _) => s.(users := AddUser(s.users, id, username))
    case UserLeft(id, _, _) => s.(users := RemoveUser(s.users, id), cursors := RemoveCursor(s.cursors, id))
    case _ => s
  }

  /** An unparsable frame makes `JSON.parse` throw before the switch: nothing changes. */
  function Receive(s: State, frame: Frame): (t: State)
    ensures frame.Malformed? ==> t == s
    ensures s.messages <= t.messages
  {
    match frame
    case Malformed => s
    case Data(data) => Apply(s, data)
  }

  /** The state after a sequence of frames. */
  function ReceiveAll(s: State, frames: seq<Frame>): (t: State)
    ensures (forall k :: 0 <= k < |frames| ==> frames[k].Malformed?) ==> t == s
    ensures s.messages <= t.messages
    decreases |frames|
  {
    if frames == [] then s else ReceiveAll(Receive(s, frames[0]), frames[1..])
  }

  /** Every envelope keeps user ids and cursor user ids unique. */
  lemma ApplyKeepsInv(s: State, data: Envelope)
    requires Inv(s)
    ensures Inv(Apply(s, data))
  {
  }

  /** From the initial state, any sequence of frames yields a state with unique user ids and unique cursor ids. */
  lemma {:induction false} ReachableInv(s: State, frames: seq<Frame>)
    requires Inv(s)
    ensures Inv(ReceiveAll(s, frames))
    decreases |frames|
  {
    if frames != [] {
      if frames[0].Data? {
        ApplyKeepsInv(s, frames[0].data);
      }
      ReachableInv(Receive(s, frames[0]), frames[1..]);
    }
  }

  /** `user_left` removes that user and that user's cursor, and keeps everyone else in their order. */
  lemma UserLeftRemoves(s: State, id: JsonId, username: string, at: int)
    ensures var t := Apply(s, UserLeft(id, username, at));
            && (forall u :: u in t.users <==> u in s.users && u.id != id)
            && (forall c :: c in t.cursors <==> c in s.cursors && c.userId != id)
            && t.code == s.code && t.language == s.language && t.messages == s.messages
  {
  }

  /** Removal keeps the others in order: removing an absent id changes nothing, and removal distributes over concatenation. */
  lemma RemoveUserKeepsOrder(a: seq<UserEntry>, b: seq<UserEntry>, id: JsonId)
    ensures RemoveUser(a + b, id) == RemoveUser(a, id) + RemoveUser(b, id)
    ensures (forall u :: u in a ==> u.id != id) ==> RemoveUser(a, id) == a
  {
    FilterConcat(a, b, (u: UserEntry) => u.id != id);
    if forall u :: u in a ==> u.id != id {
      FilterKeepsAll(a, (u: UserEntry) => u.id != id);
    }
  }

  /** A chat message is appended at the end; earlier messages are untouched. */
  lemma ChatAppends(s: State, data: Envelope)
    requires data.ChatStored? || data.ChatSend?
    ensures Apply(s, data).messages == s.messages + [data]
    ensures Apply(s, data).messages[..|s.messages|] == s.messages
  {
  }

  /** Code and language updates overwrite: of two in a row only the later one shows. */
  lemma LastUpdateWins(s: State, first: Envelope, second: Envelope)
    requires (first.CodeUpdate? && second.CodeUpdate?) || (first.LanguageUpdate? && second.LanguageUpdate?)
    ensures Apply(Apply(s, first), second) == Apply(s, second)
  {
  }

  /**
   * `updateCode`: the local code is set in every case; a `code_update`
   * carrying the user's numeric id, the room, the current language and
   * `shouldPersist: true` is sent only when the connection is OPEN and both a
   * user and a non-empty room id exist.
   */
  function UpdateCode(s: State, newCode: string, connOpen: bool, userId: Option<int>, roomId: Option<string>)
    : (r: (State, Option<Envelope>))
    ensures r.0 == s.(code := newCode)
    ensures r.1.Some? <==> connOpen && userId.Some? && roomId.Some? && roomId.value != ""
    ensures r.1.Some? ==> r.1.value == CodeUpdate(JNum(userId.value), newCode, roomId.value, s.language, true)
  {
    var out := if connOpen && userId.Some? && roomId.Some? && roomId.value != "" then
                 Some(CodeUpdate(JNum(userId.value), newCode, roomId.value, s.language, true))
               else None;
    (s.(code := newCode), out)
  }

  /** `updateLanguage`: like `updateCode`, for the language, with a `language_update`. */
  function UpdateLanguage(s: State, newLanguage: string, connOpen: bool, userId: Option<int>, roomId: Option<string>)
    : (r: (State, Option<Envelope>))
    ensures r.0 == s.(language := newLanguage)
    ensures r.1.Some? <==> connOpen && userId.Some? && roomId.Some? && roomId.value != ""
    ensures r.1.Some? ==> r.1.value == LanguageUpdate(JNum(userId.value), newLanguage, roomId.value)
  {
    var out := if connOpen && userId.Some? && roomId.Some? && roomId.value != "" then
                 Some(LanguageUpdate(JNum(userId.value), newLanguage, roomId.value))
               else None;
    (s.(language := newLanguage), out)
  }

  /** A peer that applies the envelope an editor action sent ends with the sender's code or language. */
  lemma PeersConverge(s: State, peer: State, text: string, connOpen: bool, userId: Option<int>, roomId: Option<string>)
    ensures var (mine, out) := UpdateCode(s, text, connOpen, userId, roomId);
            out.Some? ==> Apply(peer, out.value).code == mine.code && Apply(peer, out.value).language == peer.language
    ensures var (mine, out) := UpdateLanguage(s, text, connOpen, userId, roomId);
            out.Some? ==> Apply(peer, out.value).language == mine.language && Apply(peer, out.value).code == peer.code
  {
  }
}
