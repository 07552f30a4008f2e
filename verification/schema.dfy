/**
 * The record shapes of the persisted tables (users, rooms, messages, snippets,
 * waitlist), the shapes callers pass to create them, and the result of a code
 * run. Text timestamps are represented by their time value in milliseconds,
 * which is all that the store and the router ever compare.
 */
module Schema {

  import opened Wrappers
  import opened JsText

  /** The time value (milliseconds since the epoch) of an ISO-8601 timestamp string. */
  type Instant = int

  datatype InsertUser = InsertUser(username: string, password: string)

  /** A user; `id` is generated by the store, `username` is unique among users. */
  datatype User = User(id: int, username: string, password: string)

  datatype Participant = Participant(id: int, username: string)

  /** What a caller gives to create a room: everything but the participants; `code` may be left out (None). */
  datatype InsertRoom = InsertRoom(
    id: string, name: string, language: string, code: Option<string>,
    createdById: int, createdByUsername: string, createdAt: Instant)

  /** A room; `code` may be null (None), `participants` is present only on rooms read back through the store. */
  datatype Room = Room(
    id: string, name: string, language: string, code: Option<string>,
    createdById: int, createdByUsername: string, createdAt: Instant,
    participants: Option<seq<Participant>>)

  /**
   * A chat message before the store gives it an id. The sender id is what
   * `parseInt` made of the connection's user id; `content` is None when the
   * frame it came from had none, which the store does not reject.
   */
  datatype InsertMessage = InsertMessage(
    content: Option<string>, senderId: IntOrNaN, senderName: string, roomId: string, timestamp: Instant)

  datatype Message = Message(
    id: int, content: Option<string>, senderId: IntOrNaN, senderName: string, roomId: string, timestamp: Instant)

  /** A snippet before the store gives it an id; `roomId` is optional. */
  datatype InsertSnippet = InsertSnippet(
    title: string, code: string, language: string, userId: int, roomId: Option<string>, createdAt: Instant)

  datatype Snippet = Snippet(
    id: int, title: string, code: string, language: string, userId: int, roomId: Option<string>, createdAt: Instant)

  /** A waitlist entry; `email` is unique among entries. The insert shape is the e-mail alone. */
  datatype WaitlistEntry = WaitlistEntry(id: int, email: string, createdAt: Instant)

  /** The result of running code: a success flag with an optional output and an optional error text. */
  datatype CompileResult = CompileResult(success: bool, output: Option<string>, error: Option<string>)

  /** A stored message with its generated id dropped: the insert shape omits exactly `id`. */
  function MessageInsertOf(m: Message): (i: InsertMessage)
  {
    InsertMessage(m.content, m.senderId, m.senderName, m.roomId, m.timestamp)
  }

  function MessageWithId(i: InsertMessage, id: int): (m: Message)
    ensures m.id == id && MessageInsertOf(m) == i
  {
    Message(id, i.content, i.senderId, i.senderName, i.roomId, i.timestamp)
  }

  function SnippetInsertOf(s: Snippet): (i: InsertSnippet)
  {
    InsertSnippet(s.title, s.code, s.language, s.userId, s.roomId, s.createdAt)
  }

  function SnippetWithId(i: InsertSnippet, id: int): (s: Snippet)
    ensures s.id == id && SnippetInsertOf(s) == i
  {
    Snippet(id, i.title, i.code, i.language, i.userId, i.roomId, i.createdAt)
  }

  /** Every stored message is its insert shape plus its id, so the two shapes differ in `id` alone. */
  lemma MessageShapesDifferOnlyInId(m: Message)
    ensures MessageWithId(MessageInsertOf(m), m.id) == m
  {
  }

  lemma SnippetShapesDifferOnlyInId(s: Snippet)
    ensures SnippetWithId(SnippetInsertOf(s), s.id) == s
  {
  }

  /** The unique constraint on `users.username`. */
  ghost predicate UsernamesUnique(users: seq<User>) {
    forall i, j :: 0 <= i < j < |users| ==> users[i].username != users[j].username
  }

  /** The unique constraint on `waitlist.email`. */
  ghost predicate EmailsUnique(entries: seq<WaitlistEntry>) {
    forall i, j :: 0 <= i < j < |entries| ==> entries[i].email != entries[j].email
  }
}
