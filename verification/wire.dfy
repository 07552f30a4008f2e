/**
 * The JSON envelopes exchanged over a room connection, keyed by their `type`
 * field. Fields the system never reads are not modelled.
 */
module Wire {

  import opened Wrappers
  import opened JsText
  import opened Schema

  /**
   * A user id as it arrives in decoded JSON: a number, a string, or null
   * (`JSON.stringify` writes NaN as null). On these values JavaScript's `===`
   * is exactly equality.
   */
  datatype JsonId = JNum(n: int) | JStr(s: string) | JNull

  /** How a server-side number is written into a JSON payload. */
  function NumberToJson(x: IntOrNaN): (j: JsonId)
    ensures j.JStr? == false
    ensures x.NaN? ==> j == JNull
    ensures x.Int? ==> j == JNum(x.value)
  {
    match x
    case NaN => JNull
    case Int(n) => JNum(n)
  }

  /** A cursor position as the client sends and stores it. */
  datatype Cursor = Cursor(userId: JsonId, username: string, lineNumber: int, column: int)

  datatype SignalKind = Offer | Answer | IceCandidate

  datatype Envelope =
    | CodeUpdate(userId: JsonId, code: string, roomId: string, language: string, shouldPersist: bool)  // "code_update"
    | LanguageUpdate(userId: JsonId, language: string, roomId: string)  // "language_update"
    | ChatSend(content: Option<string>)                          // "chat_message", as a client sends it; None: no `content` field
    | ChatStored(message: Message)                               // "chat_message", the stored record the server relays
    | CursorUpdate(cursor: Cursor)                               // "cursor_update"
    | VideoJoin(userId: JsonId, username: string)                // "video_join"
    | VideoSignal(kind: SignalKind, userId: JsonId, target: JsonId, signal: string)
                                                                 // "video_offer" / "video_answer" / "video_ice_candidate"
    | VideoLeave(userId: JsonId)                                 // "video_leave"
    | UserJoined(userId: JsonId, username: string, timestamp: Instant)  // "user_joined"
    | UserLeft(userId: JsonId, username: string, timestamp: Instant)    // "user_left"
    | ErrorNotice(reason: string)                               // "error"
    | RoomClosed                                                 // "room_closed"
    | Other(typeTag: string)                                     // a frame of this type with none of the fields above

  /** The envelope's `type` field. */
  function TypeOf(e: Envelope): string {
    match e
    case CodeUpdate(_, _, _, _, _) => "code_update"
    case LanguageUpdate(_, _, _) => "language_update"
    case ChatSend(_) => "chat_message"
    case ChatStored(_) => "chat_message"
    case CursorUpdate(_) => "cursor_update"
    case VideoJoin(_, _) => "video_join"
    case VideoSignal(kind, _, _, _) =>
      (match kind case Offer => "video_offer" case Answer => "video_answer" case IceCandidate => "video_ice_candidate")
    case VideoLeave(_) => "video_leave"
    case UserJoined(_, _, _) => "user_joined"
    case UserLeft(_, _, _) => "user_left"
    case ErrorNotice(_) => "error"
    case RoomClosed => "room_closed"
    case Other(tag) => tag
  }

  /** An inbound frame: text that `JSON.parse` rejects, or a decoded envelope. */
  datatype Frame = Malformed | Data(data: Envelope)
}
