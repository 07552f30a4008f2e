/**
 * The message router of the synchronization server as a pure decision: for a
 * frame received on one connection, which deliveries it causes and what it asks
 * the store to do. `Router.RoomServer.OnMessage` performs exactly this.
 */
module Relay {

  import opened Wrappers
  import opened JsText
  import opened Schema
  import opened Arrays
  import opened Wire
  import opened Directory

  /** The types relayed to everyone in the room, the sender included. */
  const BroadcastTypes: set<string> := {"video_join", "video_leave", "cursor_update", "language_update"}
  /** The signalling types, forwarded to one target. */
  const SignalTypes: set<string> := {"video_offer", "video_answer", "video_ice_candidate"}

  /** The types the message handler has a case for. */
  predicate Handled(tag: string) {
    tag == "code_update" || tag == "chat_message" || tag in BroadcastTypes || tag in SignalTypes
  }

  /** How the router forwards one frame, by `data.type`. */
  datatype Route =
    | ToOthers          // code_update: everyone in the room but the sender
    | ToEveryone        // video_join, video_leave, cursor_update, language_update: the sender too
    | ToTarget(target: Option<JsonId>)  // video_offer, video_answer, video_ice_candidate; None: no `target` field
    | StoreThenToOthers(content: Option<string>)  // chat_message; None: no `content` field
    | Drop              // malformed frames and every other type

  /** `data.content`: present on the chat envelopes that carry one. */
  function ContentOf(e: Envelope): Option<string> {
    match e
    case ChatSend(content) => content
    case ChatStored(m) => m.content
    case _ => None
  }

  /** `data.target`: present on the signalling envelopes. */
  function TargetOf(e: Envelope): Option<JsonId> {
    if e.VideoSignal? then Some(e.target) else None
  }

  /** `data.shouldPersist`, read as a condition: an absent field is false. */
  function ShouldPersist(e: Envelope): bool {
    e.CodeUpdate? && e.shouldPersist
  }

  function RouteOf(frame: Frame): (r: Route)
    ensures r.Drop? <==> frame.Malformed? || !Handled(TypeOf(frame.data))
    ensures r.ToOthers? <==> frame.Data? && TypeOf(frame.data) == "code_update"
    ensures r.StoreThenToOthers? <==> frame.Data? && TypeOf(frame.data) == "chat_message"
    ensures r.ToEveryone? <==> frame.Data? && TypeOf(frame.data) in BroadcastTypes
    ensures r.ToTarget? <==> frame.Data? && TypeOf(frame.data) in SignalTypes
    ensures frame.Data? && frame.data.ChatSend? ==> r == StoreThenToOthers(frame.data.content)
    ensures frame.Data? && frame.data.ChatStored? ==> r == StoreThenToOthers(frame.data.message.content)
    ensures frame.Data? && frame.data.VideoSignal? ==> r == ToTarget(Some(frame.data.target))
    ensures frame.Data? && frame.data.Other? ==> (r.StoreThenToOthers? ==> r.content.None?) && (r.ToTarget? ==> r.target.None?)
  {
    match frame
    case Malformed => Drop
    case Data(data) =>
      var t := TypeOf(data);
      if t == "code_update" then ToOthers
      else if t == "chat_message" then StoreThenToOthers(ContentOf(data))
      else if t in BroadcastTypes then ToEveryone
      else if t in SignalTypes then ToTarget(TargetOf(data))
      else Drop
  }

  /**
   * Each envelope the system defines goes where its type says, and the ones
   * only a server sends (`user_joined`, `user_left`, `error`, `room_closed`)
   * are dropped when a client sends them.
   */
  lemma RouteByEnvelope(e: Envelope)
    ensures e.CodeUpdate? ==> RouteOf(Data(e)) == ToOthers
    ensures e.VideoJoin? || e.VideoLeave? || e.CursorUpdate? || e.LanguageUpdate? ==> RouteOf(Data(e)) == ToEveryone
    ensures e.UserJoined? || e.UserLeft? || e.ErrorNotice? || e.RoomClosed? ==> RouteOf(Data(e)) == Drop
    ensures e.Other? ==> (RouteOf(Data(e)).Drop? <==> !Handled(e.typeTag))
    ensures e.Other? && e.typeTag == "chat_message" ==> RouteOf(Data(e)) == StoreThenToOthers(None)
    ensures e.Other? && e.typeTag in SignalTypes ==> RouteOf(Data(e)) == ToTarget(None)
  {
  }

  /** `client.userId === data.target`: a number equals only the same number, NaN equals nothing, and nothing equals a missing target. */
  predicate IdMatches(userId: IntOrNaN, target: Option<JsonId>) {
    userId.Int? && target == Some(JNum(userId.value))
  }

  /** Connection `c` is a known client whose user id matches `target`. */
  predicate Targets(d: Dir, c: ConnId, target: Option<JsonId>) {
    c in d.clients && IdMatches(d.clients[c].userId, target)
  }

  /**
   * The member a signalling frame goes to: the first member of the room, in
   * join order, whose user id matches the target (`Array.find`), provided it
   * is OPEN; otherwise nobody.
   */
  function Unicast(d: Dir, roomId: string, target: Option<JsonId>, payload: Envelope): (out: set<Delivery>)
    ensures |out| <= 1
    ensures forall x :: x in out ==>
              x.payload == payload && IsOpen(d, x.to) &&
              exists i :: 0 <= i < |Members(d, roomId)| && Members(d, roomId)[i] == x.to && Targets(d, x.to, target)
                && forall k :: 0 <= k < i ==> !Targets(d, Members(d, roomId)[k], target)
    ensures var ms := Members(d, roomId);
            forall i :: (0 <= i < |ms| && Targets(d, ms[i], target) && IsOpen(d, ms[i])
                         && forall k :: 0 <= k < i ==> !Targets(d, ms[k], target)) ==>
              out == {Delivery(ms[i], payload)}
    ensures (forall c :: c in Members(d, roomId) ==> !Targets(d, c, target)) ==> out == {}
  {
    var members := Members(d, roomId);
    var i := FirstIndex(members, (c: ConnId) => Targets(d, c, target));
    if i < |members| && IsOpen(d, members[i]) then
      assert forall k :: 0 <= k < i ==> !Targets(d, members[k], target);
      {Delivery(members[i], payload)}
    else {}
  }

  /** The record `createMessage` is given for a chat frame: its content, the sender's parsed id and name, the room and the time. */
  function ChatInsert(c: Client, content: Option<string>, now: Instant): (i: InsertMessage)
    ensures i.content == content && i.roomId == c.roomId && i.timestamp == now
    ensures i.senderId == c.userId && i.senderName == c.username
  {
    InsertMessage(content, c.userId, c.username, c.roomId, now)
  }

  /**
   * The deliveries a frame from connection `id` causes, given the id the store
   * will give the next message and whether the store succeeds.
   */
  function Deliveries(d: Dir, id: ConnId, frame: Frame, nextMessageId: int, now: Instant, storeOk: bool): (out: set<Delivery>)
    requires id in d.clients
    ensures forall x :: x in out ==> x.to in Members(d, d.clients[id].roomId) && IsOpen(d, x.to)
    ensures RouteOf(frame).Drop? ==> out == {}
    ensures RouteOf(frame).StoreThenToOthers? && !storeOk ==> out == {}
    ensures RouteOf(frame).ToOthers? || RouteOf(frame).ToEveryone? ==> forall x :: x in out ==> x.payload == frame.data
  {
    var room := d.clients[id].roomId;
    match RouteOf(frame)
    case Drop => {}
    case ToOthers => Broadcast(d, room, frame.data, Some(id))
    case ToEveryone => Broadcast(d, room, frame.data, None)
    case ToTarget(target) => Unicast(d, room, target, frame.data)
    case StoreThenToOthers(content) =>
      if storeOk then Broadcast(d, room, ChatStored(MessageWithId(ChatInsert(d.clients[id], content, now), nextMessageId)), Some(id))
      else {}
  }

  /** Nothing a frame causes leaves the sender's room, and only OPEN connections are written to. */
  lemma DeliveriesStayInRoom(d: Dir, id: ConnId, frame: Frame, nextMessageId: int, now: Instant, storeOk: bool, x: Delivery)
    requires Valid(d) && id in d.clients
    requires x in Deliveries(d, id, frame, nextMessageId, now, storeOk)
    ensures x.to in d.clients && d.clients[x.to].roomId == d.clients[id].roomId && IsOpen(d, x.to)
  {
    var room := d.clients[id].roomId;
    assert x.to in Members(d, room);
  }

  /** code_update and chat_message never come back to their sender; the four "everyone" types reach an OPEN sender too. */
  lemma SenderEcho(d: Dir, id: ConnId, frame: Frame, nextMessageId: int, now: Instant, storeOk: bool)
    requires Valid(d) && id in d.clients
    ensures (RouteOf(frame).ToOthers? || RouteOf(frame).StoreThenToOthers?) ==>
              forall x :: x in Deliveries(d, id, frame, nextMessageId, now, storeOk) ==> x.to != id
    ensures RouteOf(frame).ToEveryone? && IsOpen(d, id) ==>
              Delivery(id, frame.data) in Deliveries(d, id, frame, nextMessageId, now, storeOk)
  {
    if RouteOf(frame).ToEveryone? && IsOpen(d, id) {
      assert id in Members(d, d.clients[id].roomId);
      assert id in Recipients(d, d.clients[id].roomId, None);
    }
  }

  /**
   * A chat frame the store rejects causes no delivery; one it accepts reaches
   * the others with the stored record, whose content is the frame's
   * `content` field, absent when the frame has none.
   */
  lemma ChatOutcome(d: Dir, id: ConnId, frame: Frame, nextMessageId: int, now: Instant, storeOk: bool)
    requires Valid(d) && id in d.clients
    ensures frame.Data? && TypeOf(frame.data) == "chat_message" && !storeOk ==>
              Deliveries(d, id, frame, nextMessageId, now, storeOk) == {}
    ensures frame.Data? && TypeOf(frame.data) == "chat_message" && storeOk ==>
              forall x :: x in Deliveries(d, id, frame, nextMessageId, now, storeOk) ==>
                x.payload.ChatStored? && x.payload.message.id == nextMessageId
                && x.payload.message.content == ContentOf(frame.data) && x.payload.message.senderName == d.clients[id].username
  {
  }

  /**
   * The chat frame the room hook sends carries its message as `text`, not
   * `content`: what the others receive has no content at all.
   */
  lemma HookChatLosesText(d: Dir, id: ConnId, nextMessageId: int, now: Instant)
    requires Valid(d) && id in d.clients
    ensures forall x :: x in Deliveries(d, id, Data(ChatSend(None)), nextMessageId, now, true) ==>
              x.payload.ChatStored? && x.payload.message.content.None?
  {
    ChatOutcome(d, id, Data(ChatSend(None)), nextMessageId, now, true);
  }

  /** A socket whose query `userId` did not parse (NaN) is never the target of a signalling frame. */
  lemma NaNNeverTargeted(d: Dir, roomId: string, target: Option<JsonId>, payload: Envelope, c: ConnId)
    requires c in d.clients && d.clients[c].userId.NaN?
    ensures Delivery(c, payload) !in Unicast(d, roomId, target, payload)
  {
  }
}
