/**
 * Who a client believes is in the room, across a join and a leave. The
 * server announces a join with the user id as the raw query-string text
 * (`Router.JoinedPayload`, what `Router.RoomServer.Connect` sends) and a
 * leave with the parsed number; the client removes users by strict equality,
 * so a user announced by the first is never removed by the second. This
 * module states that discrepancy on the payloads as the server writes them,
 * and proves the intended behaviour for a corrected join payload that
 * carries the parsed number too.
 */
module Presence {

  import opened Wrappers
  import opened JsText
  import opened Wire
  import opened Directory
  import opened Router
  import opened RoomState

  /** The corrected `user_joined` payload: the user id is the same parsed number the matching `user_left` carries. */
  function CorrectedJoinedPayload(c: Client, now: int): (e: Envelope)
    ensures e.UserJoined? && e.username == c.username && e.timestamp == now
    ensures e.userId == LeftPayload(c, now).userId
  {
    UserJoined(NumberToJson(c.userId), c.username, now)
  }

  /**
   * With the payloads as written, a peer that saw someone join and then leave
   * still lists them: the leave names a number, the entry holds a string.
   */
  lemma AsWrittenLeaveKeepsUser(peer: State, c: Client, joinedAt: int, leftAt: int)
    ensures var t := Apply(Apply(peer, JoinedPayload(c, joinedAt)), LeftPayload(c, leftAt));
            exists u :: u in t.users && u.id == JStr(c.userIdText)
  {
    var joined := Apply(peer, JoinedPayload(c, joinedAt));
    var u :| u in joined.users && u.id == JStr(c.userIdText);
    assert NumberToJson(c.userId) != JStr(c.userIdText);
    assert u in Apply(joined, LeftPayload(c, leftAt)).users;
  }

  /** The concrete case: user 7 joins an empty room view and leaves, and the view still shows them. */
  lemma AsWrittenGhostUserExample()
    ensures var c := Handshake(Some("room"), Some("7"), Some("ann")).value;
            Apply(Apply(Initial(), JoinedPayload(c, 0)), LeftPayload(c, 1)).users == [UserEntry(JStr("7"), "ann")]
  {
    HandshakeOfUserSeven();
    GhostUserOf(Client("room", "7", Int(7), "ann", true, Open));
  }

  lemma HandshakeOfUserSeven()
    ensures Handshake(Some("room"), Some("7"), Some("ann")) == Some(Client("room", "7", Int(7), "ann", true, Open))
  {
    ParseSeven();
  }

  lemma ParseSeven()
    ensures ParseInt("7") == Int(7)
  {
    SevenText();
    ParseIntOfDecimal(7, []);
  }

  lemma SevenText()
    ensures IntToDecimal(7) + [] == "7"
  {
    assert Abs(7) == 7;
    assert NatToDecimal(7) == "7";
  }

  lemma GhostUserOf(c: Client)
    requires c == Client("room", "7", Int(7), "ann", true, Open)
    ensures Apply(Apply(Initial(), JoinedPayload(c, 0)), LeftPayload(c, 1)).users == [UserEntry(JStr("7"), "ann")]
  {
    var joined := Apply(Initial(), JoinedPayload(c, 0));
    assert joined.users == [UserEntry(JStr("7"), "ann")];
    assert LeftPayload(c, 1).userId == JNum(7);
  }

  /**
   * With the corrected join payload, join then leave removes the user from
   * the peer's list (and any cursor of theirs), whatever the id text was,
   * and every other user stays.
   */
  lemma JoinThenLeaveRemovesUser(peer: State, c: Client, joinedAt: int, leftAt: int)
    ensures var t := Apply(Apply(peer, CorrectedJoinedPayload(c, joinedAt)), LeftPayload(c, leftAt));
            && (forall u :: u in t.users ==> u.id != CorrectedJoinedPayload(c, joinedAt).userId)
            && (forall x :: x in t.cursors ==> x.userId != CorrectedJoinedPayload(c, joinedAt).userId)
            && (forall u :: u in peer.users && u.id != CorrectedJoinedPayload(c, joinedAt).userId ==> u in t.users)
  {
  }

  /** The corrected payload keeps a peer's list free of duplicates and its join is visible until the leave. */
  lemma CorrectedJoinIsListed(peer: State, c: Client, joinedAt: int)
    requires Inv(peer)
    ensures var t := Apply(peer, CorrectedJoinedPayload(c, joinedAt));
            Inv(t) && exists u :: u in t.users && u.id == NumberToJson(c.userId)
  {
  }
}
