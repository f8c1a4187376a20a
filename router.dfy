/** The messenger server's router: how one received message is dispatched to its
    handler, which frames the handlers publish, which replies go back on the
    request-reply socket, and the periodic maintenance of the main loop.

    Each handler is specified by a function on `Core`, the part of the server
    state the handlers change (the session table, the pending store, the id
    counter and the log of published frames); the methods of `Server` are proved
    against those functions, and the properties of the server are lemmas about them. */
module Router {
  import opened CString
  import opened Protocol
  import opened Utils
  import opened UserManager
  import opened MessageStore

  /** The address the session table records for a client reached through the
      reply socket (the C code stores the socket pointer). */
  const REP_SOCKET: nat := 1

  const INACTIVE_TIMEOUT: int := 300
  const MESSAGE_MAX_AGE: int := 604800
  const CLEANUP_PERIOD: int := 60

  // ---------------------------------------------------------------------
  // Frames published on the PUB socket

  /** A frame the server publishes, by what it announces. */
  datatype Frame =
    | Chat(kind: string, message: Message)     // "MSG" for a direct message, "OFFLINE" for a stored one
    | Broadcast(message: Message)
    | Welcome(login: string, time: nat)
    | StatusNotice(login: string, status: int, time: nat)

  /** "kind:sender:receiver:text:timestamp" formatted into a buffer of `capacity`
      bytes: snprintf keeps the longest prefix that leaves room for the NUL. */
  function Format(kind: string, sender: string, receiver: string, text: string, timestamp: nat, capacity: nat): (r: string)
    ensures r <= kind + ":" + sender + ":" + receiver + ":" + text + ":" + NatToString(timestamp)
    ensures capacity > 0 ==> |r| < capacity
    ensures |kind + ":" + sender + ":" + receiver + ":" + text + ":" + NatToString(timestamp)| < capacity ==>
      r == kind + ":" + sender + ":" + receiver + ":" + text + ":" + NatToString(timestamp)
  {
    Take(kind + ":" + sender + ":" + receiver + ":" + text + ":" + NatToString(timestamp), capacity - 1)
  }

  /** The text of a status notice, printed into a 256-byte buffer. */
  function NoticeText(login: string, status: int): string {
    Take("User " + login + " is now " + StatusToString(status), 255)
  }

  /** The bytes a frame puts on the PUB socket. The chat and broadcast frames are
      printed into 1024-byte buffers, the greeting into a 256-byte one, and the
      status notice is assembled with strcpy/strcat in a 2048-byte buffer from a
      timestamp that went through a 32-bit field. */
  function Wire(f: Frame): string {
    match f
    case Chat(kind, m) => Format(kind, m.sender, m.receiver, m.text, m.timestamp, 1024)
    case Broadcast(m) => Format("BROADCAST", m.sender, "*", m.text, m.timestamp, 1024)
    case Welcome(login, time) => Format("SYS", "system", "*", "Welcome " + login + " to the chat!", time, 256)
    case StatusNotice(login, status, time) => Format("SYS", "system", "*", NoticeText(login, status), ToUint32(time), 2048)
  }

  /** One OFFLINE frame per delivered message, in delivery order. */
  function OfflineFrames(ms: seq<Message>): seq<Frame> {
    seq(|ms|, i requires 0 <= i < |ms| => Chat("OFFLINE", ms[i]))
  }

  /** A number below 10^k has at most k decimal digits. */
  lemma {:induction false} NatToStringLength(n: nat, k: nat)
    requires 1 <= k && n < Pow10(k)
    ensures |NatToString(n)| <= k
  {
    if n >= 10 {
      assert k >= 2;
      assert n / 10 < Pow10(k - 1);
      NatToStringLength(n / 10, k - 1);
    }
  }

  function Pow10(k: nat): (r: nat)
    ensures r >= 1
  {
    if k == 0 then 1 else 10 * Pow10(k - 1)
  }

  /** The status notice is never cut: its text holds at most 255 characters and
      a 32-bit timestamp at most 10 digits, far below the 2048-byte buffer. */
  lemma StatusNoticeUncut(login: string, status: int, now: nat)
    ensures Wire(StatusNotice(login, status, now))
            == "SYS:system:*:" + NoticeText(login, status) + ":" + NatToString(ToUint32(now))
  {
    assert Pow10(10) == 10000000000;
    NatToStringLength(ToUint32(now), 10);
    var full := "SYS" + ":" + "system" + ":" + "*" + ":" + NoticeText(login, status) + ":" + NatToString(ToUint32(now));
    assert full == "SYS:system:*:" + NoticeText(login, status) + ":" + NatToString(ToUint32(now));
    TakeOfShort(full, 2047);
  }

  lemma OfflineFramesSnoc(ms: seq<Message>, i: nat)
    requires i < |ms|
    ensures OfflineFrames(ms[..i + 1]) == OfflineFrames(ms[..i]) + [Chat("OFFLINE", ms[i])]
  {
    assert ms[..i + 1][..i] == ms[..i];
  }

  // ---------------------------------------------------------------------
  // The user list reply

  const USERS_PREFIX: string := "Online users: "

  /** The logins separated by ", ". */
  function JoinLogins(ls: seq<string>): string {
    if ls == [] then []
    else JoinLogins(ls[..|ls| - 1]) + (if |ls| > 1 then ", " else "") + ls[|ls| - 1]
  }

  /** ls lists every member of s exactly once. */
  ghost predicate Enumerates(ls: seq<string>, s: set<string>) {
    && (forall i, j :: 0 <= i < j < |ls| ==> ls[i] != ls[j])
    && (forall l :: l in ls <==> l in s)
  }

  /** The snprintf loop that appends ", login" pieces to "Online users: " in a
      2048-byte buffer. snprintf returns the length it would have written, so
      once a piece is cut the offset passes the end of the buffer and the loop stops. */
  method BuildUserList(logins: seq<string>) returns (text: string)
    ensures text == Take(USERS_PREFIX + JoinLogins(logins), 2047)
  {
    text := USERS_PREFIX;
    var offset := |USERS_PREFIX|;
    var i := 0;
    while i < |logins|
      invariant 0 <= i <= |logins|
      invariant offset == |USERS_PREFIX + JoinLogins(logins[..i])|
      invariant text == Take(USERS_PREFIX + JoinLogins(logins[..i]), 2047)
    {
      var remaining := 2048 - offset;
      if remaining <= 0 {
        JoinLoginsPrefix(logins, i);
        LongPrefixTake(USERS_PREFIX + JoinLogins(logins[..i]), JoinRest(logins, i), 2047);
        return;
      }
      var piece := (if i > 0 then ", " else "") + logins[i];
      var written := |piece|;
      TakeOfShort(USERS_PREFIX + JoinLogins(logins[..i]), 2047);
      TakeAppend(text, piece, 2047);
      text := text + Take(piece, remaining - 1);
      if written > 0 {
        offset := offset + written;
      }
      assert logins[..i + 1][..i] == logins[..i];
      assert USERS_PREFIX + JoinLogins(logins[..i + 1]) == USERS_PREFIX + JoinLogins(logins[..i]) + piece;
      i := i + 1;
    }
    assert logins[..i] == logins;
  }

  /** The part of the joined list that follows the first i logins. */
  function JoinRest(ls: seq<string>, i: nat): string
    requires i <= |ls|
    decreases |ls| - i
  {
    if i == |ls| then [] else (if i > 0 then ", " else "") + ls[i] + JoinRest(ls, i + 1)
  }

  lemma {:induction false} JoinLoginsPrefix(ls: seq<string>, i: nat)
    requires i <= |ls|
    ensures JoinLogins(ls) == JoinLogins(ls[..i]) + JoinRest(ls, i)
    decreases |ls| - i
  {
    if i < |ls| {
      JoinLoginsPrefix(ls, i + 1);
      assert ls[..i + 1][..i] == ls[..i];
      assert JoinLogins(ls[..i + 1]) == JoinLogins(ls[..i]) + (if i > 0 then ", " else "") + ls[i];
    } else {
      assert ls[..i] == ls;
    }
  }

  lemma LongPrefixTake(s: string, t: string, n: nat)
    requires |s| >= n
    ensures Take(s + t, n) == Take(s, n)
  {
    assert (s + t)[..n] == s[..n];
  }

  /** Each login is shorter than the login array, so each piece of the list
      adds at most 33 characters. */
  lemma {:induction false} JoinLoginsLength(ls: seq<string>)
    requires forall i :: 0 <= i < |ls| ==> |ls[i]| < MAX_LOGIN_LENGTH
    ensures |JoinLogins(ls)| <= 33 * |ls|
  {
    if ls != [] {
      JoinLoginsLength(ls[..|ls| - 1]);
    }
  }

  /** With at most 14 users online the reply carries the complete list. */
  lemma UserListComplete(ls: seq<string>)
    requires |ls| <= 14
    requires forall i :: 0 <= i < |ls| ==> |ls[i]| < MAX_LOGIN_LENGTH
    ensures Take(USERS_PREFIX + JoinLogins(ls), MAX_MESSAGE_LENGTH - 1) == USERS_PREFIX + JoinLogins(ls)
  {
    JoinLoginsLength(ls);
    TakeOfShort(USERS_PREFIX + JoinLogins(ls), MAX_MESSAGE_LENGTH - 1);
  }

  /** Every login of the list occurs in the joined text, delimited as the list writes it. */
  lemma {:induction false} JoinLoginsMentions(ls: seq<string>, k: nat)
    requires k < |ls|
    ensures exists a, b :: JoinLogins(ls) == a + ls[k] + b && (k > 0 ==> |a| >= 2 && a[|a| - 2..] == ", ")
  {
    var init := ls[..|ls| - 1];
    if k == |ls| - 1 {
      var a := JoinLogins(init) + (if |ls| > 1 then ", " else "");
      assert JoinLogins(ls) == a + ls[k] + [];
    } else {
      JoinLoginsMentions(init, k);
      var a, b :| JoinLogins(init) == a + init[k] + b && (k > 0 ==> |a| >= 2 && a[|a| - 2..] == ", ");
      var b' := b + (if |ls| > 1 then ", " else "") + ls[|ls| - 1];
      assert JoinLogins(ls) == a + ls[k] + b';
    }
  }

  // ---------------------------------------------------------------------
  // Replies on the request-reply socket

  /** The generic reply text of process_message. */
  function OkOrError(e: ErrorCode): (r: string)
    ensures r == "OK" <==> e == Success
    ensures e != Success ==> r == "Error"
  {
    if e == Success then "OK" else "Error"
  }

  /** The info text of a reply: the given text cut to the info array, or the
      standard text of the error code when none is given. */
  function ResponseInfo(code: ErrorCode, info: Option<string>): (r: string)
    ensures |r| < MAX_MESSAGE_LENGTH
    ensures info.Some? ==> r <= info.value && (|info.value| < MAX_MESSAGE_LENGTH ==> r == info.value)
    ensures info.None? && code == Success ==> r == "Success"
    ensures info.None? && code !in {Success, LoginExists, LoginNotFound, UserOffline} ==> r == "Unknown error"
  {
    if info.Some? then Take(info.value, MAX_MESSAGE_LENGTH - 1)
    else match code
      case Success => "Success"
      case LoginExists => "Login already exists"
      case LoginNotFound => "User not found"
      case UserOffline => "User is offline"
      case _ => "Unknown error"
  }

  // ---------------------------------------------------------------------
  // The handlers, as functions on the state they change

  datatype Core = Core(
    sessions: map<string, Session>,
    pending: seq<PendingNode>,
    counter: nat,
    published: seq<Frame>)

  /** Stored logins fit the login array and stored statuses lie in the enumeration. */
  predicate CoreValid(c: Core) {
    forall l :: l in c.sessions ==> |l| < MAX_LOGIN_LENGTH && IsStatus(c.sessions[l].status)
  }

  /** server_deliver_offline_messages: the login's pending messages leave the
      store and go out as OFFLINE frames. */
  function Drained(c: Core, login: string): Core {
    c.(pending := NotForReceiver(c.pending, login),
       published := c.published + OfflineFrames(Messages(ForReceiver(c.pending, login))))
  }

  function RegisterOutcome(c: Core, msg: Message, rep: bool, now: nat): (r: (Core, ErrorCode))
    ensures r.1 != Success ==> r.0 == c
    ensures r.1 == InvalidLogin <==> !IsValidLogin(msg.sender)
  {
    if !IsValidLogin(msg.sender) then (c, InvalidLogin)
    else if !rep then (c, InvalidMessage)
    else if msg.sender in c.sessions then (c, LoginExists)
    else
      var session := Session(USER_STATUS_ONLINE, now, Some(REP_SOCKET), 0);
      (Drained(c.(sessions := c.sessions[msg.sender := session],
                  published := c.published + [Welcome(msg.sender, now)]), msg.sender), Success)
  }

  function LoginOutcome(c: Core, msg: Message, rep: bool, now: nat): (r: (Core, ErrorCode))
    ensures r.1 != Success ==> r.0 == c
    ensures r.1 == Success <==> rep && IsValidLogin(msg.sender)
  {
    if !rep then (c, InvalidMessage)
    else if !IsValidLogin(msg.sender) then (c, InvalidLogin)
    else
      var login := msg.sender;
      var keep := login in c.sessions && c.sessions[login].status != USER_STATUS_OFFLINE;
      var status := if keep then c.sessions[login].status else USER_STATUS_ONLINE;
      (Drained(c.(sessions := c.sessions[login := Session(status, now, Some(REP_SOCKET), 0)]), login), Success)
  }

  function LogoutOutcome(c: Core, msg: Message, now: nat): (r: (Core, ErrorCode))
    ensures r.1 != Success ==> r.0 == c
    ensures r.1 == Success <==> msg.sender in c.sessions
    ensures r.1 != Success ==> r.1 == LoginNotFound
  {
    if msg.sender !in c.sessions then (c, LoginNotFound)
    else
      var s := c.sessions[msg.sender];
      (c.(sessions := c.sessions[msg.sender := s.(status := USER_STATUS_OFFLINE, address := None, lastActivity := now)]), Success)
  }

  function TextOutcome(c: Core, msg: Message, now: nat): (r: (Core, ErrorCode))
    ensures r.1 != Success ==> r.0 == c
    ensures r.0.sessions == c.sessions && r.0.counter == c.counter
  {
    if msg.sender !in c.sessions then (c, NotAuthorized)
    else if msg.receiver !in c.sessions then (c, LoginNotFound)
    else if msg.receiver in OnlineSet(c.sessions) then
      (c.(published := c.published + [Chat("MSG", msg)]), Success)
    else if |c.pending| < MAX_PENDING_MESSAGES then
      (c.(pending := [NewNode(msg, now)] + c.pending), Success)
    else (c, ServerFull)
  }

  function BroadcastOutcome(c: Core, msg: Message): (r: (Core, ErrorCode))
    ensures r.1 != Success ==> r.0 == c
    ensures r.1 == Success <==> msg.sender in c.sessions
  {
    if msg.sender !in c.sessions then (c, NotAuthorized)
    else (c.(published := c.published + [Broadcast(msg)]), Success)
  }

  function GetUsersOutcome(c: Core, msg: Message, rep: bool): (r: (Core, ErrorCode))
    ensures r.0 == c
    ensures r.1 == Success <==> rep && msg.sender in c.sessions
  {
    if !rep then (c, InvalidMessage)
    else if msg.sender !in c.sessions then (c, NotAuthorized)
    else (c, Success)
  }

  /** The status a set-status request asks for: the name is read without regard
      to case, but a text that reads as OFFLINE is accepted only as exactly "offline". */
  function RequestedStatus(text: string): (r: Option<int>)
    ensures r.Some? ==> IsStatus(r.value)
    ensures r.Some? && r.value != USER_STATUS_OFFLINE ==> LowerAll(Take(text, 31)) == StatusToString(r.value)
    ensures r == Some(USER_STATUS_OFFLINE) <==> text == "offline"
  {
    var status := StringToStatus(text);
    if status == USER_STATUS_OFFLINE && text != "offline" then None else Some(status)
  }

  /** The 32-bit message counter after generate_message_id. */
  function NextCounter(n: nat): nat {
    (n + 1) % UINT32
  }

  function SetStatusOutcome(c: Core, msg: Message, now: nat): (r: (Core, ErrorCode))
    ensures r.1 != Success ==> r.0 == c
    ensures r.0.pending == c.pending
  {
    StatusOutcome(c, msg.sender, RequestedStatus(msg.text), now)
  }

  /** A status change once the requested status is known. */
  function StatusOutcome(c: Core, login: string, requested: Option<int>, now: nat): (r: (Core, ErrorCode))
    ensures r.1 != Success ==> r.0 == c
    ensures r.0.pending == c.pending
  {
    if requested.None? then (c, InvalidMessage)
    else if login !in c.sessions then (c, LoginNotFound)
    else
      var status := requested.value;
      var s := c.sessions[login];
      (c.(sessions := c.sessions[login := s.(status := status, lastActivity := now)],
          counter := NextCounter(c.counter),
          published := c.published + [StatusNotice(login, status, now)]), Success)
  }

  /** server_process_message without its generic reply. */
  function Dispatch(c: Core, msg: Message, rep: bool, now: nat): (r: (Core, ErrorCode))
    ensures r.1 != Success ==> r.0 == c
    ensures !(MSG_TYPE_REGISTER <= msg.msgType <= MSG_TYPE_SET_STATUS) ==> r == (c, InvalidMessage)
  {
    if msg.msgType == MSG_TYPE_REGISTER then RegisterOutcome(c, msg, rep, now)
    else if msg.msgType == MSG_TYPE_LOGIN then LoginOutcome(c, msg, rep, now)
    else if msg.msgType == MSG_TYPE_GET_USERS then GetUsersOutcome(c, msg, rep)
    else if msg.msgType == MSG_TYPE_UNREGISTER then LogoutOutcome(c, msg, now)
    else if msg.msgType == MSG_TYPE_TEXT_MESSAGE then TextOutcome(c, msg, now)
    else if msg.msgType == MSG_TYPE_SET_STATUS then SetStatusOutcome(c, msg, now)
    else if msg.msgType == MSG_TYPE_BROADCAST then BroadcastOutcome(c, msg)
    else (c, InvalidMessage)
  }

  // ---------------------------------------------------------------------
  // Properties of the handlers

  /** No handler lets an over-long login or an out-of-range status into the table. */
  lemma DispatchKeepsSessionsValid(c: Core, msg: Message, rep: bool, now: nat)
    requires CoreValid(c)
    ensures CoreValid(Dispatch(c, msg, rep, now).0)
  {
    var r := Dispatch(c, msg, rep, now);
    if r.1 == Success {
      var l := msg.sender;
      if msg.msgType == MSG_TYPE_REGISTER || msg.msgType == MSG_TYPE_LOGIN {
        var s := r.0.sessions[l];
        assert r.0.sessions == c.sessions[l := s];
        SessionInsertKeepsValid(c.sessions, l, s);
      } else if msg.msgType == MSG_TYPE_UNREGISTER || msg.msgType == MSG_TYPE_SET_STATUS {
        var s := r.0.sessions[l];
        assert r.0.sessions == c.sessions[l := s];
        SessionInsertKeepsValid(c.sessions, l, s);
      } else {
        assert r.0.sessions == c.sessions;
      }
    }
  }

  lemma SessionInsertKeepsValid(m: map<string, Session>, l: string, s: Session)
    requires forall k :: k in m ==> |k| < MAX_LOGIN_LENGTH && IsStatus(m[k].status)
    requires |l| < MAX_LOGIN_LENGTH && IsStatus(s.status)
    ensures CoreValid(Core(m[l := s], [], 0, []))
  {
  }

  /** Delivery loses and duplicates nothing: every pending message either stays
      in the store or is published as exactly one OFFLINE frame, and nothing for
      the login is left behind. */
  lemma DrainedAccountsForEveryMessage(c: Core, login: string)
    ensures var r := Drained(c, login);
      && multiset(r.pending) + multiset(ForReceiver(c.pending, login)) == multiset(c.pending)
      && c.published <= r.published
      && |r.published| == |c.published| + |ForReceiver(c.pending, login)|
      && ForReceiver(r.pending, login) == []
      && r.sessions == c.sessions
  {
    DrainPartitions(c.pending, login);
    DrainIdempotent(c.pending, login);
  }

  /** A login publishes every message pending for that user as an OFFLINE
      frame and leaves none of them in the store. */
  lemma LoginDeliversPending(c: Core, login: Message, later: nat, node: PendingNode)
    requires IsValidLogin(login.sender)
    requires node in c.pending && node.message.receiver == login.sender
    ensures var (c2, e2) := LoginOutcome(c, login, true, later);
      && e2 == Success
      && Chat("OFFLINE", node.message) in c2.published[|c.published|..]
      && ForReceiver(c2.pending, login.sender) == []
  {
    var l := login.sender;
    var keep := l in c.sessions && c.sessions[l].status != USER_STATUS_OFFLINE;
    var status := if keep then c.sessions[l].status else USER_STATUS_ONLINE;
    var mid := c.(sessions := c.sessions[l := Session(status, later, Some(REP_SOCKET), 0)]);
    var mine := ForReceiver(mid.pending, l);
    assert node in mine;
    var k :| 0 <= k < |mine| && mine[k] == node;
    var frames := OfflineFrames(Messages(mine));
    assert frames[k] == Chat("OFFLINE", node.message);
    var c2 := Drained(mid, l);
    assert c2.published[|c.published|..] == frames;
    DrainIdempotent(mid.pending, l);
  }

  /** Store and forward: a message to a registered user who is offline is kept
      rather than published, and that user's next login publishes it as an
      OFFLINE frame and empties their share of the store. */
  lemma StoreAndForward(c: Core, msg: Message, now: nat, login: Message, later: nat)
    requires msg.sender in c.sessions && msg.receiver in c.sessions
    requires msg.receiver !in OnlineSet(c.sessions)
    requires |c.pending| < MAX_PENDING_MESSAGES
    requires login.sender == msg.receiver && IsValidLogin(login.sender)
    ensures var (c1, e1) := TextOutcome(c, msg, now);
      && e1 == Success
      && c1.published == c.published
      && var (c2, e2) := LoginOutcome(c1, login, true, later);
      && e2 == Success
      && Chat("OFFLINE", msg) in c2.published[|c.published|..]
      && ForReceiver(c2.pending, msg.receiver) == []
  {
    var (c1, e1) := TextOutcome(c, msg, now);
    assert c1.pending == [NewNode(msg, now)] + c.pending;
    LoginDeliversPending(c1, login, later, NewNode(msg, now));
  }

  /** A text message between two known users reaches its receiver exactly once:
      as one MSG frame when the receiver is online, otherwise as one stored node
      (or not at all, with SERVER_FULL, when the store is full). */
  lemma TextRoutedByPresence(c: Core, msg: Message, now: nat)
    requires msg.msgType == MSG_TYPE_TEXT_MESSAGE
    requires msg.sender in c.sessions && msg.receiver in c.sessions
    ensures var (c1, e) := Dispatch(c, msg, false, now);
      && c1.sessions == c.sessions
      && (msg.receiver in OnlineSet(c.sessions) ==>
            e == Success && c1.published == c.published + [Chat("MSG", msg)] && c1.pending == c.pending)
      && (msg.receiver !in OnlineSet(c.sessions) ==>
            c1.published == c.published
            && (e == Success <==> |c.pending| < MAX_PENDING_MESSAGES)
            && (e == Success ==> c1.pending == [NewNode(msg, now)] + c.pending)
            && (e != Success ==> e == ServerFull && c1 == c))
  {
  }

  /** A successful registration publishes the welcome frame, then one OFFLINE
      frame per message that was waiting for the new user, and leaves nothing
      pending for that user. */
  lemma RegisterPublishesWelcomeThenOffline(c: Core, msg: Message, now: nat)
    requires IsValidLogin(msg.sender) && msg.sender !in c.sessions
    ensures var (c1, e) := RegisterOutcome(c, msg, true, now);
      && e == Success
      && c1.sessions == c.sessions[msg.sender := Session(USER_STATUS_ONLINE, now, Some(REP_SOCKET), 0)]
      && c1.published == c.published + [Welcome(msg.sender, now)]
                         + OfflineFrames(Messages(ForReceiver(c.pending, msg.sender)))
      && ForReceiver(c1.pending, msg.sender) == []
  {
    DrainIdempotent(c.pending, msg.sender);
  }

  /** The client's keep-alive text is not a status name: a set-status request
      carrying it is refused. */
  lemma HeartbeatIsNoStatus(c: Core, msg: Message, now: nat)
    requires msg.text == "heartbeat"
    ensures SetStatusOutcome(c, msg, now) == (c, InvalidMessage)
  {
    assert LowerAll(Take(msg.text, 31)) == "heartbeat";
    assert StringToStatus(msg.text) == USER_STATUS_OFFLINE;
    assert RequestedStatus(msg.text) == None;
  }

  /** A text message from an unknown sender, or to an unknown receiver, is
      refused before anything changes. */
  lemma TextRefusedForUnknownUsers(c: Core, msg: Message, rep: bool, now: nat)
    requires msg.msgType == MSG_TYPE_TEXT_MESSAGE
    ensures msg.sender !in c.sessions ==> Dispatch(c, msg, rep, now) == (c, NotAuthorized)
    ensures msg.sender in c.sessions && msg.receiver !in c.sessions ==>
              Dispatch(c, msg, rep, now) == (c, LoginNotFound)
  {
  }

  /** Once a user has logged out, text addressed to them is stored rather than published. */
  lemma LoggedOutReceiverGetsStored(c: Core, bye: Message, msg: Message, now: nat, later: nat)
    requires bye.sender in c.sessions && msg.sender in c.sessions
    requires msg.receiver == bye.sender
    requires |c.pending| < MAX_PENDING_MESSAGES
    ensures var (c1, e1) := LogoutOutcome(c, bye, now);
      && e1 == Success
      && var (c2, e2) := TextOutcome(c1, msg, later);
      && e2 == Success
      && c2.published == c1.published
      && c2.pending == [NewNode(msg, later)] + c.pending
  {
    var (c1, e1) := LogoutOutcome(c, bye, now);
    assert msg.receiver !in OnlineSet(c1.sessions);
  }

  /** A known user who names a status the way status_to_string spells it gets that status. */
  lemma SetStatusByName(c: Core, msg: Message, status: int, now: nat)
    requires IsStatus(status) && msg.sender in c.sessions
    requires msg.text == StatusToString(status)
    ensures var (c1, e) := SetStatusOutcome(c, msg, now);
      && e == Success
      && c1.sessions[msg.sender].status == status
      && c1.published == c.published + [StatusNotice(msg.sender, status, now)]
  {
    StatusNameRoundTrip(status);
  }

  /** The status names are read without regard to case, except "offline", which
      is compared exactly: "Away" is accepted while "Offline" is refused. */
  lemma OfflineIsCaseSensitive()
    ensures RequestedStatus("Offline") == None
  {
    assert LowerAll(Take("Offline", 31)) == "offline";
  }

  lemma AwayIsCaseInsensitive()
    ensures RequestedStatus("Away") == Some(USER_STATUS_AWAY)
  {
    assert LowerAll(Take("Away", 31)) == "away";
  }

  /** A second registration of the same login is refused and changes nothing. */
  lemma RegisterTwiceRefused(c: Core, msg: Message, now: nat, later: nat)
    requires IsValidLogin(msg.sender) && msg.sender !in c.sessions
    ensures var (c1, e1) := RegisterOutcome(c, msg, true, now);
      && e1 == Success
      && c1.sessions[msg.sender].status == USER_STATUS_ONLINE
      && RegisterOutcome(c1, msg, true, later) == (c1, LoginExists)
  {
  }

  // ---------------------------------------------------------------------
  // The server

  class Server {
    const directory: SessionDirectory
    const store: Store
    const ids: IdGenerator
    /** Every frame published on the PUB socket, oldest first. */
    var published: seq<Frame>
    /** Every reply the request-reply socket accepted, oldest first. */
    var replies: seq<ServerResponse>
    /** The request-reply socket has received a request and not yet answered it. */
    var awaitingReply: bool
    /** messages_processed: full-size messages received on either socket. */
    var processed: nat
    /** The static last_cleanup of the main loop. */
    var lastCleanup: int

    predicate Valid()
      reads this, directory, store, ids
    {
      directory.Valid() && store.Valid() && ids.Valid()
    }

    function Snapshot(): Core
      reads this, directory, store, ids
    {
      Core(directory.sessions, store.pending, ids.counter, published)
    }

    constructor ()
      ensures Valid() && fresh(directory) && fresh(store) && fresh(ids)
      ensures Snapshot() == Core(map[], [], 0, [])
      ensures replies == [] && !awaitingReply && processed == 0 && lastCleanup == 0
    {
      directory := new SessionDirectory();
      store := new Store();
      ids := new IdGenerator();
      published := [];
      replies := [];
      awaitingReply := false;
      processed := 0;
      lastCleanup := 0;
    }

    /** zmq_send on the request-reply socket: accepted once per received request. */
    method SendReply(resp: ServerResponse) returns (rc: int)
      modifies this
      ensures old(awaitingReply) ==> rc == 0 && replies == old(replies) + [resp] && !awaitingReply
      ensures !old(awaitingReply) ==> rc == -1 && replies == old(replies) && !awaitingReply
      ensures published == old(published) && processed == old(processed) && lastCleanup == old(lastCleanup)
    {
      if awaitingReply {
        replies := replies + [resp];
        awaitingReply := false;
        rc := 0;
      } else {
        rc := -1;
      }
    }

    /** server_send_response over the request-reply socket. */
    method SendResponse(originalType: int, originalId: nat, code: ErrorCode, info: Option<string>) returns (rc: int)
      modifies this
      ensures old(awaitingReply) ==>
        (rc == 0 && !awaitingReply
         && replies == old(replies) + [ServerResponse(originalType, originalId, code, ResponseInfo(code, info))])
      ensures !old(awaitingReply) ==> rc == -1 && replies == old(replies) && !awaitingReply
      ensures published == old(published) && processed == old(processed) && lastCleanup == old(lastCleanup)
    {
      rc := SendReply(ServerResponse(originalType, originalId, code, ResponseInfo(code, info)));
    }

    /** The publishing loop of server_deliver_offline_messages. */
    method PublishOffline(ms: seq<Message>)
      modifies this
      ensures published == old(published) + OfflineFrames(ms)
      ensures replies == old(replies) && awaitingReply == old(awaitingReply)
      ensures processed == old(processed) && lastCleanup == old(lastCleanup)
    {
      var i := 0;
      while i < |ms|
        invariant 0 <= i <= |ms|
        invariant published == old(published) + OfflineFrames(ms[..i])
        invariant replies == old(replies) && awaitingReply == old(awaitingReply)
        invariant processed == old(processed) && lastCleanup == old(lastCleanup)
      {
        OfflineFramesSnoc(ms, i);
        published := published + [Chat("OFFLINE", ms[i])];
        i := i + 1;
      }
      assert ms[..i] == ms;
    }

    /** server_deliver_offline_messages */
    method DeliverOffline(login: string) returns (e: ErrorCode)
      requires Valid()
      modifies this, store
      ensures Valid() && e == Success
      ensures Snapshot() == Drained(old(Snapshot()), login)
      ensures replies == old(replies) && awaitingReply == old(awaitingReply)
      ensures processed == old(processed) && lastCleanup == old(lastCleanup)
    {
      var _, delivered := store.DeliverForUser(login);
      PublishOffline(delivered);
      e := Success;
    }

    /** server_handle_register; `rep` tells whether the request came with a reply socket. */
    method HandleRegister(msg: Message, rep: bool, now: nat) returns (e: ErrorCode)
      requires Valid()
      modifies this, directory, store
      ensures Valid()
      ensures (Snapshot(), e) == RegisterOutcome(old(Snapshot()), msg, rep, now)
      ensures replies == old(replies) && awaitingReply == old(awaitingReply)
      ensures processed == old(processed) && lastCleanup == old(lastCleanup)
    {
      var ok := ValidateLogin(msg.sender);
      if !ok {
        return InvalidLogin;
      }
      var address := if rep then Some(REP_SOCKET) else None;
      e := directory.Register(msg.sender, address, 0, now);
      if e != Success {
        return;
      }
      e := Greet(msg.sender, now);
    }

    /** The tail of a successful registration: the greeting, then the offline messages. */
    method Greet(login: string, now: nat) returns (e: ErrorCode)
      requires Valid()
      modifies this, store
      ensures Valid() && e == Success
      ensures Snapshot() == Drained(old(Snapshot()).(published := old(published) + [Welcome(login, now)]), login)
      ensures replies == old(replies) && awaitingReply == old(awaitingReply)
      ensures processed == old(processed) && lastCleanup == old(lastCleanup)
    {
      published := published + [Welcome(login, now)];
      e := DeliverOffline(login);
    }

    /** server_handle_login */
    method HandleLogin(msg: Message, rep: bool, now: nat) returns (e: ErrorCode)
      requires Valid()
      modifies this, directory, store
      ensures Valid()
      ensures (Snapshot(), e) == LoginOutcome(old(Snapshot()), msg, rep, now)
      ensures replies == old(replies) && awaitingReply == old(awaitingReply)
      ensures processed == old(processed) && lastCleanup == old(lastCleanup)
    {
      if !rep {
        return InvalidMessage;
      }
      var ok := ValidateLogin(msg.sender);
      if !ok {
        return InvalidLogin;
      }
      e := directory.Login(msg.sender, Some(REP_SOCKET), 0, now);
      e := DeliverOffline(msg.sender);
    }

    /** server_handle_logout */
    method HandleLogout(msg: Message, now: nat) returns (e: ErrorCode)
      requires Valid()
      modifies directory
      ensures Valid()
      ensures (Snapshot(), e) == LogoutOutcome(old(Snapshot()), msg, now)
    {
      e := directory.Logout(msg.sender, now);
    }

    /** server_handle_text_message: published at once to an online receiver,
        stored for an offline one. */
    method HandleText(msg: Message, now: nat) returns (e: ErrorCode)
      requires Valid()
      modifies this, store
      ensures Valid()
      ensures (Snapshot(), e) == TextOutcome(old(Snapshot()), msg, now)
      ensures replies == old(replies) && awaitingReply == old(awaitingReply)
      ensures processed == old(processed) && lastCleanup == old(lastCleanup)
    {
      var known := directory.Exists(msg.sender);
      if !known {
        return NotAuthorized;
      }
      known := directory.Exists(msg.receiver);
      if !known {
        return LoginNotFound;
      }
      var online := directory.IsOnline(msg.receiver);
      if online {
        published := published + [Chat("MSG", msg)];
        e := Success;
      } else {
        e := store.Add(msg, now);
      }
    }

    /** server_handle_broadcast */
    method HandleBroadcast(msg: Message) returns (e: ErrorCode)
      requires Valid()
      modifies this
      ensures Valid()
      ensures (Snapshot(), e) == BroadcastOutcome(old(Snapshot()), msg)
      ensures replies == old(replies) && awaitingReply == old(awaitingReply)
      ensures processed == old(processed) && lastCleanup == old(lastCleanup)
    {
      var known := directory.Exists(msg.sender);
      if !known {
        return NotAuthorized;
      }
      published := published + [Broadcast(msg)];
      e := Success;
    }

    /** server_handle_get_users: answers on the reply socket itself with the
        list of online logins (in the order the table yields them). */
    method HandleGetUsers(msg: Message, rep: bool) returns (e: ErrorCode)
      requires Valid() && (rep ==> awaitingReply)
      modifies this
      ensures Valid()
      ensures (Snapshot(), e) == GetUsersOutcome(old(Snapshot()), msg, rep)
      ensures processed == old(processed) && lastCleanup == old(lastCleanup)
      ensures e != Success ==> replies == old(replies) && awaitingReply == old(awaitingReply)
      ensures e == Success ==> !awaitingReply && exists ls ::
        && Enumerates(ls, OnlineSet(directory.sessions))
        && replies == old(replies) + [ServerResponse(msg.msgType, msg.id, Success,
                                                     Take(USERS_PREFIX + JoinLogins(ls), MAX_MESSAGE_LENGTH - 1))]
    {
      if !rep {
        return InvalidMessage;
      }
      var known := directory.Exists(msg.sender);
      if !known {
        return NotAuthorized;
      }
      var logins := directory.OnlineLogins();
      var list := BuildUserList(logins);
      TakeTake(USERS_PREFIX + JoinLogins(logins), MAX_MESSAGE_LENGTH - 1, 2047);
      var _ := SendReply(ServerResponse(msg.msgType, msg.id, Success, Take(list, MAX_MESSAGE_LENGTH - 1)));
      e := Success;
      assert Enumerates(logins, OnlineSet(directory.sessions));
    }

    /** server_handle_set_status */
    method HandleSetStatus(msg: Message, now: nat) returns (e: ErrorCode)
      requires Valid()
      modifies this, directory, ids
      ensures Valid()
      ensures (Snapshot(), e) == SetStatusOutcome(old(Snapshot()), msg, now)
      ensures replies == old(replies) && awaitingReply == old(awaitingReply)
      ensures processed == old(processed) && lastCleanup == old(lastCleanup)
    {
      var requested := RequestedStatus(msg.text);
      e := ApplyStatus(msg.sender, requested, now);
    }

    /** The part of server_handle_set_status after the status text is read. */
    method ApplyStatus(login: string, requested: Option<int>, now: nat) returns (e: ErrorCode)
      requires Valid() && (requested.Some? ==> IsStatus(requested.value))
      modifies this, directory, ids
      ensures Valid()
      ensures (Snapshot(), e) == StatusOutcome(old(Snapshot()), login, requested, now)
      ensures replies == old(replies) && awaitingReply == old(awaitingReply)
      ensures processed == old(processed) && lastCleanup == old(lastCleanup)
    {
      if requested.None? {
        return InvalidMessage;
      }
      var status := requested.value;
      e := directory.UpdateStatus(login, status, now);
      if e != Success {
        return;
      }
      NextMessageId(ToUint32(now));
      published := published + [StatusNotice(login, status, now)];
    }

    /** generate_message_id for the status notice; the id itself is not used further. */
    method NextMessageId(now: nat)
      requires ids.Valid()
      modifies ids
      ensures ids.Valid() && ids.counter == NextCounter(old(ids.counter))
    {
      var _ := ids.Next(now);
    }

    /** The switch of server_process_message: the handler for the message type. */
    method RunHandler(msg: Message, rep: bool, now: nat) returns (e: ErrorCode)
      requires Valid() && (rep ==> awaitingReply)
      modifies this, directory, store, ids
      ensures Valid()
      ensures (Snapshot(), e) == Dispatch(old(Snapshot()), msg, rep, now)
      ensures processed == old(processed) && lastCleanup == old(lastCleanup)
      ensures !rep || msg.msgType != MSG_TYPE_GET_USERS ==>
                replies == old(replies) && awaitingReply == old(awaitingReply)
      ensures rep && msg.msgType == MSG_TYPE_GET_USERS ==>
                (e == Success <==> !awaitingReply) && |replies| == |old(replies)| + (if e == Success then 1 else 0)
                && replies[..|old(replies)|] == old(replies)
                && (e == Success ==> replies[|old(replies)|].code == Success
                                     && replies[|old(replies)|].originalType == msg.msgType
                                     && replies[|old(replies)|].originalId == msg.id)
    {
      if msg.msgType in {MSG_TYPE_REGISTER, MSG_TYPE_LOGIN, MSG_TYPE_GET_USERS} {
        e := RunRequestHandler(msg, rep, now);
      } else {
        e := RunOneWayHandler(msg, rep, now);
      }
    }

    /** The handlers of the requests that may answer themselves. */
    method RunRequestHandler(msg: Message, rep: bool, now: nat) returns (e: ErrorCode)
      requires Valid() && (rep ==> awaitingReply)
      requires msg.msgType in {MSG_TYPE_REGISTER, MSG_TYPE_LOGIN, MSG_TYPE_GET_USERS}
      modifies this, directory, store, ids
      ensures Valid()
      ensures (Snapshot(), e) == Dispatch(old(Snapshot()), msg, rep, now)
      ensures processed == old(processed) && lastCleanup == old(lastCleanup)
      ensures !rep || msg.msgType != MSG_TYPE_GET_USERS ==>
                replies == old(replies) && awaitingReply == old(awaitingReply)
      ensures rep && msg.msgType == MSG_TYPE_GET_USERS ==>
                (e == Success <==> !awaitingReply) && |replies| == |old(replies)| + (if e == Success then 1 else 0)
                && replies[..|old(replies)|] == old(replies)
                && (e == Success ==> replies[|old(replies)|].code == Success
                                     && replies[|old(replies)|].originalType == msg.msgType
                                     && replies[|old(replies)|].originalId == msg.id)
    {
      if msg.msgType == MSG_TYPE_REGISTER {
        e := HandleRegister(msg, rep, now);
      } else if msg.msgType == MSG_TYPE_LOGIN {
        e := HandleLogin(msg, rep, now);
      } else {
        e := HandleGetUsers(msg, rep);
      }
    }

    /** The handlers of the messages that never answer themselves. */
    method RunOneWayHandler(msg: Message, rep: bool, now: nat) returns (e: ErrorCode)
      requires Valid()
      requires msg.msgType !in {MSG_TYPE_REGISTER, MSG_TYPE_LOGIN, MSG_TYPE_GET_USERS}
      modifies this, directory, store, ids
      ensures Valid()
      ensures (Snapshot(), e) == Dispatch(old(Snapshot()), msg, rep, now)
      ensures processed == old(processed) && lastCleanup == old(lastCleanup)
      ensures replies == old(replies) && awaitingReply == old(awaitingReply)
    {
      if msg.msgType == MSG_TYPE_UNREGISTER {
        e := HandleLogout(msg, now);
      } else if msg.msgType == MSG_TYPE_TEXT_MESSAGE {
        e := HandleText(msg, now);
      } else if msg.msgType == MSG_TYPE_SET_STATUS {
        e := HandleSetStatus(msg, now);
      } else if msg.msgType == MSG_TYPE_BROADCAST {
        e := HandleBroadcast(msg);
      } else {
        e := InvalidMessage;
      }
    }

    /** server_process_message: the handler, then the generic reply for the
        requests whose handler does not answer itself. */
    method ProcessMessage(msg: Message, rep: bool, now: nat) returns (e: ErrorCode)
      requires Valid() && (rep ==> awaitingReply)
      modifies this, directory, store, ids
      ensures Valid()
      ensures (Snapshot(), e) == Dispatch(old(Snapshot()), msg, rep, now)
      ensures processed == old(processed) && lastCleanup == old(lastCleanup)
      ensures !rep || msg.msgType in {MSG_TYPE_REGISTER, MSG_TYPE_LOGIN} ==>
                replies == old(replies) && awaitingReply == old(awaitingReply)
      ensures rep && msg.msgType == MSG_TYPE_GET_USERS ==>
                (e == Success <==> !awaitingReply) && |replies| == |old(replies)| + (if e == Success then 1 else 0)
                && replies[..|old(replies)|] == old(replies)
                && (e == Success ==> replies[|old(replies)|].code == Success
                                     && replies[|old(replies)|].originalType == msg.msgType
                                     && replies[|old(replies)|].originalId == msg.id)
      ensures rep && msg.msgType !in {MSG_TYPE_REGISTER, MSG_TYPE_LOGIN, MSG_TYPE_GET_USERS} ==>
                !awaitingReply && replies == old(replies) + [ServerResponse(msg.msgType, msg.id, e, OkOrError(e))]
    {
      var respond := rep && msg.msgType !in {MSG_TYPE_REGISTER, MSG_TYPE_LOGIN, MSG_TYPE_GET_USERS};
      e := RunHandler(msg, rep, now);
      if respond {
        var _ := SendResponse(msg.msgType, msg.id, e, Some(OkOrError(e)));
      }
    }

    /** One request on the request-reply socket: processed, then answered with
        "OK" and ERROR_SUCCESS whatever the handler returned. The socket accepts
        only the first answer, so the client sees the handler's own reply where
        there is one and the blanket "OK" otherwise. */
    method ServeRequest(msg: Message, now: nat) returns (e: ErrorCode)
      requires Valid()
      modifies this, directory, store, ids
      ensures Valid()
      ensures (Snapshot(), e) == Dispatch(old(Snapshot()), msg, true, now)
      ensures processed == old(processed) + 1 && lastCleanup == old(lastCleanup)
      ensures !awaitingReply && |replies| == |old(replies)| + 1 && replies[..|old(replies)|] == old(replies)
      ensures var last := replies[|replies| - 1];
        && last.originalType == msg.msgType && last.originalId == msg.id
        && (msg.msgType in {MSG_TYPE_REGISTER, MSG_TYPE_LOGIN} ==> last.code == Success && last.info == "OK")
        && (msg.msgType == MSG_TYPE_GET_USERS ==> last.code == Success && (e != Success ==> last.info == "OK"))
        && (msg.msgType !in {MSG_TYPE_REGISTER, MSG_TYPE_LOGIN, MSG_TYPE_GET_USERS} ==>
              last.code == e && last.info == OkOrError(e))
    {
      awaitingReply := true;
      processed := processed + 1;
      e := ProcessMessage(msg, true, now);
      var _ := SendResponse(msg.msgType, msg.id, Success, Some("OK"));
    }

    /** One message on the PULL socket: processed, never answered. */
    method ServePush(msg: Message, now: nat) returns (e: ErrorCode)
      requires Valid()
      modifies this, directory, store, ids
      ensures Valid()
      ensures (Snapshot(), e) == Dispatch(old(Snapshot()), msg, false, now)
      ensures processed == old(processed) + 1 && lastCleanup == old(lastCleanup)
      ensures replies == old(replies) && awaitingReply == old(awaitingReply)
    {
      processed := processed + 1;
      e := ProcessMessage(msg, false, now);
    }

    /** The once-a-minute maintenance of the main loop: inactive sessions are
        dropped and week-old pending messages discarded. */
    method Maintenance(now: nat)
      requires Valid()
      modifies this, directory, store
      ensures Valid()
      ensures published == old(published) && replies == old(replies) && awaitingReply == old(awaitingReply)
      ensures processed == old(processed)
      ensures now - old(lastCleanup) < CLEANUP_PERIOD ==>
                lastCleanup == old(lastCleanup) && directory.sessions == old(directory.sessions)
                && store.pending == old(store.pending)
      ensures now - old(lastCleanup) >= CLEANUP_PERIOD ==>
                && lastCleanup == now
                && directory.sessions == Survivors(old(directory.sessions), now, INACTIVE_TIMEOUT)
                && store.pending == YoungEnough(old(store.pending), now, MESSAGE_MAX_AGE)
    {
      if now - lastCleanup >= CLEANUP_PERIOD {
        lastCleanup := now;
        directory.CleanupInactive(INACTIVE_TIMEOUT, now);
        store.CleanupOld(MESSAGE_MAX_AGE, now);
      }
    }
  }
}
