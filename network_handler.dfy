// The client's reading of the colon-delimited frames the server publishes, and
// the id and timestamp defaults it fills in before sending a message.

module NetworkHandler {
  import opened CString
  import opened Protocol
  import opened Utils
  import Router

  /** The receive buffer holds 2048 characters; the socket fills at most 2047 of them. */
  const RECEIVE_BUFFER: int := 2048

  /** How many colon-separated parts the parser collects. */
  const FRAME_PARTS: int := 5

  // ---------------------------------------------------------------------
  // strtok on ':'

  /** The number of characters before the first ':' of s, or |s|. */
  function FieldLength(s: string): (n: nat)
    ensures n <= |s|
    ensures ':' !in s[..n]
    ensures n == |s| || s[n] == ':'
  {
    if s == [] || s[0] == ':' then 0
    else
      var k := FieldLength(s[1..]);
      assert s[..k + 1] == [s[0]] + s[1..][..k];
      k + 1
  }

  /** One call of strtok(.., ":"): skips the separators, then returns the token
      and the text after it; the empty token stands for the null pointer. */
  function NextToken(s: string): (r: (string, string))
    ensures r.0 == [] ==> r.1 == []
    ensures |r.1| < |s| || (s == [] && r.1 == [])
    ensures ':' !in r.0
    decreases |s|
  {
    if s == [] then ([], [])
    else if s[0] == ':' then NextToken(s[1..])
    else
      var n := FieldLength(s);
      (s[..n], s[n..])
  }

  /** Every token strtok would hand out for s, in order. */
  function Tokens(s: string): (r: seq<string>)
    ensures forall i :: 0 <= i < |r| ==> r[i] != [] && ':' !in r[i]
    decreases |s|
  {
    var (tok, rest) := NextToken(s);
    if tok == [] then [] else [tok] + Tokens(rest)
  }

  /** The first five tokens, or all of them when there are fewer. */
  function FirstParts(s: string): (r: seq<string>)
    ensures |r| <= FRAME_PARTS
    ensures forall i :: 0 <= i < |r| ==> ':' !in r[i]
  {
    var t := Tokens(s);
    if |t| <= FRAME_PARTS then t else t[..FRAME_PARTS]
  }

  /** The tokenising loop of network_receive_message: strtok until it runs
      out of tokens or five parts are filled. */
  method SplitParts(s: string) returns (parts: seq<string>)
    ensures parts == FirstParts(s)
  {
    parts := [];
    var tok, rest := NextToken(s).0, NextToken(s).1;
    while tok != [] && |parts| < FRAME_PARTS
      invariant |parts| <= FRAME_PARTS
      invariant Tokens(s) == parts + (if tok == [] then [] else [tok] + Tokens(rest))
      decreases |rest|, |tok|
    {
      parts := parts + [tok];
      var next := NextToken(rest);
      tok, rest := next.0, next.1;
    }
    assert Tokens(s)[..|parts|] == parts;
  }

  // ---------------------------------------------------------------------
  // The parsed record

  /** The message type and flags a frame kind selects. */
  function KindType(kind: string): (r: (int, nat))
    ensures r.0 in {0, MSG_TYPE_SYSTEM_MESSAGE, MSG_TYPE_CHAT_MESSAGE}
    ensures r.0 == 0 <==> kind !in {"SYS", "MSG", "OFFLINE"}
    ensures r.1 == FLAG_SYSTEM <==> kind == "SYS"
    ensures r.1 == FLAG_OFFLINE_STORE <==> kind == "OFFLINE"
  {
    if kind == "SYS" then (MSG_TYPE_SYSTEM_MESSAGE, FLAG_SYSTEM)
    else if kind == "MSG" then (MSG_TYPE_CHAT_MESSAGE, 0)
    else if kind == "OFFLINE" then (MSG_TYPE_CHAT_MESSAGE, FLAG_OFFLINE_STORE)
    else (0, 0)
  }

  /** The text the received bytes leave in the buffer: at most 2047 of them, up
      to the first NUL. */
  function Received(data: string): (s: string)
    ensures |s| < RECEIVE_BUFFER && NUL !in s
  {
    CStr(Take(data, RECEIVE_BUFFER - 1))
  }

  /** The message network_receive_message builds from the received bytes, with
      the fresh id and the clock reading it starts from. A full frame gives its
      kind, the three fields cut to their buffers and the timestamp read by
      atol into a 32-bit field; anything shorter goes whole into the text. */
  function ParseFrame(data: string, id: nat, now: nat): (m: Message)
    ensures m.id == id
    ensures m.msgType in {0, MSG_TYPE_SYSTEM_MESSAGE, MSG_TYPE_CHAT_MESSAGE}
    ensures |Tokens(Received(data))| < FRAME_PARTS ==>
      m.sender == [] && m.receiver == [] && m.text <= Received(data) && m.msgType == 0
  {
    var s := Received(data);
    var parts := FirstParts(s);
    if |parts| >= FRAME_PARTS then
      var (msgType, flags) := KindType(parts[0]);
      Message(msgType, id, ToUint32(Strtol(parts[4])),
              Take(parts[1], MAX_LOGIN_LENGTH - 1), Take(parts[2], MAX_LOGIN_LENGTH - 1),
              Take(parts[3], MAX_MESSAGE_LENGTH - 1), flags)
    else
      Message(0, id, ToUint32(now), "", "", Take(s, MAX_MESSAGE_LENGTH - 1), 0)
  }
  /** Every field of the parsed message fits its buffer, and the fields of
      a full frame hold no ':' (strtok stopped at each one). */
  lemma ParseFrameFields(data: string, id: nat, now: nat)
    ensures var m := ParseFrame(data, id, now);
      && |m.sender| < MAX_LOGIN_LENGTH && |m.receiver| < MAX_LOGIN_LENGTH
      && |m.text| < MAX_MESSAGE_LENGTH && m.timestamp < UINT32
      && ':' !in m.sender && ':' !in m.receiver
      && (m.msgType != 0 ==> ':' !in m.text)
  {
    var parts := FirstParts(Received(data));
    if |parts| >= FRAME_PARTS {
      PrefixKeepsOut(parts[1], Take(parts[1], MAX_LOGIN_LENGTH - 1), ':');
      PrefixKeepsOut(parts[2], Take(parts[2], MAX_LOGIN_LENGTH - 1), ':');
      PrefixKeepsOut(parts[3], Take(parts[3], MAX_MESSAGE_LENGTH - 1), ':');
    }
  }

  /** A prefix of a string without c holds no c. */
  lemma PrefixKeepsOut(s: string, p: string, c: char)
    requires p <= s && c !in s
    ensures c !in p
  {
  }


  /** The parsing half of network_receive_message. */
  method ReceiveFrame(data: string, id: nat, now: nat) returns (m: Message)
    ensures m == ParseFrame(data, id, now)
  {
    var s := Received(data);
    var parts := SplitParts(s);
    m := ZeroMessage.(id := id, timestamp := ToUint32(now));
    if |parts| >= FRAME_PARTS {
      var kind := KindType(parts[0]);
      m := m.(msgType := kind.0, flags := kind.1);
      m := m.(sender := Take(parts[1], MAX_LOGIN_LENGTH - 1),
              receiver := Take(parts[2], MAX_LOGIN_LENGTH - 1),
              text := Take(parts[3], MAX_MESSAGE_LENGTH - 1));
      m := m.(timestamp := ToUint32(Strtol(parts[4])));
    } else {
      m := m.(text := Take(s, MAX_MESSAGE_LENGTH - 1));
    }
  }

  // ---------------------------------------------------------------------
  // Reading the server's frames back

  /** A field the parser hands back untouched: non-empty, without ':' or NUL. */
  predicate PlainField(f: string) {
    f != [] && ':' !in f && NUL !in f
  }

  /** The fields joined with ':'. */
  function JoinColon(fs: seq<string>): string {
    if fs == [] then []
    else if |fs| == 1 then fs[0]
    else fs[0] + ":" + JoinColon(fs[1..])
  }

  lemma FieldLengthOfField(a: string, rest: string)
    requires a != [] && ':' !in a
    ensures FieldLength(a + ":" + rest) == |a|
    ensures FieldLength(a) == |a|
  {
    var s := a + ":" + rest;
    var n := FieldLength(s);
    assert s[|a|] == ':';
    assert forall k :: 0 <= k < |a| ==> s[k] == a[k];
  }

  /** Leading separators yield no token. */
  lemma TokensSkip(s: string)
    ensures Tokens(":" + s) == Tokens(s)
  {
    assert (":" + s)[1..] == s;
    assert NextToken(":" + s) == NextToken(s);
  }

  /** A plain field followed by ':' is the next token. */
  lemma TokensCons(a: string, s: string)
    requires a != [] && ':' !in a
    ensures Tokens(a + ":" + s) == [a] + Tokens(s)
  {
    FieldLengthOfField(a, s);
    var t := a + ":" + s;
    assert t[..|a|] == a;
    assert t[|a|..] == ":" + s;
    assert NextToken(t) == (a, ":" + s);
    TokensSkip(s);
  }

  /** A plain field on its own is the only token. */
  lemma TokensSingle(a: string)
    requires a != [] && ':' !in a
    ensures Tokens(a) == [a]
  {
    FieldLengthOfField(a, "");
    assert a[..|a|] == a;
    assert NextToken(a) == (a, []);
  }

  /** Colon-free, non-empty fields joined with ':' tokenise back into the fields. */
  lemma {:induction false} TokensOfJoin(fs: seq<string>)
    requires forall i :: 0 <= i < |fs| ==> fs[i] != [] && ':' !in fs[i]
    ensures Tokens(JoinColon(fs)) == fs
  {
    if |fs| == 1 {
      TokensSingle(fs[0]);
    } else if |fs| > 1 {
      TokensOfJoin(fs[1..]);
      TokensCons(fs[0], JoinColon(fs[1..]));
    }
  }

  /** Joining NUL-free fields gives a NUL-free text. */
  lemma {:induction false} JoinColonNoNul(fs: seq<string>)
    requires forall i :: 0 <= i < |fs| ==> NUL !in fs[i]
    ensures NUL !in JoinColon(fs)
  {
    if |fs| > 1 {
      JoinColonNoNul(fs[1..]);
    }
  }

  /** The text of "kind:sender:receiver:text:digits" is those five fields joined. */
  lemma JoinFive(k: string, a: string, b: string, c: string, d: string)
    ensures JoinColon([k, a, b, c, d]) == k + ":" + a + ":" + b + ":" + c + ":" + d
  {
    assert [c, d][1..] == [d];
    assert JoinColon([c, d]) == c + ":" + d;
    assert [b, c, d][1..] == [c, d];
    assert JoinColon([b, c, d]) == b + ":" + (c + ":" + d);
    assert [a, b, c, d][1..] == [b, c, d];
    assert JoinColon([a, b, c, d]) == a + ":" + (b + ":" + (c + ":" + d));
    assert [k, a, b, c, d][1..] == [a, b, c, d];
  }

  /** A NUL-free text below the buffer size reaches the parser whole. */
  lemma ReceivedWhole(s: string)
    requires |s| < RECEIVE_BUFFER && NUL !in s
    ensures Received(s) == s
  {
    TakeOfShort(s, RECEIVE_BUFFER - 1);
    CStrOfPrefix(s, |s|);
  }

  /** At least five plain fields joined with ':' parse as a full frame built
      from the first five. */
  lemma ParseJoined(fs: seq<string>, id: nat, now: nat)
    requires |fs| >= FRAME_PARTS && forall i :: 0 <= i < |fs| ==> PlainField(fs[i])
    requires |JoinColon(fs)| < RECEIVE_BUFFER
    ensures ParseFrame(JoinColon(fs), id, now) ==
      Message(KindType(fs[0]).0, id, ToUint32(Strtol(fs[4])),
              Take(fs[1], MAX_LOGIN_LENGTH - 1), Take(fs[2], MAX_LOGIN_LENGTH - 1),
              Take(fs[3], MAX_MESSAGE_LENGTH - 1), KindType(fs[0]).1)
  {
    JoinColonNoNul(fs);
    ReceivedWhole(JoinColon(fs));
    TokensOfJoin(fs);
  }

  /** A decimal numeral is a plain field of at most ten digits when the number fits 32 bits. */
  lemma NumeralPlain(ts: nat)
    requires ts < UINT32
    ensures PlainField(NatToString(ts)) && |NatToString(ts)| <= 10
  {
    Router.NatToStringLength(ts, 10);
    var d := NatToString(ts);
    assert forall i :: 0 <= i < |d| ==> d[i] != ':' && d[i] != NUL;
  }

  /** atol reads a printed 32-bit timestamp back unchanged. */
  lemma TimestampRoundTrip(ts: nat)
    requires ts < UINT32
    ensures ToUint32(Strtol(NatToString(ts))) == ts
  {
    NatToStringStrtol(ts);
  }

  /** Parsing a formatted frame whose fields are plain and fit their buffers
      recovers the kind's type and flags, the three fields and the timestamp. */
  lemma FormatRoundTrip(kind: string, sender: string, receiver: string, text: string,
                        ts: nat, capacity: nat, id: nat, now: nat)
    requires PlainField(kind) && |kind| <= 9
    requires PlainField(sender) && |sender| < MAX_LOGIN_LENGTH
    requires PlainField(receiver) && |receiver| < MAX_LOGIN_LENGTH
    requires PlainField(text) && |text| < MAX_MESSAGE_LENGTH
    requires ts < UINT32 && 1024 <= capacity
    ensures ParseFrame(Router.Format(kind, sender, receiver, text, ts, capacity), id, now) ==
      Message(KindType(kind).0, id, ts, sender, receiver, text, KindType(kind).1)
  {
    var d := NatToString(ts);
    NumeralPlain(ts);
    var fs := [kind, sender, receiver, text, d];
    JoinFive(kind, sender, receiver, text, d);
    var joined := JoinColon(fs);
    assert |joined| < 1023;
    TakeOfShort(joined, capacity - 1);
    assert Router.Format(kind, sender, receiver, text, ts, capacity) == joined;
    ParseJoined(fs, id, now);
    TimestampRoundTrip(ts);
    TakeOfShort(sender, MAX_LOGIN_LENGTH - 1);
    TakeOfShort(receiver, MAX_LOGIN_LENGTH - 1);
    TakeOfShort(text, MAX_MESSAGE_LENGTH - 1);
  }

  /** A direct or stored message the router publishes reaches the client with
      its sender, receiver, text and timestamp intact: a "MSG" frame as a chat
      message, an "OFFLINE" frame as a chat message flagged as stored. */
  lemma ChatFrameRoundTrip(kind: string, msg: Message, id: nat, now: nat)
    requires kind == "MSG" || kind == "OFFLINE"
    requires PlainField(msg.sender) && |msg.sender| < MAX_LOGIN_LENGTH
    requires PlainField(msg.receiver) && |msg.receiver| < MAX_LOGIN_LENGTH
    requires PlainField(msg.text) && |msg.text| < MAX_MESSAGE_LENGTH
    requires msg.timestamp < UINT32
    ensures var m := ParseFrame(Router.Wire(Router.Chat(kind, msg)), id, now);
      && m.msgType == MSG_TYPE_CHAT_MESSAGE
      && m.flags == (if kind == "OFFLINE" then FLAG_OFFLINE_STORE else 0)
      && m.sender == msg.sender && m.receiver == msg.receiver && m.text == msg.text
      && m.timestamp == msg.timestamp
  {
    FormatRoundTrip(kind, msg.sender, msg.receiver, msg.text, msg.timestamp, 1024, id, now);
  }

  /** A broadcast frame is parsed field by field, but its kind selects no type:
      the client sees type 0 and no flags. */
  lemma BroadcastFrameUntyped(msg: Message, id: nat, now: nat)
    requires PlainField(msg.sender) && |msg.sender| < MAX_LOGIN_LENGTH
    requires PlainField(msg.text) && |msg.text| < MAX_MESSAGE_LENGTH
    requires msg.timestamp < UINT32
    ensures var m := ParseFrame(Router.Wire(Router.Broadcast(msg)), id, now);
      && m.msgType == 0 && m.flags == 0
      && m.sender == msg.sender && m.receiver == "*" && m.text == msg.text
  {
    FormatRoundTrip("BROADCAST", msg.sender, "*", msg.text, msg.timestamp, 1024, id, now);
  }

  /** A text holding ':' is cut at its first colon, and what follows it is
      read as the timestamp. */
  lemma ColonCutsText(kind: string, sender: string, receiver: string, a: string, b: string,
                      ts: nat, id: nat, now: nat)
    requires PlainField(kind) && |kind| <= 9
    requires PlainField(sender) && |sender| < MAX_LOGIN_LENGTH
    requires PlainField(receiver) && |receiver| < MAX_LOGIN_LENGTH
    requires PlainField(a) && PlainField(b) && |a| + |b| < MAX_MESSAGE_LENGTH - 1
    requires ts < UINT32
    ensures var m := ParseFrame(Router.Format(kind, sender, receiver, a + ":" + b, ts, 1024), id, now);
      && m.text == a && m.timestamp == ToUint32(Strtol(b))
  {
    var d := NatToString(ts);
    NumeralPlain(ts);
    var fs := [kind, sender, receiver, a, b, d];
    JoinFive(sender, receiver, a, b, d);
    assert fs[1..] == [sender, receiver, a, b, d];
    var full := kind + ":" + sender + ":" + receiver + ":" + (a + ":" + b) + ":" + d;
    assert full == JoinColon(fs);
    assert |full| < 1023;
    TakeOfShort(full, 1023);
    ParseJoined(fs, id, now);
    TakeOfShort(a, MAX_MESSAGE_LENGTH - 1);
  }

  /** An empty field leaves only four tokens, so the whole frame becomes the
      text of an untyped message with no sender or receiver. */
  lemma EmptyFieldKeepsRawText(kind: string, receiver: string, text: string, ts: nat, id: nat, now: nat)
    requires PlainField(kind) && |kind| <= 9
    requires PlainField(receiver) && |receiver| < MAX_LOGIN_LENGTH
    requires PlainField(text) && |text| < MAX_MESSAGE_LENGTH
    requires ts < UINT32
    ensures var f := Router.Format(kind, "", receiver, text, ts, 1024);
      var m := ParseFrame(f, id, now);
      && m.msgType == 0 && m.sender == [] && m.receiver == []
      && m.text == Take(f, MAX_MESSAGE_LENGTH - 1)
  {
    var d := NatToString(ts);
    NumeralPlain(ts);
    var rest := JoinColon([receiver, text, d]);
    JoinFive(kind, "", receiver, text, d);
    assert [receiver, text, d][1..] == [text, d];
    assert [text, d][1..] == [d];
    var full := kind + ":" + "" + ":" + receiver + ":" + text + ":" + d;
    assert full == kind + ":" + (":" + rest);
    assert |full| < 1023;
    TakeOfShort(full, 1023);
    assert NUL !in full by {
      JoinColonNoNul([receiver, text, d]);
    }
    ReceivedWhole(full);
    TokensOfJoin([receiver, text, d]);
    TokensCons(kind, ":" + rest);
    TokensSkip(rest);
    assert Tokens(full) == [kind, receiver, text, d];
  }

  /** The greeting the router sends on registration reaches the client as a
      system message from "system" to "*", with its text and time. */
  lemma WelcomeRoundTrip(login: string, time: nat, id: nat, now: nat)
    requires IsValidLogin(login) && time < UINT32
    ensures var m := ParseFrame(Router.Wire(Router.Welcome(login, time)), id, now);
      && m.msgType == MSG_TYPE_SYSTEM_MESSAGE && m.flags == FLAG_SYSTEM
      && m.sender == "system" && m.receiver == "*"
      && m.text == "Welcome " + login + " to the chat!" && m.timestamp == time
  {
    var text := "Welcome " + login + " to the chat!";
    ValidLoginPlain(login);
    assert ':' !in text && NUL !in text;
    var d := NatToString(time);
    NumeralPlain(time);
    var full := "SYS" + ":" + "system" + ":" + "*" + ":" + text + ":" + d;
    assert |full| < 255;
    TakeOfShort(full, 255);
    TakeOfShort(full, 1023);
    FormatRoundTrip("SYS", "system", "*", text, time, 1024, id, now);
  }

  /** A valid login holds neither ':' nor NUL. */
  lemma ValidLoginPlain(login: string)
    requires IsValidLogin(login)
    ensures PlainField(login)
  {
    assert forall i :: 0 <= i < |login| ==> login[i] != ':' && login[i] != NUL;
  }

  // ---------------------------------------------------------------------
  // Defaults on the sending side

  /** network_send_request / network_send_message before the send: a zero id
      is replaced by a fresh one from the generator and a zero timestamp by the
      32-bit clock reading; values already set are kept, and an id already set
      leaves the generator alone. */
  method StampOutgoing(ids: IdGenerator, msg: Message, now: nat) returns (out: Message)
    requires ids.Valid()
    modifies ids
    ensures ids.Valid()
    ensures msg.id != 0 ==> out.id == msg.id && ids.counter == old(ids.counter)
    ensures msg.id == 0 ==>
      && ids.counter == (old(ids.counter) + 1) % UINT32
      && out.id == MessageId(ToUint32(now), ids.counter)
    ensures out.timestamp == if msg.timestamp != 0 then msg.timestamp else ToUint32(now)
    ensures out == msg.(id := out.id, timestamp := out.timestamp)
  {
    out := msg;
    if msg.id == 0 {
      var id := ids.Next(ToUint32(now));
      out := out.(id := id);
    }
    if msg.timestamp == 0 {
      out := out.(timestamp := ToUint32(now));
    }
  }
}
