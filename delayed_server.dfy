/*
 * The delayed-delivery chat server: a bounded client table (at most 100
 * entries, deleted by shifting), a bounded table of delayed messages (at
 * most 1000 slots, never reused) and the dispatch of one received message.
 * The clock and the PUB socket are a parameter and a log of sent messages.
 */
module DelayedServer {
  import opened CString
  import opened Protocol

  const MAX_CLIENTS: int := 100
  const MAX_DELAYED_MSGS: int := 1000

  const MSG_TYPE_TEXT: int := 1
  const MSG_TYPE_DELAYED: int := 2
  const MSG_TYPE_JOIN: int := 3
  const MSG_TYPE_LEAVE: int := 4

  /** message_t, its strings up to their terminating NUL. */
  datatype ChatMessage = ChatMessage(sender: string, recipient: string, text: string, kind: int, sendTime: int)

  /** client_info_t. */
  datatype ClientInfo = ClientInfo(login: string, address: string, lastSeen: int)

  /** delayed_message_t. */
  datatype DelayedEntry = DelayedEntry(msg: ChatMessage, active: bool, originalSendTime: int)

  // ---------------------------------------------------------------------
  // The client table

  /** The index of the first entry with this login, or -1. */
  function FindLogin(cs: seq<ClientInfo>, login: string): (r: int)
    ensures -1 <= r < |cs|
    ensures r >= 0 ==> cs[r].login == login
    ensures forall k :: 0 <= k < |cs| && (r < 0 || k < r) ==> cs[k].login != login
  {
    if cs == [] then -1
    else if cs[0].login == login then 0
    else
      var k := FindLogin(cs[1..], login);
      if k < 0 then -1 else k + 1
  }

  predicate DistinctLogins(cs: seq<ClientInfo>) {
    forall i, j :: 0 <= i < j < |cs| ==> cs[i].login != cs[j].login
  }

  /** update_client on the table's contents. */
  function Updated(cs: seq<ClientInfo>, login: string, address: string, now: int): seq<ClientInfo> {
    var i := FindLogin(cs, login);
    if i >= 0 then cs[i := ClientInfo(login, address, now)]
    else if |cs| < MAX_CLIENTS then cs + [ClientInfo(login, address, now)]
    else cs
  }

  /** remove_client on the table's contents. */
  function Removed(cs: seq<ClientInfo>, login: string): seq<ClientInfo> {
    var i := FindLogin(cs, login);
    if i >= 0 then cs[..i] + cs[i + 1..] else cs
  }

  /** An index holding the login with none before it, or -1 when none
      holds it, is what FindLogin returns. */
  lemma FindLoginIs(cs: seq<ClientInfo>, login: string, e: int)
    requires -1 <= e < |cs|
    requires e >= 0 ==> cs[e].login == login
    requires forall k :: 0 <= k < |cs| && (e < 0 || k < e) ==> cs[k].login != login
    ensures FindLogin(cs, login) == e
  {
  }

  /** Two tables in which the entries for `login` sit at the same indices
      find it at the same index. */
  lemma FindLoginSame(cs: seq<ClientInfo>, ds: seq<ClientInfo>, login: string)
    requires |cs| <= |ds|
    requires forall k :: 0 <= k < |cs| ==> (cs[k].login == login <==> ds[k].login == login)
    requires forall k :: |cs| <= k < |ds| ==> ds[k].login != login
    ensures FindLogin(ds, login) == FindLogin(cs, login)
  {
    FindLoginIs(ds, login, FindLogin(cs, login));
  }

  /** Entry k of cs without entry i. */
  lemma RemovedAt(cs: seq<ClientInfo>, i: int, k: int)
    requires 0 <= i < |cs| && 0 <= k < |cs| - 1
    ensures (cs[..i] + cs[i + 1..])[k] == cs[if k < i then k else k + 1]
  {
  }

  /** update_client leaves the logins distinct and the table within 100. */
  lemma UpdatedKeepsDistinct(cs: seq<ClientInfo>, login: string, address: string, now: int)
    requires DistinctLogins(cs) && |cs| <= MAX_CLIENTS
    ensures DistinctLogins(Updated(cs, login, address, now))
    ensures |Updated(cs, login, address, now)| <= MAX_CLIENTS
  {
  }

  /** After update_client the login is present, holding the new address and
      time, unless it was absent from a full table; the count grows by one
      exactly when the login was new and the table not full. */
  lemma UpdatedHoldsLogin(cs: seq<ClientInfo>, login: string, address: string, now: int)
    ensures var u := Updated(cs, login, address, now);
      (FindLogin(u, login) >= 0 <==> FindLogin(cs, login) >= 0 || |cs| < MAX_CLIENTS) &&
      (FindLogin(u, login) >= 0 ==> u[FindLogin(u, login)] == ClientInfo(login, address, now)) &&
      |u| == |cs| + (if FindLogin(cs, login) < 0 && |cs| < MAX_CLIENTS then 1 else 0)
  {
    var u := Updated(cs, login, address, now);
    var i := FindLogin(cs, login);
    if i >= 0 {
      FindLoginSame(cs, u, login);
    } else if |cs| < MAX_CLIENTS {
      assert u[|cs|].login == login;
    } else {
    }
  }

  /** update_client changes nothing for any other login: every other entry
      keeps its place and its record. */
  lemma UpdatedKeepsOthers(cs: seq<ClientInfo>, login: string, address: string, now: int, other: string)
    requires other != login
    ensures var u := Updated(cs, login, address, now);
      |cs| <= |u| &&
      (forall k :: 0 <= k < |cs| && cs[k].login != login ==> u[k] == cs[k]) &&
      FindLogin(u, other) == FindLogin(cs, other)
  {
    FindLoginSame(cs, Updated(cs, login, address, now), other);
  }

  /** remove_client leaves the logins distinct. */
  lemma RemovedKeepsDistinct(cs: seq<ClientInfo>, login: string)
    requires DistinctLogins(cs)
    ensures DistinctLogins(Removed(cs, login))
  {
    var i := FindLogin(cs, login);
    if i >= 0 {
      var r := Removed(cs, login);
      forall a, b | 0 <= a < b < |r|
        ensures r[a].login != r[b].login
      {
        RemovedAt(cs, i, a);
        RemovedAt(cs, i, b);
      }
    }
  }

  /** With distinct logins, remove_client removes the login entirely, the
      count drops by one exactly when it was present, and the entries after
      it move down one place in their order. */
  lemma RemovedDropsLogin(cs: seq<ClientInfo>, login: string)
    requires DistinctLogins(cs)
    ensures var r := Removed(cs, login);
      FindLogin(r, login) == -1 &&
      |r| == |cs| - (if FindLogin(cs, login) >= 0 then 1 else 0) &&
      (FindLogin(cs, login) >= 0 ==>
        forall k :: 0 <= k < |r| ==> r[k] == cs[if k < FindLogin(cs, login) then k else k + 1])
  {
    var i := FindLogin(cs, login);
    var r := Removed(cs, login);
    if i >= 0 {
      forall k | 0 <= k < |r|
        ensures r[k] == cs[if k < i then k else k + 1] && r[k].login != login
      {
        RemovedAt(cs, i, k);
      }
      FindLoginIs(r, login, -1);
    }
  }

  /** Removing entry i, which holds another login, moves the first entry
      for `other` down one place when it came after i. */
  lemma FindAfterRemoval(cs: seq<ClientInfo>, r: seq<ClientInfo>, i: int, other: string)
    requires 0 <= i < |cs| && |r| == |cs| - 1 && cs[i].login != other
    requires forall k :: 0 <= k < i ==> r[k] == cs[k]
    requires forall k :: i <= k < |r| ==> r[k] == cs[k + 1]
    ensures var j := FindLogin(cs, other); FindLogin(r, other) == if j < i then j else j - 1
  {
    var j := FindLogin(cs, other);
    FindLoginIs(r, other, if j < i then j else j - 1);
  }

  /** The entries of cs without entry i, index by index. */
  lemma RemovedShape(cs: seq<ClientInfo>, i: int)
    requires 0 <= i < |cs|
    ensures var r := cs[..i] + cs[i + 1..];
      |r| == |cs| - 1 &&
      (forall k :: 0 <= k < i ==> r[k] == cs[k]) &&
      (forall k :: i <= k < |r| ==> r[k] == cs[k + 1])
  {
  }

  /** remove_client keeps every other login, with its record. */
  lemma RemovedKeepsOthers(cs: seq<ClientInfo>, login: string, other: string)
    requires other != login
    ensures var r := Removed(cs, login);
      (FindLogin(r, other) >= 0 <==> FindLogin(cs, other) >= 0) &&
      (FindLogin(r, other) >= 0 ==> r[FindLogin(r, other)] == cs[FindLogin(cs, other)])
  {
    var i := FindLogin(cs, login);
    if i >= 0 {
      var ds := cs[..i] + cs[i + 1..];
      assert Removed(cs, login) == ds;
      RemovedShape(cs, i);
      FindAfterRemoval(cs, ds, i, other);
      var j := FindLogin(cs, other);
      if j < 0 {
        assert FindLogin(ds, other) == -1;
      } else if j < i {
        assert FindLogin(ds, other) == j && ds[j] == cs[j];
      } else {
        assert FindLogin(ds, other) == j - 1 && ds[j - 1] == cs[j];
      }
    }
  }

  /** A table whose entries from i on are those after i of cs is cs
      without entry i. */
  lemma ShiftedIsRemoved(cs: seq<ClientInfo>, ds: seq<ClientInfo>, i: int)
    requires 0 <= i < |cs| && |ds| == |cs| - 1
    requires forall k :: 0 <= k < i ==> ds[k] == cs[k]
    requires forall k :: i <= k < |ds| ==> ds[k] == cs[k + 1]
    ensures ds == cs[..i] + cs[i + 1..]
  {
  }

  // ---------------------------------------------------------------------
  // The delayed messages

  /** add_delayed_message on the table's contents. */
  function Added(es: seq<DelayedEntry>, msg: ChatMessage): (r: seq<DelayedEntry>)
    ensures |es| < MAX_DELAYED_MSGS ==> r == es + [DelayedEntry(msg, true, msg.sendTime)]
    ensures |es| >= MAX_DELAYED_MSGS ==> r == es
  {
    if |es| < MAX_DELAYED_MSGS then es + [DelayedEntry(msg, true, msg.sendTime)] else es
  }

  predicate IsDue(e: DelayedEntry, now: int) {
    e.active && e.originalSendTime <= now
  }

  /** What the tick sends for a due entry: a TEXT message stamped now. */
  function Sent(e: DelayedEntry, now: int): ChatMessage {
    e.msg.(kind := MSG_TYPE_TEXT, sendTime := now)
  }

  /** One entry after the tick: a due entry is sent and made inactive. */
  function Fired(e: DelayedEntry, now: int): DelayedEntry {
    if IsDue(e, now) then DelayedEntry(Sent(e, now), false, e.originalSendTime) else e
  }

  /** The messages one tick sends, in slot order. */
  function Due(es: seq<DelayedEntry>, now: int): (r: seq<ChatMessage>)
    ensures |r| <= |es|
  {
    if es == [] then []
    else
      var last := es[|es| - 1];
      Due(es[..|es| - 1], now) + (if IsDue(last, now) then [Sent(last, now)] else [])
  }

  /** The table after one tick. */
  function Ticked(es: seq<DelayedEntry>, now: int): (r: seq<DelayedEntry>)
    ensures |r| == |es|
    ensures forall k :: 0 <= k < |es| ==> r[k] == Fired(es[k], now)
  {
    seq(|es|, k requires 0 <= k < |es| => Fired(es[k], now))
  }

  /** What the tick loop has sent after its first n slots. */
  function DuePrefix(es: seq<DelayedEntry>, n: nat, now: int): (r: seq<ChatMessage>)
    requires n <= |es|
    ensures |r| <= n
  {
    if n == 0 then []
    else DuePrefix(es, n - 1, now) + (if IsDue(es[n - 1], now) then [Sent(es[n - 1], now)] else [])
  }

  /** After its first n slots the loop has sent Due of those slots. */
  lemma {:induction false} DuePrefixIsDue(es: seq<DelayedEntry>, n: nat, now: int)
    requires n <= |es|
    ensures DuePrefix(es, n, now) == Due(es[..n], now)
  {
    if n > 0 {
      DuePrefixIsDue(es, n - 1, now);
      assert es[..n][..n - 1] == es[..n - 1];
    }
  }

  /** The tick sends exactly the due entries, each as TEXT stamped now. */
  lemma {:induction false} DueSendsDueEntries(es: seq<DelayedEntry>, now: int, m: ChatMessage)
    ensures m in Due(es, now) <==> exists k :: 0 <= k < |es| && IsDue(es[k], now) && m == Sent(es[k], now)
    ensures m in Due(es, now) ==> m.kind == MSG_TYPE_TEXT && m.sendTime == now
  {
    if es != [] {
      var init := es[..|es| - 1];
      DueSendsDueEntries(init, now, m);
      if m in Due(es, now) && m !in Due(init, now) {
        assert IsDue(es[|es| - 1], now) && m == Sent(es[|es| - 1], now);
      }
      if exists k :: 0 <= k < |es| && IsDue(es[k], now) && m == Sent(es[k], now) {
        var k :| 0 <= k < |es| && IsDue(es[k], now) && m == Sent(es[k], now);
        if k < |es| - 1 {
          assert init[k] == es[k];
        }
      }
    }
  }

  /** No entry of the ticked table is due at that time: nothing sent is
      sent again, and ticking twice at the same time changes nothing. */
  lemma {:induction false} TickSendsOnce(es: seq<DelayedEntry>, now: int)
    ensures Due(Ticked(es, now), now) == []
    ensures Ticked(Ticked(es, now), now) == Ticked(es, now)
  {
    NoneDue(Ticked(es, now), now);
  }

  /** A table with no due entry sends nothing. */
  lemma {:induction false} NoneDue(es: seq<DelayedEntry>, now: int)
    requires forall k :: 0 <= k < |es| ==> !IsDue(es[k], now)
    ensures Due(es, now) == []
  {
    if es != [] {
      NoneDue(es[..|es| - 1], now);
    }
  }

  /** A later tick sends only entries the earlier tick left active. */
  lemma LaterTickSendsOnlyPending(es: seq<DelayedEntry>, now: int, later: int, k: int)
    requires 0 <= k < |es| && IsDue(es[k], now)
    ensures !IsDue(Ticked(es, now)[k], later)
    ensures Ticked(Ticked(es, now), later)[k] == Ticked(es, now)[k]
  {
  }

  // ---------------------------------------------------------------------
  // The DELAY:<seconds>:<text> prefix

  const DELAY_PREFIX: string := "DELAY:"

  /** The delay and the text after the second colon of "DELAY:<n>:<rest>"
      (the delay read by atoi from what follows the prefix), or None when
      the text lacks the prefix or the second colon. */
  function DelayOf(text: string): Option<(int, string)> {
    if |text| >= 6 && text[..6] == DELAY_PREFIX then
      var tail := text[6..];
      var colon := IndexOf(tail, ':');
      if colon >= 0 then Some((Atoi(tail), tail[colon + 1..])) else None
    else None
  }

  /** The DELAYED case of main before the message is queued: a parsed
      delay sets the send time to now plus the delay and the text to what
      follows the second colon; otherwise the message is unchanged. */
  function WithDelay(msg: ChatMessage, now: int): ChatMessage {
    var parsed := DelayOf(msg.text);
    if parsed.None? then msg else msg.(sendTime := now + parsed.value.0, text := parsed.value.1)
  }

  /** The first colon after a run of digits is the one that ends it. */
  lemma ColonAfterDigits(digits: string, rest: string)
    requires forall i :: 0 <= i < |digits| ==> IsDigit(digits[i])
    ensures IndexOf(digits + (":" + rest), ':') == |digits|
  {
    var s := digits + (":" + rest);
    assert s[|digits|] == ':';
    assert s[..|digits|] == digits;
  }

  /** "DELAY:<n>:<rest>" reads back as delay n and text rest, and
      "DELAY:<n>" without the second colon reads as no delay. */
  lemma DelayOfWritten(n: nat, rest: string)
    requires n < 0x8000_0000
    ensures DelayOf(DELAY_PREFIX + NatToString(n) + ":" + rest) == Some((n, rest))
    ensures DelayOf(DELAY_PREFIX + NatToString(n)) == None
  {
    var digits := NatToString(n);
    var text := DELAY_PREFIX + digits + ":" + rest;
    assert text[..6] == DELAY_PREFIX;
    assert text[6..] == digits + (":" + rest);
    NatToStringStrtolThen(n, ":" + rest);
    ColonAfterDigits(digits, rest);
    assert (digits + (":" + rest))[|digits| + 1..] == rest;
    var bare := DELAY_PREFIX + digits;
    assert bare[..6] == DELAY_PREFIX && bare[6..] == digits;
  }

  lemma WithParsedDelay(msg: ChatMessage, now: int, delay: int, rest: string)
    requires DelayOf(msg.text) == Some((delay, rest))
    ensures WithDelay(msg, now) == msg.(sendTime := now + delay, text := rest)
  {
  }

  /** A message written as DELAY:<n>:<rest> is queued for now + n with the
      text rest. */
  lemma WithDelayReadsPrefix(msg: ChatMessage, now: int, n: nat, rest: string)
    requires n < 0x8000_0000
    ensures WithDelay(msg.(text := DELAY_PREFIX + NatToString(n) + ":" + rest), now)
      == msg.(text := rest, sendTime := now + n)
  {
    DelayOfWritten(n, rest);
    WithParsedDelay(msg.(text := DELAY_PREFIX + NatToString(n) + ":" + rest), now, n, rest);
  }

  lemma WithUnparsedDelay(msg: ChatMessage, now: int)
    requires DelayOf(msg.text) == None
    ensures WithDelay(msg, now) == msg
  {
  }

  /** A message with the prefix but no second colon is queued unchanged. */
  lemma WithDelayKeepsUnparsed(msg: ChatMessage, now: int, n: nat)
    requires n < 0x8000_0000
    ensures WithDelay(msg.(text := DELAY_PREFIX + NatToString(n)), now)
      == msg.(text := DELAY_PREFIX + NatToString(n))
  {
    DelayOfWritten(n, []);
    WithUnparsedDelay(msg.(text := DELAY_PREFIX + NatToString(n)), now);
  }

  // ---------------------------------------------------------------------
  // The server

  class Server {
    var clients: array<ClientInfo>
    var clientCount: nat
    var delayed: array<DelayedEntry>
    var delayedCount: nat
    /** What the PUB socket has sent, in order. */
    var published: seq<ChatMessage>

    ghost predicate Valid()
      reads this, clients
    {
      clients.Length == MAX_CLIENTS && delayed.Length == MAX_DELAYED_MSGS &&
      clientCount <= MAX_CLIENTS && delayedCount <= MAX_DELAYED_MSGS &&
      DistinctLogins(clients[..clientCount])
    }

    ghost function Clients(): seq<ClientInfo>
      reads this, clients
      requires clientCount <= clients.Length
    {
      clients[..clientCount]
    }

    ghost function Delayed(): seq<DelayedEntry>
      reads this, delayed
      requires delayedCount <= delayed.Length
    {
      delayed[..delayedCount]
    }

    /** The zero-initialised globals. */
    constructor ()
      ensures Valid()
      ensures Clients() == [] && Delayed() == [] && published == []
    {
      clients := new ClientInfo[MAX_CLIENTS](_ => ClientInfo([], [], 0));
      delayed := new DelayedEntry[MAX_DELAYED_MSGS](_ => DelayedEntry(ChatMessage([], [], [], 0, 0), false, 0));
      clientCount := 0;
      delayedCount := 0;
      published := [];
    }

    /** The search loop shared by update_client and remove_client: the
        first index holding the login, or -1. */
    method IndexOfLogin(login: string) returns (i: int)
      requires clientCount <= clients.Length
      ensures i == FindLogin(Clients(), login)
    {
      i := 0;
      while i < clientCount
        invariant 0 <= i <= clientCount
        invariant forall k :: 0 <= k < i ==> clients[k].login != login
      {
        if clients[i].login == login {
          FindLoginIs(Clients(), login, i);
          return;
        }
        i := i + 1;
      }
      FindLoginIs(Clients(), login, -1);
      i := -1;
    }

    /** update_client: a present login gets the new address and time in
        place; a new one is appended while fewer than 100 are known. */
    method UpdateClient(login: string, address: string, now: int)
      requires Valid()
      modifies this, clients
      ensures Valid()
      ensures Clients() == Updated(old(Clients()), login, address, now)
      ensures clients == old(clients) && delayed == old(delayed)
      ensures delayedCount == old(delayedCount) && published == old(published)
    {
      ghost var cs := Clients();
      UpdatedKeepsDistinct(cs, login, address, now);
      var i := IndexOfLogin(login);
      if i >= 0 {
        clients[i] := ClientInfo(login, address, now);
        assert Clients() == cs[i := ClientInfo(login, address, now)];
      } else if clientCount < MAX_CLIENTS {
        clients[clientCount] := ClientInfo(login, address, now);
        clientCount := clientCount + 1;
        assert Clients() == cs + [ClientInfo(login, address, now)];
      }
    }

    /** remove_client: the first entry with this login goes, later entries
        shift down one place. */
    method RemoveClient(login: string)
      requires Valid()
      modifies this, clients
      ensures Valid()
      ensures Clients() == Removed(old(Clients()), login)
      ensures clients == old(clients) && delayed == old(delayed)
      ensures delayedCount == old(delayedCount) && published == old(published)
    {
      ghost var cs := Clients();
      RemovedKeepsDistinct(cs, login);
      var i := IndexOfLogin(login);
      if i >= 0 {
        ShiftDown(i);
      }
    }

    /** The shift loop of remove_client: entries after i move down one
        place and the count drops by one. */
    method ShiftDown(i: nat)
      requires clients.Length == MAX_CLIENTS && i < clientCount <= MAX_CLIENTS
      modifies this, clients
      ensures clients == old(clients) && delayed == old(delayed)
      ensures delayedCount == old(delayedCount) && published == old(published)
      ensures clientCount == old(clientCount) - 1
      ensures Clients() == old(Clients()[..i] + Clients()[i + 1..])
    {
      ghost var cs := Clients();
      var j := i;
      while j < clientCount - 1
        invariant clients == old(clients) && clientCount == old(clientCount)
        invariant delayed == old(delayed) && delayedCount == old(delayedCount) && published == old(published)
        invariant i <= j <= clientCount - 1
        invariant forall k :: 0 <= k < i ==> clients[k] == old(clients[k])
        invariant forall k :: i <= k < j ==> clients[k] == old(clients[k + 1])
        invariant forall k :: j <= k < clientCount ==> clients[k] == old(clients[k])
      {
        clients[j] := clients[j + 1];
        j := j + 1;
      }
      clientCount := clientCount - 1;
      ShiftedIsRemoved(cs, Clients(), i);
    }

    /** add_delayed_message: appended as active with its own send time while
        fewer than 1000 slots are used; otherwise dropped. */
    method AddDelayed(msg: ChatMessage)
      requires Valid()
      modifies this, delayed
      ensures Valid()
      ensures Delayed() == Added(old(Delayed()), msg)
      ensures clients == old(clients) && delayed == old(delayed) && clientCount == old(clientCount)
      ensures published == old(published)
    {
      if delayedCount < MAX_DELAYED_MSGS {
        delayed[delayedCount] := DelayedEntry(msg, true, msg.sendTime);
        delayedCount := delayedCount + 1;
      }
    }

    /** One pass of the delayed-messages thread at time now: every due
        entry is sent as TEXT stamped now and made inactive. */
    method Tick(now: int)
      requires Valid()
      modifies this, delayed
      ensures Valid()
      ensures Delayed() == Ticked(old(Delayed()), now)
      ensures published == old(published) + Due(old(Delayed()), now)
      ensures clients == old(clients) && delayed == old(delayed)
      ensures clientCount == old(clientCount) && delayedCount == old(delayedCount)
    {
      ghost var es := Delayed();
      FireAll(now, es);
      DuePrefixIsDue(es, |es|, now);
      assert es[..|es|] == es;
      assert Delayed() == Ticked(es, now);
    }

    /** The tick loop over the delayedCount slots of the table es. */
    method FireAll(now: int, ghost es: seq<DelayedEntry>)
      requires delayedCount <= delayed.Length && es == Delayed()
      modifies this, delayed
      ensures delayed == old(delayed) && delayedCount == old(delayedCount)
      ensures clients == old(clients) && clientCount == old(clientCount)
      ensures forall k :: 0 <= k < delayedCount ==> delayed[k] == Fired(es[k], now)
      ensures published == old(published) + DuePrefix(es, delayedCount, now)
    {
      var i := 0;
      while i < delayedCount
        invariant delayed == old(delayed) && delayedCount == old(delayedCount) && |es| == delayedCount
        invariant clientCount == old(clientCount) && clients == old(clients)
        invariant 0 <= i <= delayedCount
        invariant forall k :: 0 <= k < i ==> delayed[k] == Fired(es[k], now)
        invariant forall k :: i <= k < delayedCount ==> delayed[k] == es[k]
        invariant published == old(published) + DuePrefix(es, i, now)
      {
        FireSlot(i, now);
        i := i + 1;
      }
    }

    /** The body of the tick loop for slot i: a due entry becomes a TEXT
        message stamped now, is published, and is made inactive. */
    method FireSlot(i: nat, now: int)
      requires i < delayedCount <= delayed.Length
      modifies this, delayed
      ensures delayed == old(delayed) && delayedCount == old(delayedCount)
      ensures clients == old(clients) && clientCount == old(clientCount)
      ensures delayed[i] == Fired(old(delayed[i]), now)
      ensures forall k :: 0 <= k < delayed.Length && k != i ==> delayed[k] == old(delayed[k])
      ensures published == old(published) +
        (if IsDue(old(delayed[i]), now) then [Sent(old(delayed[i]), now)] else [])
    {
      var e := delayed[i];
      if e.active && e.originalSendTime <= now {
        var m := e.msg.(kind := MSG_TYPE_TEXT, sendTime := now);
        delayed[i] := e.(msg := m);
        published := published + [m];
        delayed[i] := delayed[i].(active := false);
      }
    }

    /** One message taken from the PULL socket at time now. */
    method Handle(msg: ChatMessage, now: int)
      requires Valid()
      modifies this, clients, delayed
      ensures Valid()
      ensures clients == old(clients) && delayed == old(delayed)
      ensures msg.kind == MSG_TYPE_JOIN ==>
        Clients() == Updated(old(Clients()), msg.sender, msg.text, now) &&
        Delayed() == old(Delayed()) && published == old(published)
      ensures msg.kind == MSG_TYPE_LEAVE ==>
        Clients() == Removed(old(Clients()), msg.sender) &&
        Delayed() == old(Delayed()) && published == old(published)
      ensures msg.kind == MSG_TYPE_TEXT ==>
        published == old(published) + [msg] &&
        Clients() == old(Clients()) && Delayed() == old(Delayed())
      ensures msg.kind == MSG_TYPE_DELAYED ==>
        Delayed() == Added(old(Delayed()), WithDelay(msg, now)) &&
        Clients() == old(Clients()) && published == old(published)
      ensures !(MSG_TYPE_TEXT <= msg.kind <= MSG_TYPE_LEAVE) ==>
        Clients() == old(Clients()) && Delayed() == old(Delayed()) && published == old(published)
    {
      if msg.kind == MSG_TYPE_JOIN {
        UpdateClient(msg.sender, msg.text, now);
      } else if msg.kind == MSG_TYPE_LEAVE {
        RemoveClient(msg.sender);
      } else if msg.kind == MSG_TYPE_TEXT {
        published := published + [msg];
      } else if msg.kind == MSG_TYPE_DELAYED {
        AddDelayed(WithDelay(msg, now));
      }
    }
  }
}
