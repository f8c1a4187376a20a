/*
 * The ROUTER-socket chat server: clients are keyed by the identity frame
 * the socket gives them (at most 10), register a display name by sending
 * any text not starting with '@', and send "@name text" to forward text to
 * the first client registered under that name. The socket's outgoing
 * frames are a log of replies.
 */
module IdentityServer {
  import opened CString

  const MAX_CLIENTS: int := 10
  /** Bytes of a name kept by strncpy(name, 31) plus the forced NUL. */
  const NAME_KEEP: int := 31
  /** Bytes of a received message kept in the 256-byte buffer. */
  const MESSAGE_KEEP: int := 255

  newtype byte = b: int | 0 <= b < 256

  /** Client: its name and the identity bytes (identity_size of them). */
  datatype ClientRecord = ClientRecord(name: string, identity: seq<byte>)

  /** What main decides for a received text. */
  datatype Action =
    | Direct(target: string, text: string)   // "@target text"
    | Malformed                              // '@' without a space
    | Register(name: string)                 // anything else

  /** A multipart reply the server sends: text to a target identity, or
      the not-found error back to the sender. */
  datatype Reply =
    | Forwarded(to: seq<byte>, text: string)
    | NotFound(to: seq<byte>, target: string)

  // ---------------------------------------------------------------------
  // The client table

  /** find_client_index_by_name on the table's contents. */
  function FindByName(cs: seq<ClientRecord>, name: string): (r: int)
    ensures -1 <= r < |cs|
    ensures r >= 0 ==> cs[r].name == name
    ensures forall k :: 0 <= k < |cs| && (r < 0 || k < r) ==> cs[k].name != name
  {
    if cs == [] then -1
    else if cs[0].name == name then 0
    else
      var k := FindByName(cs[1..], name);
      if k < 0 then -1 else k + 1
  }

  /** find_client_index_by_identity on the table's contents: equal size
      and equal bytes, i.e. equal byte sequences. */
  function FindByIdentity(cs: seq<ClientRecord>, id: seq<byte>): (r: int)
    ensures -1 <= r < |cs|
    ensures r >= 0 ==> cs[r].identity == id
    ensures forall k :: 0 <= k < |cs| && (r < 0 || k < r) ==> cs[k].identity != id
  {
    if cs == [] then -1
    else if |cs[0].identity| == |id| && cs[0].identity == id then 0
    else
      var k := FindByIdentity(cs[1..], id);
      if k < 0 then -1 else k + 1
  }

  predicate DistinctIdentities(cs: seq<ClientRecord>) {
    forall i, j :: 0 <= i < j < |cs| ==> cs[i].identity != cs[j].identity
  }

  /** register_client on the table's contents. */
  function Registered(cs: seq<ClientRecord>, id: seq<byte>, name: string): seq<ClientRecord> {
    var i := FindByIdentity(cs, id);
    if i >= 0 then cs[i := cs[i].(name := Take(name, NAME_KEEP))]
    else if |cs| >= MAX_CLIENTS then cs
    else cs + [ClientRecord(Take(name, NAME_KEEP), id)]
  }

  /** register_client's result: 1 unless a new identity met a full table. */
  function RegisterResult(cs: seq<ClientRecord>, id: seq<byte>): int {
    if FindByIdentity(cs, id) >= 0 || |cs| < MAX_CLIENTS then 1 else 0
  }

  /** The index returned for an identity is the first holding it. */
  lemma FindByIdentityIs(cs: seq<ClientRecord>, id: seq<byte>, e: int)
    requires -1 <= e < |cs|
    requires e >= 0 ==> cs[e].identity == id
    requires forall k :: 0 <= k < |cs| && (e < 0 || k < e) ==> cs[k].identity != id
    ensures FindByIdentity(cs, id) == e
  {
  }

  /** The index returned for a name is the first holding it. */
  lemma FindByNameIs(cs: seq<ClientRecord>, name: string, e: int)
    requires -1 <= e < |cs|
    requires e >= 0 ==> cs[e].name == name
    requires forall k :: 0 <= k < |cs| && (e < 0 || k < e) ==> cs[k].name != name
    ensures FindByName(cs, name) == e
  {
  }

  /** register_client keeps identities distinct and the table within 10. */
  lemma RegisteredKeepsDistinct(cs: seq<ClientRecord>, id: seq<byte>, name: string)
    requires DistinctIdentities(cs) && |cs| <= MAX_CLIENTS
    ensures DistinctIdentities(Registered(cs, id, name))
    ensures |Registered(cs, id, name)| <= MAX_CLIENTS
  {
  }

  /** A known identity is renamed in place (the name cut to 31 characters)
      with result 1; a new identity is appended with result 1 while fewer
      than 10 are known; otherwise the result is 0 and nothing changes. */
  lemma RegisteredOutcome(cs: seq<ClientRecord>, id: seq<byte>, name: string)
    ensures var r := Registered(cs, id, name);
      var i := FindByIdentity(cs, id);
      (i >= 0 ==>
        (|r| == |cs| && r[i] == ClientRecord(Take(name, NAME_KEEP), id) && RegisterResult(cs, id) == 1)) &&
      (i < 0 && |cs| < MAX_CLIENTS ==>
        (r == cs + [ClientRecord(Take(name, NAME_KEEP), id)] && RegisterResult(cs, id) == 1)) &&
      (i < 0 && |cs| >= MAX_CLIENTS ==> (r == cs && RegisterResult(cs, id) == 0))
  {
  }

  /** After a successful registration the identity is found, holding the
      truncated name; every other entry keeps its place and record. */
  lemma RegisteredFindsIdentity(cs: seq<ClientRecord>, id: seq<byte>, name: string)
    requires RegisterResult(cs, id) == 1
    ensures var r := Registered(cs, id, name);
      FindByIdentity(r, id) >= 0 &&
      r[FindByIdentity(r, id)] == ClientRecord(Take(name, NAME_KEEP), id) &&
      forall k :: 0 <= k < |cs| && cs[k].identity != id ==> r[k] == cs[k]
  {
    var r := Registered(cs, id, name);
    var i := FindByIdentity(cs, id);
    if i >= 0 {
      FindByIdentityIs(r, id, i);
    } else {
      FindByIdentityIs(r, id, |cs|);
    }
  }

  /** A name longer than 31 characters is stored cut short, so a later
      "@name" with the full name never reaches that entry. */
  lemma LongNameUnreachable(cs: seq<ClientRecord>, id: seq<byte>, name: string)
    requires |name| > NAME_KEEP && RegisterResult(cs, id) == 1
    ensures var r := Registered(cs, id, name);
      FindByIdentity(r, id) >= 0 && r[FindByIdentity(r, id)].name != name
  {
    RegisteredFindsIdentity(cs, id, name);
  }

  /** Two identities may share a name; lookup by that name finds the
      first of them. */
  lemma SharedNameFindsFirst(a: seq<byte>, b: seq<byte>, name: string)
    requires a != b && |name| <= NAME_KEEP
    ensures var cs := Registered(Registered([], a, name), b, name);
      |cs| == 2 && cs[0].name == cs[1].name == name &&
      DistinctIdentities(cs) && FindByName(cs, name) == 0
  {
    TakeOfShort(name, NAME_KEEP);
    var one := Registered([], a, name);
    assert one == [ClientRecord(name, a)];
    FindByIdentityIs(one, b, -1);
    var cs := Registered(one, b, name);
    assert cs == [ClientRecord(name, a), ClientRecord(name, b)];
    FindByNameIs(cs, name, 0);
  }

  // ---------------------------------------------------------------------
  // Routing

  /** The received frame as main reads it: at most 255 bytes copied into
      the buffer, then read as a C string. */
  function MessageText(frame: string): (r: string)
    ensures |r| <= MESSAGE_KEEP && NUL !in r
  {
    CStr(Take(frame, MESSAGE_KEEP))
  }

  /** The decision main takes for a message text. */
  function Route(s: string): (a: Action)
    ensures a.Register? <==> s == [] || s[0] != '@'
    ensures a.Malformed? <==> s != [] && s[0] == '@' && ' ' !in s
  {
    if s != [] && s[0] == '@' then
      var space := IndexOf(s, ' ');
      if space >= 0 then Direct(s[1..space], s[space + 1..]) else Malformed
    else Register(s)
  }

  /** "@target text" with no space in target routes text to target; the
      text may hold further spaces. */
  lemma RouteDirect(target: string, text: string)
    requires ' ' !in target
    ensures Route("@" + target + " " + text) == Direct(target, text)
  {
    var s := "@" + target + " " + text;
    assert s[1 + |target|] == ' ';
    assert s[..1 + |target|] == "@" + target;
    assert IndexOf(s, ' ') == 1 + |target|;
    assert s[1..1 + |target|] == target;
    assert s[2 + |target|..] == text;
  }

  /** A registration names the client with the whole text. */
  lemma RouteRegister(name: string)
    requires name == [] || name[0] != '@'
    ensures Route(name) == Register(name)
  {
  }

  // ---------------------------------------------------------------------
  // The server

  class Server {
    var clients: array<ClientRecord>
    var clientCount: nat
    /** The replies the ROUTER socket has sent, in order. */
    var replies: seq<Reply>

    ghost predicate Valid()
      reads this, clients
    {
      clients.Length == MAX_CLIENTS && clientCount <= MAX_CLIENTS &&
      DistinctIdentities(clients[..clientCount])
    }

    ghost function Clients(): seq<ClientRecord>
      reads this, clients
      requires clientCount <= clients.Length
    {
      clients[..clientCount]
    }

    constructor ()
      ensures Valid() && Clients() == [] && replies == []
    {
      clients := new ClientRecord[MAX_CLIENTS](_ => ClientRecord([], []));
      clientCount := 0;
      replies := [];
    }

    /** find_client_index_by_name. */
    method IndexByName(name: string) returns (i: int)
      requires clientCount <= clients.Length
      ensures i == FindByName(Clients(), name)
    {
      i := 0;
      while i < clientCount
        invariant 0 <= i <= clientCount
        invariant forall k :: 0 <= k < i ==> clients[k].name != name
      {
        if clients[i].name == name {
          FindByNameIs(Clients(), name, i);
          return;
        }
        i := i + 1;
      }
      FindByNameIs(Clients(), name, -1);
      i := -1;
    }

    /** find_client_index_by_identity. */
    method IndexByIdentity(id: seq<byte>) returns (i: int)
      requires clientCount <= clients.Length
      ensures i == FindByIdentity(Clients(), id)
    {
      i := 0;
      while i < clientCount
        invariant 0 <= i <= clientCount
        invariant forall k :: 0 <= k < i ==> clients[k].identity != id
      {
        if |clients[i].identity| == |id| && clients[i].identity == id {
          FindByIdentityIs(Clients(), id, i);
          return;
        }
        i := i + 1;
      }
      FindByIdentityIs(Clients(), id, -1);
      i := -1;
    }

    /** register_client. */
    method RegisterClient(id: seq<byte>, name: string) returns (r: int)
      requires Valid()
      modifies this, clients
      ensures Valid()
      ensures Clients() == Registered(old(Clients()), id, name)
      ensures r == RegisterResult(old(Clients()), id)
      ensures clients == old(clients) && replies == old(replies)
    {
      ghost var cs := Clients();
      RegisteredKeepsDistinct(cs, id, name);
      var idx := IndexByIdentity(id);
      if idx >= 0 {
        clients[idx] := clients[idx].(name := Take(name, NAME_KEEP));
        assert Clients() == cs[idx := cs[idx].(name := Take(name, NAME_KEEP))];
        return 1;
      }
      if clientCount >= MAX_CLIENTS {
        return 0;
      }
      clients[clientCount] := ClientRecord(Take(name, NAME_KEEP), id);
      clientCount := clientCount + 1;
      assert Clients() == cs + [ClientRecord(Take(name, NAME_KEEP), id)];
      return 1;
    }

    /** One pass of main's loop for a frame from `sender`: a registration,
        a forward to the first client with the target name, the not-found
        reply to the sender, or nothing for a malformed '@' message. */
    method Handle(sender: seq<byte>, frame: string)
      requires Valid()
      modifies this, clients
      ensures Valid() && clients == old(clients)
      ensures var s := MessageText(frame);
        match Route(s)
        case Register(name) =>
          Clients() == Registered(old(Clients()), sender, name) && replies == old(replies)
        case Malformed =>
          Clients() == old(Clients()) && replies == old(replies)
        case Direct(target, text) =>
          Clients() == old(Clients()) &&
          var i := FindByName(old(Clients()), target);
          replies == old(replies) + [if i >= 0 then Forwarded(old(Clients())[i].identity, text)
                                     else NotFound(sender, target)]
    {
      var s := MessageText(frame);
      if s != [] && s[0] == '@' {
        var space := IndexOf(s, ' ');
        if space >= 0 {
          var target := s[1..space];
          var text := s[space + 1..];
          var idx := IndexByName(target);
          if idx >= 0 {
            replies := replies + [Forwarded(clients[idx].identity, text)];
          } else {
            replies := replies + [NotFound(sender, target)];
          }
        }
      } else {
        var _ := RegisterClient(sender, s);
      }
    }
  }
}
