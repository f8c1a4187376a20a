// The client's connection state machine, its login bookkeeping and the
// growable queue of received messages (client_core.c).

module ClientCore {
  import opened CString
  import opened Protocol
  import opened Utils

  /** ClientState, in declaration order. */
  datatype ClientState = Disconnected | Connecting | Connected | LoggedIn | Error | ShuttingDown

  /** The enum value of a state. */
  function Ordinal(s: ClientState): (n: nat)
    ensures n <= 5
    ensures s == Disconnected <==> n == 0
    ensures s == LoggedIn <==> n == 3
  {
    match s
    case Disconnected => 0
    case Connecting => 1
    case Connected => 2
    case LoggedIn => 3
    case Error => 4
    case ShuttingDown => 5
  }

  /** client_is_connected: the state is at or past CONNECTED in enum order,
      so ERROR and SHUTTING_DOWN count as connected too. */
  predicate ConnectedState(s: ClientState) {
    Ordinal(s) >= Ordinal(Connected)
  }

  /** client_is_logged_in. */
  predicate LoggedInState(s: ClientState) {
    s == LoggedIn
  }

  /** Which states count as connected, by name. */
  lemma ConnectedStates(s: ClientState)
    ensures ConnectedState(s) <==> s in {Connected, LoggedIn, Error, ShuttingDown}
    ensures !ConnectedState(s) <==> s in {Disconnected, Connecting}
  {
  }

  /** A logged-in client is a connected one. */
  lemma LoggedInIsConnected(s: ClientState)
    ensures LoggedInState(s) ==> ConnectedState(s)
  {
  }

  /** The capacity queue_message grows a full queue to. */
  function GrownCapacity(capacity: nat): (r: nat)
    ensures r > capacity && r >= 10
    ensures r == if 2 * capacity < 10 then 10 else 2 * capacity
  {
    if capacity * 2 < 10 then 10 else capacity * 2
  }

  /** The status returned by client_login for a client in state s: the login
      is checked first, then the connection, then the request's delivery
      (None: network_send_request failed), then the server's code, and last
      whether the subscription socket could be set up. */
  function LoginCode(s: ClientState, login: string, reply: Option<ErrorCode>, subscribed: bool): (r: ErrorCode)
    ensures !IsValidLogin(login) ==> r == InvalidLogin
    ensures IsValidLogin(login) && !ConnectedState(s) ==> r == NotAuthorized
    ensures IsValidLogin(login) && ConnectedState(s) && reply.None? ==> r == InternalServer
    ensures r == Success <==> IsValidLogin(login) && ConnectedState(s) && reply == Some(Success) && subscribed
  {
    if !IsValidLogin(login) then InvalidLogin
    else if !ConnectedState(s) then NotAuthorized
    else if reply.None? then InternalServer
    else if reply.value != Success then reply.value
    else if !subscribed then InternalServer
    else Success
  }

  /** The server accepted the login: the point after which client_login has
      set the login, the status and the state, whatever the subscription
      socket then does. */
  predicate LoginAccepted(s: ClientState, login: string, reply: Option<ErrorCode>) {
    IsValidLogin(login) && ConnectedState(s) && reply == Some(Success)
  }

  /** A failed subscription still leaves the client logged in: the code is
      INTERNAL_SERVER although the state has already moved to LOGGED_IN. */
  lemma LoginAcceptedButUnsubscribed(s: ClientState, login: string)
    requires IsValidLogin(login) && ConnectedState(s)
    ensures LoginAccepted(s, login, Some(Success))
    ensures LoginCode(s, login, Some(Success), false) == InternalServer
  {
  }

  /** A server-side refusal is passed through unchanged. */
  lemma LoginPassesServerCode(s: ClientState, login: string, e: ErrorCode)
    requires IsValidLogin(login) && ConnectedState(s) && e != Success
    ensures LoginCode(s, login, Some(e), true) == e
    ensures !LoginAccepted(s, login, Some(e))
  {
  }

  /** The REGISTER request client_login sends: the clock reading is stored
      in the 32-bit timestamp field, so it wraps modulo 2^32. */
  function LoginRequest(login: string, id: nat, now: nat): (m: Message)
    ensures m.msgType == MSG_TYPE_REGISTER && m.id == id
    ensures m.timestamp < UINT32 && m.timestamp == now % UINT32
    ensures now < UINT32 ==> m.timestamp == now
    ensures m.sender == Take(login, MAX_LOGIN_LENGTH - 1)
    ensures m.receiver == [] && m.text == [] && m.flags == 0
  {
    Message(MSG_TYPE_REGISTER, id, ToUint32(now), Take(login, MAX_LOGIN_LENGTH - 1), [], [], 0)
  }

  /** The status client_send_message returns. */
  function SendCode(s: ClientState, receiver: string): (r: ErrorCode)
    ensures r == Success <==> LoggedInState(s) && IsValidLogin(receiver)
    ensures !LoggedInState(s) ==> r == NotAuthorized
    ensures LoggedInState(s) && !IsValidLogin(receiver) ==> r == InvalidLogin
  {
    if !LoggedInState(s) then NotAuthorized
    else if !IsValidLogin(receiver) then InvalidLogin
    else Success
  }

  /** The Client structure: its state, login, ports, statistics, the status
      callback (as whether one is set and the calls it has received) and the
      message queue. The server host and the three ports are written only by
      client_create, so they are constants here. */
  class Client {
    var state: ClientState
    var login: string
    var status: int
    const serverHost: string
    const reqPort: int
    const subPort: int
    const pushPort: int
    var messagesSent: nat
    var statusCallbackSet: bool
    var statusCalls: seq<(ClientState, ClientState)>
    var queue: array<Message>
    var queueSize: nat

    predicate Valid()
      reads this
    {
      queueSize <= queue.Length && messagesSent < UINT32
    }

    /** The queued messages, oldest first. */
    function Queued(): seq<Message>
      reads this, queue
      requires Valid()
    {
      queue[..queueSize]
    }

    /** client_create after its argument checks: server parameters copied,
        ports derived from the request port, state DISCONNECTED, an empty
        queue of capacity 10 and no callback. */
    constructor (host: string, port: int)
      requires port > 0
      ensures Valid()
      ensures serverHost == Take(host, 255)
      ensures reqPort == port && subPort == port + 1 && pushPort == port + 2
      ensures state == Disconnected && login == [] && status == USER_STATUS_OFFLINE
      ensures messagesSent == 0 && !statusCallbackSet && statusCalls == []
      ensures queue.Length == 10 && queueSize == 0 && fresh(queue)
    {
      state := Disconnected;
      login := [];
      status := USER_STATUS_OFFLINE;
      serverHost := Take(host, 255);
      reqPort := port;
      subPort := port + 1;
      pushPort := port + 2;
      messagesSent := 0;
      statusCallbackSet := false;
      statusCalls := [];
      queue := new Message[10](_ => ZeroMessage);
      queueSize := 0;
    }

    /** client_set_status_callback: installs or removes the callback. */
    method SetStatusCallback(installed: bool)
      modifies this
      ensures statusCallbackSet == installed
      ensures state == old(state) && statusCalls == old(statusCalls)
      ensures login == old(login) && status == old(status) && messagesSent == old(messagesSent)
      ensures queue == old(queue) && queueSize == old(queueSize)
    {
      statusCallbackSet := installed;
    }

    /** change_state: nothing happens when the state is already s; otherwise
        the state becomes s and a set callback is called once with the old
        and the new state. */
    method ChangeState(s: ClientState)
      modifies this
      ensures state == s
      ensures statusCalls == if old(state) == s || !statusCallbackSet then old(statusCalls)
                             else old(statusCalls) + [(old(state), s)]
      ensures login == old(login) && status == old(status) && messagesSent == old(messagesSent)
      ensures statusCallbackSet == old(statusCallbackSet)
      ensures queue == old(queue) && queueSize == old(queueSize)
    {
      var previous := state;
      if previous != s {
        state := s;
        if statusCallbackSet {
          statusCalls := statusCalls + [(previous, s)];
        }
      }
    }

    /** queue_message: appends a copy of m, first moving a full queue to a
        new buffer of GrownCapacity slots that keeps the queued messages. */
    method QueueMessage(m: Message)
      requires Valid()
      modifies this, queue
      ensures Valid()
      ensures Queued() == old(Queued()) + [m]
      ensures queue.Length == if old(queueSize) >= old(queue.Length) then GrownCapacity(old(queue.Length))
                              else old(queue.Length)
      ensures state == old(state) && login == old(login) && statusCalls == old(statusCalls)
      ensures messagesSent == old(messagesSent) && status == old(status)
      ensures statusCallbackSet == old(statusCallbackSet)
    {
      if queueSize >= queue.Length {
        var grown := Grow(queue, queueSize, GrownCapacity(queue.Length));
        queue := grown;
      }
      queue[queueSize] := m;
      queueSize := queueSize + 1;
    }

    /** client_connect without its socket set-up, whose outcome is initOk:
        a connected client is left alone; otherwise the client passes
        through CONNECTING to CONNECTED, or to ERROR with -1 when the set-up
        fails. */
    method Connect(initOk: bool) returns (r: int)
      requires Valid()
      modifies this
      ensures Valid()
      ensures ConnectedState(old(state)) ==> r == 0 && state == old(state) && statusCalls == old(statusCalls)
      ensures !ConnectedState(old(state)) ==> state == (if initOk then Connected else Error)
      ensures !ConnectedState(old(state)) ==> r == (if initOk then 0 else -1)
      ensures !ConnectedState(old(state)) && statusCallbackSet ==>
                statusCalls == old(statusCalls)
                               + (if old(state) == Connecting then [] else [(old(state), Connecting)])
                               + [(Connecting, state)]
      ensures !statusCallbackSet ==> statusCalls == old(statusCalls)
      ensures statusCallbackSet == old(statusCallbackSet)
      ensures login == old(login) && status == old(status) && messagesSent == old(messagesSent)
      ensures queue == old(queue) && queueSize == old(queueSize)
    {
      if ConnectedState(state) {
        return 0;
      }
      ChangeState(Connecting);
      if !initOk {
        ChangeState(Error);
        return -1;
      }
      ChangeState(Connected);
      r := 0;
    }

    /** client_login. The request goes out with an id from ids and the time
        now; reply is the server's code (None: the request could not be
        sent) and subscribed whether the subscription socket came up. Login,
        status and state change only once the server has accepted. */
    method Login(name: string, ids: IdGenerator, now: nat, reply: Option<ErrorCode>, subscribed: bool)
      returns (code: ErrorCode, request: Option<Message>)
      requires Valid() && ids.Valid()
      modifies this, ids
      ensures Valid() && ids.Valid()
      ensures code == LoginCode(old(state), name, reply, subscribed)
      ensures request.Some? <==> IsValidLogin(name) && ConnectedState(old(state))
      ensures request.Some? ==> request.value == LoginRequest(name, request.value.id, now)
      ensures LoginAccepted(old(state), name, reply) ==>
                login == Take(name, MAX_LOGIN_LENGTH - 1) && status == USER_STATUS_ONLINE && state == LoggedIn
      ensures LoginAccepted(old(state), name, reply) ==>
                statusCalls == if old(state) == LoggedIn || !statusCallbackSet then old(statusCalls)
                               else old(statusCalls) + [(old(state), LoggedIn)]
      ensures !LoginAccepted(old(state), name, reply) ==>
                login == old(login) && status == old(status) && state == old(state) && statusCalls == old(statusCalls)
      ensures request.Some? ==> ids.counter == (old(ids.counter) + 1) % UINT32 && request.value.id == MessageId(now, ids.counter)
      ensures request.None? ==> ids.counter == old(ids.counter)
      ensures statusCallbackSet == old(statusCallbackSet)
      ensures messagesSent == old(messagesSent) && queue == old(queue) && queueSize == old(queueSize)
    {
      request := None;
      if !IsValidLogin(name) {
        return InvalidLogin, None;
      }
      if !ConnectedState(state) {
        return NotAuthorized, None;
      }
      var id := ids.Next(now);
      request := Some(LoginRequest(name, id, now));
      if reply.None? {
        return InternalServer, request;
      }
      if reply.value != Success {
        return reply.value, request;
      }
      login := Take(name, MAX_LOGIN_LENGTH - 1);
      status := USER_STATUS_ONLINE;
      ChangeState(LoggedIn);
      if !subscribed {
        return InternalServer, request;
      }
      code := Success;
    }

    /** client_logout: a client that is not logged in is left alone;
        otherwise the login is cleared, the status goes OFFLINE and the
        state back to CONNECTED. Both paths return 0. */
    method Logout() returns (r: int)
      modifies this
      ensures r == 0
      ensures !LoggedInState(old(state)) ==>
                state == old(state) && login == old(login) && status == old(status) && statusCalls == old(statusCalls)
      ensures LoggedInState(old(state)) ==>
                state == Connected && login == [] && status == USER_STATUS_OFFLINE
                && statusCalls == old(statusCalls) + (if statusCallbackSet then [(LoggedIn, Connected)] else [])
      ensures statusCallbackSet == old(statusCallbackSet)
      ensures messagesSent == old(messagesSent) && queue == old(queue) && queueSize == old(queueSize)
    {
      if !LoggedInState(state) {
        return 0;
      }
      login := [];
      status := USER_STATUS_OFFLINE;
      ChangeState(Connected);
      r := 0;
    }

    /** client_send_message: counts one more sent message (a 32-bit
        counter) when logged in and the receiver is a valid login. */
    method SendMessage(receiver: string, text: string) returns (code: ErrorCode)
      requires Valid()
      modifies this
      ensures Valid()
      ensures code == SendCode(state, receiver)
      ensures messagesSent == if code == Success then (old(messagesSent) + 1) % UINT32 else old(messagesSent)
      ensures state == old(state) && login == old(login) && status == old(status)
      ensures statusCalls == old(statusCalls) && queue == old(queue) && queueSize == old(queueSize)
      ensures statusCallbackSet == old(statusCallbackSet)
    {
      if !LoggedInState(state) {
        return NotAuthorized;
      }
      if !IsValidLogin(receiver) {
        return InvalidLogin;
      }
      messagesSent := (messagesSent + 1) % UINT32;
      code := Success;
    }

    /** client_is_connected. */
    predicate IsConnected()
      reads this
    {
      ConnectedState(state)
    }

    /** client_is_logged_in. */
    predicate IsLoggedIn()
      reads this
    {
      LoggedInState(state)
    }
  }

  /** client_create: a missing host or a port that is not positive gives
      no client. */
  method Create(host: Option<string>, port: int) returns (c: Client?)
    ensures c == null <==> host.None? || port <= 0
    ensures c != null ==> fresh(c) && c.Valid() && c.state == Disconnected
    ensures c != null ==> c.serverHost == Take(host.value, 255)
    ensures c != null ==> c.reqPort == port && c.subPort == port + 1 && c.pushPort == port + 2
    ensures c != null ==> c.login == [] && c.status == USER_STATUS_OFFLINE && c.messagesSent == 0
    ensures c != null ==> !c.statusCallbackSet && c.statusCalls == []
    ensures c != null ==> c.queue.Length == 10 && c.queueSize == 0
  {
    if host.None? || port <= 0 {
      return null;
    }
    c := new Client(host.value, port);
  }

  /** The realloc in queue_message: a new buffer of the given capacity whose
      first n slots hold those of a. */
  method Grow(a: array<Message>, n: nat, capacity: nat) returns (b: array<Message>)
    requires n <= a.Length && n < capacity
    ensures fresh(b) && b.Length == capacity
    ensures b[..n] == a[..n]
  {
    b := new Message[capacity](_ => ZeroMessage);
    var i := 0;
    while i < n
      invariant 0 <= i <= n
      invariant forall k :: 0 <= k < i ==> b[k] == a[k]
    {
      b[i] := a[i];
      i := i + 1;
    }
  }
}
