/** The wire vocabulary shared by the messenger's client and server: message
    types, user statuses, error codes, limits, flags and the message record. */
module Protocol {

  datatype Option<T> = None | Some(value: T)

  // Message types (numbering of the C enumeration, starting at 1)
  const MSG_TYPE_REGISTER: int := 1
  const MSG_TYPE_LOGIN: int := 2
  const MSG_TYPE_UNREGISTER: int := 3
  const MSG_TYPE_TEXT_MESSAGE: int := 4
  const MSG_TYPE_BROADCAST: int := 5
  const MSG_TYPE_GET_USERS: int := 6
  const MSG_TYPE_SET_STATUS: int := 7
  const MSG_TYPE_ACK: int := 8
  const MSG_TYPE_ERROR: int := 9
  const MSG_TYPE_USER_LIST: int := 10
  const MSG_TYPE_SYSTEM_MESSAGE: int := 11
  const MSG_TYPE_USER_JOINED: int := 12
  const MSG_TYPE_USER_LEFT: int := 13
  const MSG_TYPE_CHAT_MESSAGE: int := 14

  // User statuses
  const USER_STATUS_OFFLINE: int := 0
  const USER_STATUS_ONLINE: int := 1
  const USER_STATUS_AWAY: int := 2
  const USER_STATUS_BUSY: int := 3
  const USER_STATUS_INVISIBLE: int := 4

  /** A status value inside the enumeration. */
  predicate IsStatus(s: int) { USER_STATUS_OFFLINE <= s <= USER_STATUS_INVISIBLE }

  // Limits
  const MAX_LOGIN_LENGTH: int := 32
  const MAX_MESSAGE_LENGTH: int := 512
  const MAX_USERS: int := 10000

  // Message flags (bit masks)
  const FLAG_ENCRYPTED: int := 1
  const FLAG_URGENT: int := 2
  const FLAG_READ_RECEIPT: int := 4
  const FLAG_DELAYED: int := 8
  const FLAG_OFFLINE_STORE: int := 16
  const FLAG_SYSTEM: int := 32

  datatype ErrorCode =
    | Success
    | Unknown
    | InvalidLogin
    | LoginExists
    | LoginNotFound
    | UserOffline
    | MessageTooLong
    | ServerFull
    | InvalidMessage
    | NotAuthorized
    | InternalServer

  /** The number an error code travels as. */
  function ErrorCodeValue(e: ErrorCode): (n: nat)
    ensures n <= 10
    ensures n == 0 <==> e == Success
  {
    match e
    case Success => 0
    case Unknown => 1
    case InvalidLogin => 2
    case LoginExists => 3
    case LoginNotFound => 4
    case UserOffline => 5
    case MessageTooLong => 6
    case ServerFull => 7
    case InvalidMessage => 8
    case NotAuthorized => 9
    case InternalServer => 10
  }

  /** The error code a received number stands for, if any. */
  function ErrorCodeOf(n: int): (r: Option<ErrorCode>)
    ensures r.Some? <==> 0 <= n <= 10
    ensures r.Some? ==> ErrorCodeValue(r.value) == n
  {
    if n == 0 then Some(Success)
    else if n == 1 then Some(Unknown)
    else if n == 2 then Some(InvalidLogin)
    else if n == 3 then Some(LoginExists)
    else if n == 4 then Some(LoginNotFound)
    else if n == 5 then Some(UserOffline)
    else if n == 6 then Some(MessageTooLong)
    else if n == 7 then Some(ServerFull)
    else if n == 8 then Some(InvalidMessage)
    else if n == 9 then Some(NotAuthorized)
    else if n == 10 then Some(InternalServer)
    else None
  }

  /** Every error code survives its trip through the wire number. */
  lemma ErrorCodeRoundTrip(e: ErrorCode)
    ensures ErrorCodeOf(ErrorCodeValue(e)) == Some(e)
  {
  }

  /** The message record; the character arrays hold C strings, so each field
      is the text before the terminator (at most 31 or 511 characters on the wire). */
  datatype Message = Message(
    msgType: int,
    id: nat,
    timestamp: nat,
    sender: string,
    receiver: string,
    text: string,
    flags: nat)

  /** A message record that memset() cleared. */
  const ZeroMessage: Message := Message(0, 0, 0, "", "", "", 0)

  /** The reply a request-reply exchange carries back. */
  datatype ServerResponse = ServerResponse(
    originalType: int,
    originalId: nat,
    code: ErrorCode,
    info: string)
}
