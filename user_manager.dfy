/** The server's session directory: one session per login, with a user
    counter and an online counter kept in step with it. The 101-bucket chained
    hash table of the server is represented by a map from login to session;
    the bucket function itself is modelled on its own. */
module UserManager {
  import opened CString
  import opened Protocol

  /** What the directory keeps per login. The client address is an opaque
      handle; None stands for a cleared (NULL) address. */
  datatype Session = Session(status: int, lastActivity: int, address: Option<nat>, connectionId: nat)

  /** The logins of the sessions whose status is not OFFLINE. */
  function OnlineSet(m: map<string, Session>): set<string> {
    set l | l in m && m[l].status != USER_STATUS_OFFLINE
  }

  /** A session that cleanup_inactive removes: idle for strictly longer than the timeout. */
  predicate Stale(s: Session, now: int, timeout: int) {
    now - s.lastActivity > timeout
  }

  /** The directory after removing every stale session. */
  function Survivors(m: map<string, Session>, now: int, timeout: int): (r: map<string, Session>)
    ensures forall l :: l in r <==> l in m && !Stale(m[l], now, timeout)
    ensures forall l :: l in r ==> r[l] == m[l]
  {
    map l | l in m && !Stale(m[l], now, timeout) :: m[l]
  }

  lemma OnlineSetAfterUpdate(m: map<string, Session>, l: string, s: Session)
    ensures OnlineSet(m[l := s]) ==
      if s.status != USER_STATUS_OFFLINE then OnlineSet(m) + {l} else OnlineSet(m) - {l}
  {
    var a := OnlineSet(m[l := s]);
    var b := if s.status != USER_STATUS_OFFLINE then OnlineSet(m) + {l} else OnlineSet(m) - {l};
    forall x ensures x in a <==> x in b {
      if x == l {
      } else {
        assert x in m[l := s] <==> x in m;
      }
    }
  }

  /** Replacing a session by one with the same status keeps the online set. */
  lemma OnlineSetSameStatus(m: map<string, Session>, l: string, s: Session)
    requires l in m && m[l].status == s.status
    ensures OnlineSet(m[l := s]) == OnlineSet(m)
  {
    OnlineSetAfterUpdate(m, l, s);
  }

  lemma OnlineSetAfterRemove(m: map<string, Session>, l: string)
    ensures OnlineSet(m - {l}) == OnlineSet(m) - {l}
  {
  }

  // ---------------------------------------------------------------------
  // The bucket function

  /** The value of C's signed char for a character byte. */
  function SignedByte(c: char): int {
    var b := c as int % 256;
    if b >= 128 then b - 256 else b
  }

  /** The unsigned 32-bit hash accumulated over a login: h * 31 + c per character. */
  function LoginHash(s: string): (h: nat)
    ensures h < UINT32
  {
    if s == [] then 0 else (LoginHash(s[..|s| - 1]) * 31 + SignedByte(s[|s| - 1])) % UINT32
  }

  const USER_HASH_TABLE_SIZE: nat := 101

  /** hash_login: the bucket of a login, always inside the table. */
  method HashLogin(login: string) returns (bucket: nat)
    ensures bucket < USER_HASH_TABLE_SIZE
    ensures bucket == LoginHash(login) % USER_HASH_TABLE_SIZE
  {
    var hash: nat := 0;
    var i := 0;
    while i < |login|
      invariant 0 <= i <= |login|
      invariant hash == LoginHash(login[..i])
    {
      assert login[..i + 1][..i] == login[..i];
      hash := (hash * 31 + SignedByte(login[i])) % UINT32;
      i := i + 1;
    }
    assert login[..i] == login;
    bucket := hash % USER_HASH_TABLE_SIZE;
  }

  // ---------------------------------------------------------------------
  // The directory

  class SessionDirectory {
    var sessions: map<string, Session>
    var userCount: int
    var onlineCount: int

    /** Stored logins fit the login array, statuses lie in the enumeration,
        and both counters agree with the map. */
    predicate Valid()
      reads this
    {
      && (forall l :: l in sessions ==> |l| < MAX_LOGIN_LENGTH && IsStatus(sessions[l].status))
      && userCount == |sessions|
      && onlineCount == |OnlineSet(sessions)|
    }

    constructor ()
      ensures Valid() && sessions == map[] && userCount == 0 && onlineCount == 0
    {
      sessions := map[];
      userCount := 0;
      onlineCount := 0;
      assert OnlineSet(map[]) == {};
    }

    /** user_manager_exists */
    function Exists(login: string): (r: bool)
      reads this
      ensures r <==> login in sessions
    {
      login in sessions
    }

    /** user_manager_is_online: known and not OFFLINE. */
    function IsOnline(login: string): (r: bool)
      reads this
      ensures r <==> login in OnlineSet(sessions)
    {
      login in sessions && sessions[login].status != USER_STATUS_OFFLINE
    }

    /** user_manager_find */
    function Find(login: string): (r: Option<Session>)
      reads this
      ensures r.Some? <==> login in sessions
      ensures r.Some? ==> r.value == sessions[login]
    {
      if login in sessions then Some(sessions[login]) else None
    }

    /** user_manager_register: a new ONLINE session for an unknown login; a
        known login is refused with LOGIN_EXISTS, a NULL address with INVALID_MESSAGE. */
    method Register(login: string, address: Option<nat>, connectionId: nat, now: int) returns (e: ErrorCode)
      requires Valid() && |login| < MAX_LOGIN_LENGTH
      modifies this
      ensures Valid()
      ensures address.None? ==> e == InvalidMessage
      ensures address.Some? && login in old(sessions) ==> e == LoginExists
      ensures address.Some? && login !in old(sessions) ==> e == Success
      ensures e != Success ==> sessions == old(sessions) && userCount == old(userCount) && onlineCount == old(onlineCount)
      ensures e == Success ==>
        && sessions == old(sessions)[login := Session(USER_STATUS_ONLINE, now, address, connectionId)]
        && userCount == old(userCount) + 1
        && onlineCount == old(onlineCount) + 1
    {
      if address.None? {
        return InvalidMessage;
      }
      if login in sessions {
        return LoginExists;
      }
      var session := Session(USER_STATUS_ONLINE, now, address, connectionId);
      OnlineSetAfterUpdate(sessions, login, session);
      sessions := sessions[login := session];
      userCount := userCount + 1;
      onlineCount := onlineCount + 1;
      e := Success;
    }

    /** user_manager_unregister: drops the session and the counters it contributed to. */
    method Unregister(login: string) returns (e: ErrorCode)
      requires Valid()
      modifies this
      ensures Valid()
      ensures e == Success <==> login in old(sessions)
      ensures e != Success ==> e == LoginNotFound && sessions == old(sessions)
                               && userCount == old(userCount) && onlineCount == old(onlineCount)
      ensures e == Success ==>
        && sessions == old(sessions) - {login}
        && userCount == old(userCount) - 1
        && onlineCount == old(onlineCount) - (if old(sessions)[login].status != USER_STATUS_OFFLINE then 1 else 0)
    {
      if login !in sessions {
        return LoginNotFound;
      }
      OnlineSetAfterRemove(sessions, login);
      if sessions[login].status != USER_STATUS_OFFLINE {
        assert login in OnlineSet(sessions);
        onlineCount := onlineCount - 1;
      } else {
        assert OnlineSet(sessions) - {login} == OnlineSet(sessions);
      }
      userCount := userCount - 1;
      sessions := sessions - {login};
      e := Success;
    }

    /** user_manager_login: registers an unknown login; for a known one rebinds
        the address and connection, refreshes the activity time, and brings an
        OFFLINE session ONLINE (any other status is kept). */
    method Login(login: string, address: Option<nat>, connectionId: nat, now: int) returns (e: ErrorCode)
      requires Valid() && |login| < MAX_LOGIN_LENGTH
      modifies this
      ensures Valid()
      ensures address.None? ==> e == InvalidMessage && sessions == old(sessions)
                                && userCount == old(userCount) && onlineCount == old(onlineCount)
      ensures address.Some? ==> e == Success
      ensures address.Some? && login !in old(sessions) ==>
        && sessions == old(sessions)[login := Session(USER_STATUS_ONLINE, now, address, connectionId)]
        && userCount == old(userCount) + 1
        && onlineCount == old(onlineCount) + 1
      ensures address.Some? && login in old(sessions) ==>
        var s := old(sessions)[login];
        var wasOffline := s.status == USER_STATUS_OFFLINE;
        && sessions == old(sessions)[login := Session(if wasOffline then USER_STATUS_ONLINE else s.status,
                                                      now, address, connectionId)]
        && userCount == old(userCount)
        && onlineCount == old(onlineCount) + (if wasOffline then 1 else 0)
    {
      if address.None? {
        return InvalidMessage;
      }
      if login !in sessions {
        e := Register(login, address, connectionId, now);
        return;
      }
      var s := sessions[login];
      var status := s.status;
      if status == USER_STATUS_OFFLINE {
        assert login !in OnlineSet(sessions);
        status := USER_STATUS_ONLINE;
        onlineCount := onlineCount + 1;
      } else {
        assert OnlineSet(sessions) + {login} == OnlineSet(sessions);
      }
      var updated := Session(status, now, address, connectionId);
      OnlineSetAfterUpdate(sessions, login, updated);
      sessions := sessions[login := updated];
      e := Success;
    }

    /** user_manager_logout: marks the session OFFLINE and clears its address;
        the online counter drops only for a session that was not already OFFLINE. */
    method Logout(login: string, now: int) returns (e: ErrorCode)
      requires Valid()
      modifies this
      ensures Valid()
      ensures e == Success <==> login in old(sessions)
      ensures e != Success ==> e == LoginNotFound && sessions == old(sessions)
                               && userCount == old(userCount) && onlineCount == old(onlineCount)
      ensures e == Success ==>
        var s := old(sessions)[login];
        && sessions == old(sessions)[login := s.(status := USER_STATUS_OFFLINE, address := None, lastActivity := now)]
        && userCount == old(userCount)
        && onlineCount == old(onlineCount) - (if s.status != USER_STATUS_OFFLINE then 1 else 0)
    {
      if login !in sessions {
        return LoginNotFound;
      }
      var s := sessions[login];
      if s.status != USER_STATUS_OFFLINE {
        onlineCount := onlineCount - 1;
      }
      var updated := s.(status := USER_STATUS_OFFLINE, address := None, lastActivity := now);
      OnlineSetAfterUpdate(sessions, login, updated);
      sessions := sessions[login := updated];
      e := Success;
    }

    /** user_manager_update_status: the range check comes before the lookup;
        the online counter moves only when OFFLINE is entered or left. */
    method UpdateStatus(login: string, newStatus: int, now: int) returns (e: ErrorCode)
      requires Valid()
      modifies this
      ensures Valid()
      ensures !IsStatus(newStatus) ==> e == InvalidMessage
      ensures IsStatus(newStatus) && login !in old(sessions) ==> e == LoginNotFound
      ensures IsStatus(newStatus) && login in old(sessions) ==> e == Success
      ensures e != Success ==> sessions == old(sessions) && userCount == old(userCount) && onlineCount == old(onlineCount)
      ensures e == Success ==>
        var s := old(sessions)[login];
        var was := s.status != USER_STATUS_OFFLINE;
        var will := newStatus != USER_STATUS_OFFLINE;
        && sessions == old(sessions)[login := s.(status := newStatus, lastActivity := now)]
        && userCount == old(userCount)
        && onlineCount == old(onlineCount) + (if !was && will then 1 else if was && !will then -1 else 0)
    {
      if !IsStatus(newStatus) {
        return InvalidMessage;
      }
      if login !in sessions {
        return LoginNotFound;
      }
      var s := sessions[login];
      var wasOnline := s.status != USER_STATUS_OFFLINE;
      var willBeOnline := newStatus != USER_STATUS_OFFLINE;
      if wasOnline && !willBeOnline {
        onlineCount := onlineCount - 1;
      } else if !wasOnline && willBeOnline {
        onlineCount := onlineCount + 1;
      }
      var updated := s.(status := newStatus, lastActivity := now);
      OnlineSetAfterUpdate(sessions, login, updated);
      sessions := sessions[login := updated];
      e := Success;
    }

    /** user_manager_update_activity: refreshes the activity time of a known login. */
    method UpdateActivity(login: string, now: int)
      requires Valid()
      modifies this
      ensures Valid()
      ensures login in old(sessions) ==> sessions == old(sessions)[login := old(sessions)[login].(lastActivity := now)]
      ensures login !in old(sessions) ==> sessions == old(sessions)
      ensures userCount == old(userCount) && onlineCount == old(onlineCount)
    {
      if login in sessions {
        var updated := sessions[login].(lastActivity := now);
        OnlineSetSameStatus(sessions, login, updated);
        sessions := sessions[login := updated];
      }
    }

    /** user_manager_get_online_logins: every login whose session is not
        OFFLINE, each exactly once, as many as the online counter says. */
    method OnlineLogins() returns (logins: seq<string>)
      requires Valid()
      ensures forall i, j :: 0 <= i < j < |logins| ==> logins[i] != logins[j]
      ensures forall l :: l in logins <==> l in OnlineSet(sessions)
      ensures |logins| == onlineCount
    {
      logins := [];
      var remaining := sessions.Keys;
      while remaining != {}
        invariant remaining <= sessions.Keys
        invariant forall i, j :: 0 <= i < j < |logins| ==> logins[i] != logins[j]
        invariant forall l :: l in logins <==> l in OnlineSet(sessions) && l !in remaining
        decreases |remaining|
      {
        var l :| l in remaining;
        if sessions[l].status != USER_STATUS_OFFLINE {
          logins := logins + [l];
        }
        remaining := remaining - {l};
      }
      DistinctCardinality(logins, OnlineSet(sessions));
    }

    /** user_manager_cleanup_inactive: with a positive timeout (and a clock
        reading other than -1) removes exactly the stale sessions, counting each
        one off both counters; otherwise changes nothing. */
    method CleanupInactive(timeout: int, now: int)
      requires Valid()
      modifies this
      ensures Valid()
      ensures timeout <= 0 || now == -1 ==> sessions == old(sessions)
      ensures timeout > 0 && now != -1 ==> sessions == Survivors(old(sessions), now, timeout)
    {
      if timeout <= 0 || now == -1 {
        return;
      }
      var remaining := sessions.Keys;
      ghost var start := sessions;
      while remaining != {}
        invariant Valid()
        invariant remaining <= start.Keys
        invariant forall l :: l in sessions <==>
          l in start && (l in remaining || !Stale(start[l], now, timeout))
        invariant forall l :: l in sessions ==> sessions[l] == start[l]
        decreases |remaining|
      {
        var l :| l in remaining;
        DropIfStale(l, now, timeout);
        remaining := remaining - {l};
      }
    }

    /** One step of the cleanup scan: removes the session of l when it is
        stale, counting it off both counters. */
    method DropIfStale(l: string, now: int, timeout: int)
      requires Valid() && l in sessions
      modifies this
      ensures Valid()
      ensures Stale(old(sessions)[l], now, timeout) ==> sessions == old(sessions) - {l}
      ensures !Stale(old(sessions)[l], now, timeout) ==> sessions == old(sessions)
    {
      if Stale(sessions[l], now, timeout) {
        OnlineSetAfterRemove(sessions, l);
        if sessions[l].status != USER_STATUS_OFFLINE {
          onlineCount := onlineCount - 1;
        }
        userCount := userCount - 1;
        sessions := sessions - {l};
      }
    }
  }

  /** A sequence without repeats that holds exactly the elements of a set has its size. */
  lemma {:induction false} DistinctCardinality(xs: seq<string>, s: set<string>)
    requires forall i, j :: 0 <= i < j < |xs| ==> xs[i] != xs[j]
    requires forall x :: x in xs <==> x in s
    ensures |xs| == |s|
  {
    if xs != [] {
      var last := xs[|xs| - 1];
      var init := xs[..|xs| - 1];
      forall x ensures x in init <==> x in s - {last} {
        if x in init {
          var i :| 0 <= i < |init| && init[i] == x;
          assert xs[i] == x;
        }
        if x in s - {last} {
          assert x in xs;
          var i :| 0 <= i < |xs| && xs[i] == x;
          assert i != |xs| - 1;
          assert init[i] == x;
        }
      }
      DistinctCardinality(init, s - {last});
    } else {
      assert forall x :: x !in s;
      assert s == {};
    }
  }
}
