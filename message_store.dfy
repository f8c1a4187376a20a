/** The server's store of messages waiting for an offline receiver: a list
    with a counter, bounded on insertion, drained per receiver, swept by age,
    and saved to and loaded from a count-prefixed file. The linked list of
    the server is represented by a sequence in list order (head first). */
module MessageStore {
  import opened CString
  import opened Protocol

  const MAX_PENDING_MESSAGES: int := 10000

  /** A stored message with the time it was stored and its delivery attempts. */
  datatype PendingNode = PendingNode(message: Message, deliveryTime: int, attempts: int)

  /** The contents of the store file: the count header (None when the file
      is too short to hold one) and the complete records that follow it. */
  datatype StoreFile = StoreFile(header: Option<int>, records: seq<PendingNode>)

  /** create_pending_node: a fresh node holds the message, is stamped with the
      current time and has not been delivered yet. */
  function NewNode(m: Message, now: int): (n: PendingNode)
    ensures n.message == m && n.deliveryTime == now && n.attempts == 0
  {
    PendingNode(m, now, 0)
  }

  predicate ForLogin(n: PendingNode, login: string) {
    n.message.receiver == login
  }

  /** The nodes addressed to login, in list order. */
  function ForReceiver(ps: seq<PendingNode>, login: string): (r: seq<PendingNode>)
    ensures |r| <= |ps|
    ensures forall n :: n in r <==> n in ps && ForLogin(n, login)
  {
    if ps == [] then []
    else
      var init := ForReceiver(ps[..|ps| - 1], login);
      var last := ps[|ps| - 1];
      assert forall n :: n in ps <==> n in ps[..|ps| - 1] || n == last by {
        assert ps == ps[..|ps| - 1] + [last];
      }
      if ForLogin(last, login) then init + [last] else init
  }

  /** The nodes addressed to anybody else, in list order. */
  function NotForReceiver(ps: seq<PendingNode>, login: string): (r: seq<PendingNode>)
    ensures |r| <= |ps|
    ensures forall n :: n in r <==> n in ps && !ForLogin(n, login)
  {
    if ps == [] then []
    else
      var init := NotForReceiver(ps[..|ps| - 1], login);
      var last := ps[|ps| - 1];
      assert forall n :: n in ps <==> n in ps[..|ps| - 1] || n == last by {
        assert ps == ps[..|ps| - 1] + [last];
      }
      if ForLogin(last, login) then init else init + [last]
  }

  /** The messages held by a list of nodes. */
  function Messages(ns: seq<PendingNode>): (r: seq<Message>)
    ensures |r| == |ns|
    ensures forall i :: 0 <= i < |ns| ==> r[i] == ns[i].message
  {
    if ns == [] then [] else Messages(ns[..|ns| - 1]) + [ns[|ns| - 1].message]
  }

  /** A node that cleanup_old removes: stored strictly longer ago than the limit. */
  predicate TooOld(n: PendingNode, now: int, olderThan: int) {
    now - n.deliveryTime > olderThan
  }

  /** The nodes that survive an age sweep, in list order. */
  function YoungEnough(ps: seq<PendingNode>, now: int, olderThan: int): (r: seq<PendingNode>)
    ensures |r| <= |ps|
    ensures forall n :: n in r <==> n in ps && !TooOld(n, now, olderThan)
  {
    if ps == [] then []
    else
      var init := YoungEnough(ps[..|ps| - 1], now, olderThan);
      var last := ps[|ps| - 1];
      assert forall n :: n in ps <==> n in ps[..|ps| - 1] || n == last by {
        assert ps == ps[..|ps| - 1] + [last];
      }
      if TooOld(last, now, olderThan) then init else init + [last]
  }

  /** Draining splits the list: nothing is lost and nothing is duplicated. */
  lemma {:induction false} DrainPartitions(ps: seq<PendingNode>, login: string)
    ensures |ForReceiver(ps, login)| + |NotForReceiver(ps, login)| == |ps|
    ensures multiset(ForReceiver(ps, login)) + multiset(NotForReceiver(ps, login)) == multiset(ps)
  {
    if ps != [] {
      DrainPartitions(ps[..|ps| - 1], login);
      assert ps == ps[..|ps| - 1] + [ps[|ps| - 1]];
    }
  }

  /** Once drained, a receiver has nothing left: a second drain returns nothing. */
  lemma {:induction false} DrainIdempotent(ps: seq<PendingNode>, login: string)
    ensures ForReceiver(NotForReceiver(ps, login), login) == []
    ensures NotForReceiver(NotForReceiver(ps, login), login) == NotForReceiver(ps, login)
  {
    if ps != [] {
      var init := ps[..|ps| - 1];
      var last := ps[|ps| - 1];
      DrainIdempotent(init, login);
      if !ForLogin(last, login) {
        var rest := NotForReceiver(init, login);
        assert NotForReceiver(ps, login) == rest + [last];
        assert (rest + [last])[..|rest + [last]| - 1] == rest;
      }
    }
  }

  /** The age sweep keeps a node exactly when it is not too old, and sweeping
      twice with the same clock removes nothing more. */
  lemma {:induction false} SweepIdempotent(ps: seq<PendingNode>, now: int, olderThan: int)
    ensures YoungEnough(YoungEnough(ps, now, olderThan), now, olderThan) == YoungEnough(ps, now, olderThan)
  {
    if ps != [] {
      var init := ps[..|ps| - 1];
      var last := ps[|ps| - 1];
      SweepIdempotent(init, now, olderThan);
      if !TooOld(last, now, olderThan) {
        var rest := YoungEnough(init, now, olderThan);
        assert (rest + [last])[..|rest + [last]| - 1] == rest;
      }
    }
  }

  /** The index of the first node carrying the id, or -1. */
  function FirstWithId(ps: seq<PendingNode>, id: nat): (i: int)
    ensures -1 <= i < |ps|
    ensures i >= 0 ==> ps[i].message.id == id
    ensures forall k :: 0 <= k < |ps| && (i < 0 || k < i) ==> ps[k].message.id != id
  {
    if ps == [] then -1
    else if ps[0].message.id == id then 0
    else
      var k := FirstWithId(ps[1..], id);
      if k < 0 then -1 else k + 1
  }

  /** What save_to_file writes: the count, then every node in list order. */
  function SaveImage(ps: seq<PendingNode>, count: int): StoreFile {
    StoreFile(Some(count), ps)
  }

  /** The records load_from_file takes from a file whose header is n: up to n
      of them, fewer when the file ends early, none for a count below one. */
  function RecordsLoaded(n: int, records: seq<PendingNode>): (k: nat)
    ensures k <= |records|
    ensures n <= 0 ==> k == 0
    ensures n > 0 ==> k == Min(n, |records|)
  {
    if n <= 0 then 0 else Min(n, |records|)
  }

  /** The outcome of loading a file (None: it could not be opened) into a
      store holding ps and count: the return code, the list and the count.
      Loaded records are appended after the nodes already present. */
  function LoadOutcome(ps: seq<PendingNode>, count: int, file: Option<StoreFile>): (r: (int, seq<PendingNode>, int))
    ensures file.None? ==> r == (0, ps, count)
    ensures file.Some? && file.value.header.None? ==> r == (-1, ps, count)
    ensures file.Some? && file.value.header.Some? ==>
      var k := RecordsLoaded(file.value.header.value, file.value.records);
      && r.1 == ps + file.value.records[..k]
      && r.2 == count + k
      && (r.0 == 0 <==> file.value.header.value <= |file.value.records|)
      && (r.0 == 0 || r.0 == -1)
  {
    if file.None? then (0, ps, count)
    else if file.value.header.None? then (-1, ps, count)
    else
      var n := file.value.header.value;
      var k := RecordsLoaded(n, file.value.records);
      (if n <= |file.value.records| then 0 else -1, ps + file.value.records[..k], count + k)
  }

  /** Saving and loading the file into an empty store reproduces the list and the count. */
  lemma SaveLoadRoundTrip(ps: seq<PendingNode>)
    ensures LoadOutcome([], 0, Some(SaveImage(ps, |ps|))) == (0, ps, |ps|)
  {
    assert ps[..|ps|] == ps;
    assert [] + ps == ps;
  }

  /** A file cut short inside a record still yields the records before the cut. */
  lemma TruncatedLoadKeepsPrefix(ps: seq<PendingNode>, records: seq<PendingNode>, n: int)
    requires |records| < n
    ensures LoadOutcome(ps, |ps|, Some(StoreFile(Some(n), records))) == (-1, ps + records, |ps| + |records|)
  {
    assert records[..|records|] == records;
  }

  /** The loader as written: the first record read becomes the head of the
      list, so the nodes already present are dropped while the count still
      grows by the number of records read. */
  function LoadAsWritten(ps: seq<PendingNode>, count: int, file: Option<StoreFile>): (r: (int, seq<PendingNode>, int))
    ensures file.Some? && file.value.header.Some? ==>
      var k := RecordsLoaded(file.value.header.value, file.value.records);
      k > 0 ==> r.1 == file.value.records[..k] && r.2 == count + k
  {
    if file.None? then (0, ps, count)
    else if file.value.header.None? then (-1, ps, count)
    else
      var n := file.value.header.value;
      var k := RecordsLoaded(n, file.value.records);
      (if n <= |file.value.records| then 0 else -1,
       if k > 0 then file.value.records[..k] else ps,
       count + k)
  }

  /** Loading one record into a store that holds one node: as written, the
      store ends with one node and a count of two. */
  lemma LoadAsWrittenLosesNodes(old_node: PendingNode, new_node: PendingNode)
    ensures var r := LoadAsWritten([old_node], 1, Some(StoreFile(Some(1), [new_node])));
      r.1 == [new_node] && r.2 == 2 && |r.1| != r.2
    ensures var r := LoadOutcome([old_node], 1, Some(StoreFile(Some(1), [new_node])));
      r.1 == [old_node, new_node] && r.2 == 2 && |r.1| == r.2
  {
  }

  /** Into an empty store, which is where the server loads, both agree. */
  lemma LoadAsWrittenAgreesWhenEmpty(file: Option<StoreFile>)
    ensures LoadAsWritten([], 0, file) == LoadOutcome([], 0, file)
  {
    if file.Some? && file.value.header.Some? {
      var k := RecordsLoaded(file.value.header.value, file.value.records);
      assert [] + file.value.records[..k] == file.value.records[..k];
    }
  }

  class Store {
    var pending: seq<PendingNode>
    var messageCount: int

    /** The counter is the length of the list. */
    predicate Valid()
      reads this
    {
      messageCount == |pending|
    }

    constructor ()
      ensures Valid() && pending == []
    {
      pending := [];
      messageCount := 0;
    }

    /** message_store_add: refuses with SERVER_FULL at the limit, otherwise
        puts a fresh node at the head of the list. */
    method Add(m: Message, now: int) returns (e: ErrorCode)
      requires Valid()
      modifies this
      ensures Valid()
      ensures e == Success <==> old(messageCount) < MAX_PENDING_MESSAGES
      ensures e != Success ==> e == ServerFull && pending == old(pending)
      ensures e == Success ==> pending == [NewNode(m, now)] + old(pending) && messageCount == old(messageCount) + 1
    {
      if messageCount >= MAX_PENDING_MESSAGES {
        return ServerFull;
      }
      pending := [NewNode(m, now)] + pending;
      messageCount := messageCount + 1;
      e := Success;
    }

    /** message_store_remove: unlinks the first node with the id; an unknown
        id is reported as LOGIN_NOT_FOUND. */
    method Remove(id: nat) returns (e: ErrorCode)
      requires Valid()
      modifies this
      ensures Valid()
      ensures var i := FirstWithId(old(pending), id);
        && (e == Success <==> i >= 0)
        && (i < 0 ==> e == LoginNotFound && pending == old(pending))
        && (i >= 0 ==> pending == old(pending)[..i] + old(pending)[i + 1..])
    {
      var i := 0;
      while i < |pending| && pending[i].message.id != id
        invariant 0 <= i <= |pending|
        invariant forall k :: 0 <= k < i ==> pending[k].message.id != id
      {
        i := i + 1;
      }
      if i == |pending| {
        return LoginNotFound;
      }
      pending := pending[..i] + pending[i + 1..];
      messageCount := messageCount - 1;
      e := Success;
    }

    /** message_store_get_for_user: the first node addressed to login, if any. */
    method GetForUser(login: string) returns (r: Option<PendingNode>)
      requires Valid()
      ensures r.None? <==> ForReceiver(pending, login) == []
      ensures r.Some? ==>
        (exists i :: 0 <= i < |pending| && r.value == pending[i] && ForLogin(pending[i], login)
                     && forall k :: 0 <= k < i ==> !ForLogin(pending[k], login))
    {
      var i := 0;
      while i < |pending|
        invariant 0 <= i <= |pending|
        invariant forall k :: 0 <= k < i ==> !ForLogin(pending[k], login)
      {
        if pending[i].message.receiver == login {
          assert pending[i] in ForReceiver(pending, login);
          return Some(pending[i]);
        }
        i := i + 1;
      }
      NoneForReceiver(pending, login);
      return None;
    }

    /** message_store_deliver_for_user: hands over, in list order, every
        message addressed to login and unlinks those nodes, keeping the others
        in their order. */
    method DeliverForUser(login: string) returns (e: ErrorCode, delivered: seq<Message>)
      requires Valid()
      modifies this
      ensures Valid() && e == Success
      ensures delivered == Messages(ForReceiver(old(pending), login))
      ensures pending == NotForReceiver(old(pending), login)
      ensures ForReceiver(old(pending), login) == [] ==> pending == old(pending)
    {
      var count := CountForReceiver(pending, login);
      if count == 0 {
        NothingToDrain(pending, login);
        return Success, [];
      }
      var start := pending;
      var kept := [];
      delivered := [];
      var i := 0;
      while i < |start|
        invariant 0 <= i <= |start|
        invariant delivered == Messages(ForReceiver(start[..i], login))
        invariant kept == NotForReceiver(start[..i], login)
        invariant messageCount == |start| - |delivered|
      {
        DrainStep(start, i, login);
        if start[i].message.receiver == login {
          delivered := delivered + [start[i].message];
          messageCount := messageCount - 1;
        } else {
          kept := kept + [start[i]];
        }
        i := i + 1;
      }
      assert start[..i] == start;
      DrainPartitions(start, login);
      pending := kept;
      e := Success;
    }

    /** message_store_cleanup_old: with a positive limit (and a clock reading
        other than -1) removes the nodes stored too long ago, keeping the rest
        in order; otherwise changes nothing. */
    method CleanupOld(olderThan: int, now: int)
      requires Valid()
      modifies this
      ensures Valid()
      ensures olderThan <= 0 || now == -1 ==> pending == old(pending)
      ensures olderThan > 0 && now != -1 ==> pending == YoungEnough(old(pending), now, olderThan)
    {
      if olderThan <= 0 || now == -1 {
        return;
      }
      var start := pending;
      var kept := [];
      var i := 0;
      while i < |start|
        invariant 0 <= i <= |start|
        invariant kept == YoungEnough(start[..i], now, olderThan)
        invariant messageCount == |start| - (i - |kept|)
      {
        assert start[..i + 1][..i] == start[..i];
        if now - start[i].deliveryTime > olderThan {
          messageCount := messageCount - 1;
        } else {
          kept := kept + [start[i]];
        }
        i := i + 1;
      }
      assert start[..i] == start;
      pending := kept;
    }

    /** message_store_save_to_file: writes the count and the nodes in list
        order; a file that cannot be created gives -1. */
    method Save(writable: bool) returns (rc: int, file: Option<StoreFile>)
      requires Valid()
      ensures !writable ==> rc == -1 && file.None?
      ensures writable ==> rc == 0 && file == Some(SaveImage(pending, messageCount))
    {
      if !writable {
        return -1, None;
      }
      var records := [];
      var i := 0;
      while i < |pending|
        invariant 0 <= i <= |pending|
        invariant records == pending[..i]
      {
        records := records + [pending[i]];
        i := i + 1;
      }
      assert pending[..i] == pending;
      return 0, Some(StoreFile(Some(messageCount), records));
    }

    /** message_store_load_from_file, appending the records after the nodes
        already present (see LoadAsWritten for the loader as written). */
    method Load(file: Option<StoreFile>) returns (rc: int)
      requires Valid()
      modifies this
      ensures Valid()
      ensures (rc, pending, messageCount) == LoadOutcome(old(pending), old(messageCount), file)
    {
      if file.None? {
        return 0;
      }
      if file.value.header.None? {
        return -1;
      }
      var n := file.value.header.value;
      var records := file.value.records;
      ghost var start := pending;
      var i := 0;
      while i < n
        invariant 0 <= i <= |records| && (n > 0 ==> i <= n) && (n <= 0 ==> i == 0)
        invariant pending == start + records[..i]
        invariant messageCount == |start| + i
      {
        if i >= |records| {
          return -1;
        }
        assert records[..i + 1] == records[..i] + [records[i]];
        pending := pending + [records[i]];
        messageCount := messageCount + 1;
        i := i + 1;
      }
      assert n <= 0 ==> records[..i] == [];
      return 0;
    }
  }

  /** The counting pass of deliver_for_user. */
  method CountForReceiver(ps: seq<PendingNode>, login: string) returns (count: nat)
    ensures count == |ForReceiver(ps, login)|
  {
    count := 0;
    var i := 0;
    while i < |ps|
      invariant 0 <= i <= |ps|
      invariant count == |ForReceiver(ps[..i], login)|
    {
      assert ps[..i + 1][..i] == ps[..i];
      if ps[i].message.receiver == login {
        count := count + 1;
      }
      i := i + 1;
    }
    assert ps[..i] == ps;
  }

  /** One step of the collecting pass: the filters of a prefix grow by its next node. */
  lemma DrainStep(ps: seq<PendingNode>, i: nat, login: string)
    requires i < |ps|
    ensures ForReceiver(ps[..i + 1], login) ==
      ForReceiver(ps[..i], login) + (if ForLogin(ps[i], login) then [ps[i]] else [])
    ensures NotForReceiver(ps[..i + 1], login) ==
      NotForReceiver(ps[..i], login) + (if ForLogin(ps[i], login) then [] else [ps[i]])
    ensures Messages(ForReceiver(ps[..i + 1], login)) ==
      Messages(ForReceiver(ps[..i], login)) + (if ForLogin(ps[i], login) then [ps[i].message] else [])
  {
    assert ps[..i + 1][..i] == ps[..i];
    var f := ForReceiver(ps[..i], login);
    if ForLogin(ps[i], login) {
      assert (f + [ps[i]])[..|f|] == f;
    }
  }

  /** A list with no node for login has nothing to drain. */
  lemma {:induction false} NoneForReceiver(ps: seq<PendingNode>, login: string)
    requires forall k :: 0 <= k < |ps| ==> !ForLogin(ps[k], login)
    ensures ForReceiver(ps, login) == []
  {
    if ps != [] {
      NoneForReceiver(ps[..|ps| - 1], login);
    }
  }

  /** A receiver with nothing addressed to it leaves the list as it is. */
  lemma {:induction false} NothingToDrain(ps: seq<PendingNode>, login: string)
    requires ForReceiver(ps, login) == []
    ensures NotForReceiver(ps, login) == ps
  {
    if ps != [] {
      var init := ps[..|ps| - 1];
      var last := ps[|ps| - 1];
      assert !ForLogin(last, login);
      NothingToDrain(init, login);
      assert ps == init + [last];
    }
  }
}
