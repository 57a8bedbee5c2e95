/**
 The class `Database` of src/Database.cpp: every operation takes a connection,
 prepares and runs its statements, and puts the connection back.

 Whether a statement prepares, whether it runs, and after how many rows of the
 table a query breaks off are parameters. A method returns None when it would
 wait for a connection forever. Ghost histories record
 what each table went through; `Valid` says that every table is the function of
 its history that the modules FriendsTable, OfflineMail and Credentials study.
 */
module Database {
  import opened Common
  import ConnectionPool
  import Credentials
  import FriendsTable
  import OfflineMail

  /** What the join sees of `users`. */
  function NamesOf(users: map<string, Credentials.User>): map<string, Option<string>> {
    map id | id in users :: users[id].username
  }

  /** The names in `users` of those ids that have one, in order. */
  function UsernamesOf(users: map<string, Credentials.User>, ids: seq<string>): seq<string> {
    if |ids| == 0 then [] else
      var id := ids[|ids| - 1];
      UsernamesOf(users, ids[..|ids| - 1])
      + if id in users && users[id].username.Some? then [users[id].username.value] else []
  }

  /** The latest names of those ids that were ever registered, in order. */
  function OwnerNames(trace: seq<Credentials.Event>, ids: seq<string>): seq<string> {
    if |ids| == 0 then [] else
      OwnerNames(trace, ids[..|ids| - 1])
      + match Credentials.Owner(trace, ids[|ids| - 1])
        case Some(account) => [account.username]
        case None => []
  }

  lemma {:induction false} JoinReadsUsernames(users: map<string, Credentials.User>, ids: seq<string>)
    ensures FriendsTable.NamesFor(NamesOf(users), ids) == UsernamesOf(users, ids)
  {
    if |ids| > 0 {
      JoinReadsUsernames(users, ids[..|ids| - 1]);
    }
  }

  lemma NameFromHistory(digest: Credentials.Digest, trace: seq<Credentials.Event>, id: string)
    ensures FriendsTable.NameOf(NamesOf(Credentials.Table(digest, trace)), id)
            == match Credentials.Owner(trace, id)
               case Some(account) => Some(account.username)
               case None => None
  {
    Credentials.TableHoldsAccounts(digest, trace, id);
  }

  /** The join yields what the history of `users` says. */
  lemma {:induction false} NamesFromHistory(digest: Credentials.Digest, trace: seq<Credentials.Event>, ids: seq<string>)
    ensures FriendsTable.NamesFor(NamesOf(Credentials.Table(digest, trace)), ids) == OwnerNames(trace, ids)
  {
    if |ids| > 0 {
      NamesFromHistory(digest, trace, ids[..|ids| - 1]);
      NameFromHistory(digest, trace, ids[|ids| - 1]);
      hide NamesOf, FriendsTable.NameOf, Credentials.Table, Credentials.Owner;
    }
  }

  ghost predicate AllOwned(trace: seq<Credentials.Event>, ids: seq<string>) {
    forall i :: 0 <= i < |ids| ==> Credentials.Owner(trace, ids[i]).Some?
  }

  /** Every id is paired with the latest name it was registered or renamed to. */
  ghost predicate OwnersNamed(trace: seq<Credentials.Event>, pairs: seq<(string, string)>) {
    forall i :: 0 <= i < |pairs| ==>
      var owner := Credentials.Owner(trace, pairs[i].0);
      owner.Some? && pairs[i].1 == owner.value.username
  }

  /** All of `ids` with their owners' names if all have one, and nothing otherwise. */
  ghost predicate IsFriendList(trace: seq<Credentials.Event>, ids: seq<string>, pairs: seq<(string, string)>) {
    && OwnersNamed(trace, pairs)
    && if AllOwned(trace, ids) then |pairs| == |ids| && forall i :: 0 <= i < |ids| ==> pairs[i].0 == ids[i]
       else pairs == []
  }

  lemma PairsFromHistory(digest: Credentials.Digest, trace: seq<Credentials.Event>, ids: seq<string>)
    ensures var names := NamesOf(Credentials.Table(digest, trace));
            IsFriendList(trace, ids,
                         if FriendsTable.AllNamed(names, ids) then FriendsTable.NamedPairs(names, ids) else [])
  {
    var names := NamesOf(Credentials.Table(digest, trace));
    forall i | 0 <= i < |ids|
      ensures FriendsTable.NameOf(names, ids[i])
              == match Credentials.Owner(trace, ids[i])
                 case Some(account) => Some(account.username)
                 case None => None
    {
      NameFromHistory(digest, trace, ids[i]);
    }
    hide NamesOf, FriendsTable.NameOf, Credentials.Table, Credentials.Owner;
    assert FriendsTable.AllNamed(names, ids) <==> AllOwned(trace, ids) by {
      assert forall i :: 0 <= i < |ids| ==>
          (FriendsTable.NameOf(names, ids[i]).Some? <==> Credentials.Owner(trace, ids[i]).Some?);
    }
    if AllOwned(trace, ids) {
      var pairs := FriendsTable.NamedPairs(names, ids);
      assert forall i :: 0 <= i < |pairs| ==> pairs[i] == (ids[i], FriendsTable.NameOf(names, ids[i]).value);
    }
  }

  /** The accepted friends of `u`, by the history, each once. */
  ghost predicate AreFriends(trace: seq<FriendsTable.Event>, u: string, ids: seq<string>) {
    (forall f :: f in ids <==> FriendsTable.AcceptedBy(trace, u, f)) && FriendsTable.NoneTwice(ids)
  }

  lemma FriendsFromHistory(trace: seq<FriendsTable.Event>, u: string)
    ensures AreFriends(trace, u, FriendsTable.FriendIds(FriendsTable.Table(trace), u))
  {
    hide FriendsTable.AcceptedBy, FriendsTable.Accepted, FriendsTable.Table, FriendsTable.FriendIds,
      FriendsTable.KeyedOnce;
    var rows := FriendsTable.Table(trace);
    FriendsTable.FriendIdsAreAccepted(rows, u);
    forall f ensures f in FriendsTable.FriendIds(rows, u) <==> FriendsTable.AcceptedBy(trace, u, f) {
      FriendsTable.TableIsItsHistory(trace, u, f);
    }
    FriendsTable.TableIsItsHistory(trace, u, u);
    FriendsTable.FriendIdsOnce(rows, u);
  }

  function Min(a: nat, b: nat): nat {
    if a < b then a else b
  }

  // ---- The loops over sqlite3_step, breaking off after `scanned` rows of the table ----

  method ReadFriendIds(rows: seq<FriendsTable.Row>, u: string, scanned: nat) returns (found: seq<string>)
    ensures found == FriendsTable.FriendIds(rows[..Min(scanned, |rows|)], u)
  {
    found := [];
    var i := 0;
    while i < |rows| && i < scanned
      invariant 0 <= i <= Min(scanned, |rows|)
      invariant found == FriendsTable.FriendIds(rows[..i], u)
    {
      assert rows[..i + 1][..i] == rows[..i];
      if rows[i].userId == u && rows[i].status == 1 {
        found := found + [rows[i].friendId];
      }
      i := i + 1;
    }
  }

  method ReadFriendNames(rows: seq<FriendsTable.Row>, users: map<string, Credentials.User>, u: string, scanned: nat)
    returns (found: seq<string>)
    ensures found == FriendsTable.FriendNames(rows[..Min(scanned, |rows|)], NamesOf(users), u)
    ensures found == UsernamesOf(users, FriendsTable.FriendIds(rows[..Min(scanned, |rows|)], u))
  {
    found := [];
    var i := 0;
    while i < |rows| && i < scanned
      invariant 0 <= i <= Min(scanned, |rows|)
      invariant found == FriendsTable.FriendNames(rows[..i], NamesOf(users), u)
    {
      assert rows[..i + 1][..i] == rows[..i];
      var r := rows[i];
      if r.userId == u && r.status == 1 && r.friendId in users {
        var username := users[r.friendId].username;
        if username.Some? {
          found := found + [username.value];
        }
      }
      i := i + 1;
    }
    FriendsTable.NamesFollowIds(rows[..i], NamesOf(users), u);
    JoinReadsUsernames(users, FriendsTable.FriendIds(rows[..i], u));
  }

  method ReadContents(rows: seq<OfflineMail.Row>, u: string, scanned: nat) returns (found: seq<string>)
    ensures found == OfflineMail.ContentsFor(rows[..Min(scanned, |rows|)], u)
  {
    found := [];
    var i := 0;
    while i < |rows| && i < scanned
      invariant 0 <= i <= Min(scanned, |rows|)
      invariant found == OfflineMail.ContentsFor(rows[..i], u)
    {
      assert rows[..i + 1][..i] == rows[..i];
      if rows[i].userId == u {
        found := found + [rows[i].content];
      }
      i := i + 1;
    }
  }

  /** The loop of `getFriendPair`, behind its length check. */
  method ZipIfEqual(ids: seq<string>, friendNames: seq<string>) returns (friendPair: seq<(string, string)>)
    ensures friendPair == FriendsTable.FriendPair(ids, friendNames)
  {
    friendPair := [];
    if |ids| == |friendNames| {
      var i := 0;
      while i < |ids|
        invariant 0 <= i <= |ids|
        invariant friendPair == FriendsTable.Zip(ids, friendNames)[..i]
      {
        friendPair := friendPair + [(ids[i], friendNames[i])];
        i := i + 1;
      }
    }
  }

  class Database {
    const digest: Credentials.Digest
    ghost const created: seq<ConnectionPool.Connection>
    var pool: seq<ConnectionPool.Connection>
    var friends: seq<FriendsTable.Row>
    var offline: seq<OfflineMail.Row>
    var users: map<string, Credentials.User>
    ghost var uses: seq<bool>
    ghost var friendTrace: seq<FriendsTable.Event>
    ghost var mailTrace: seq<OfflineMail.Event>
    ghost var userTrace: seq<Credentials.Event>

    ghost predicate PoolValid()
      reads this
    {
      ConnectionPool.CanRun(created, uses) && pool == ConnectionPool.Run(created, uses)
    }

    ghost predicate TablesValid()
      reads this
    {
      && friends == FriendsTable.Table(friendTrace)
      && offline == OfflineMail.Table(mailTrace)
      && users == Credentials.Table(digest, userTrace)
    }

    ghost predicate Valid()
      reads this
    {
      PoolValid() && TablesValid()
    }

    /** `init`: a pool of fresh connections, and empty tables. */
    constructor (poolSize: nat, digest: Credentials.Digest)
      ensures Valid() && this.digest == digest
      ensures created == seq(poolSize, i => i) && pool == created
      ensures uses == [] && friendTrace == [] && mailTrace == [] && userTrace == []
    {
      this.digest := digest;
      var connections: seq<ConnectionPool.Connection> := [];
      var i := 0;
      while i < poolSize
        invariant 0 <= i <= poolSize
        invariant connections == seq(i, j => j)
      {
        connections := connections + [i];
        i := i + 1;
      }
      created, pool := connections, connections;
      friends, offline, users := [], [], map[];
      uses, friendTrace, mailTrace, userTrace := [], [], [], [];
    }

    /** `getConnection`; None when the pool is empty and the caller waits. */
    method GetConnection() returns (conn: Option<ConnectionPool.Connection>)
      modifies this`pool
      ensures old(pool) == [] ==> conn == None && pool == []
      ensures old(pool) != [] ==> conn == Some(old(pool)[0]) && pool == old(pool)[1..]
    {
      if pool == [] {
        conn := None;
      } else {
        conn := Some(pool[0]);
        pool := pool[1..];
      }
    }

    /** The whole life of a connection in one operation. */
    method UseConnection(prepared: bool) returns (got: bool)
      requires PoolValid()
      modifies this`pool, this`uses
      ensures got == (old(pool) != [])
      ensures pool == if got then ConnectionPool.Use(old(pool), prepared) else []
      ensures uses == if got then old(uses) + [prepared] else old(uses)
      ensures PoolValid()
    {
      ghost var before := pool;
      var conn := GetConnection();
      if conn.None? {
        return false;
      }
      if prepared {
        pool := pool + [conn.value];
      }
      ConnectionPool.RunOneMore(created, uses, prepared);
      uses := uses + [prepared];
      got := true;
    }

    // ---- Friends --------------------------------------------------------------

    method AddFriend(u: string, f: string, prepared1: bool, ran1: bool, prepared2: bool, ran2: bool)
      returns (ok: Option<bool>)
      requires Valid()
      modifies this`pool, this`uses, this`friends, this`friendTrace
      ensures Valid()
      ensures old(pool) == [] ==> ok == None && friendTrace == old(friendTrace)
      ensures old(pool) != [] ==>
                && ok == Some(prepared1 && prepared2 && ran1 && ran2)
                && friendTrace == old(friendTrace)
                                  + [FriendsTable.Add(u, f, prepared1 && ran1, prepared1 && prepared2 && ran2)]
      ensures uses == if ok.Some? then old(uses) + [prepared1 && prepared2] else old(uses)
    {
      hide ConnectionPool.Run, ConnectionPool.CanRun, FriendsTable.Table, OfflineMail.Table, Credentials.Table;
      ghost var e := FriendsTable.Add(u, f, prepared1 && ran1, prepared1 && prepared2 && ran2);
      var got := UseConnection(prepared1 && prepared2);
      if !got {
        return None;
      }
      FriendsTable.TableAppend(friendTrace, e);
      friendTrace := friendTrace + [e];
      if !prepared1 {
        return Some(false);
      }
      if ran1 {
        friends := FriendsTable.InsertOrIgnore(friends, u, f);
      }
      if !prepared2 {
        return Some(false);
      }
      if ran2 {
        friends := FriendsTable.InsertOrIgnore(friends, f, u);
      }
      ok := Some(ran1 && ran2);
    }

    method AckAddFriend(u: string, f: string, prepared: bool, ran: bool) returns (ok: Option<bool>)
      requires Valid()
      modifies this`pool, this`uses, this`friends, this`friendTrace
      ensures Valid()
      ensures ok == if old(pool) == [] then None else Some(prepared && ran)
      ensures friendTrace == if ok == Some(true) then old(friendTrace) + [FriendsTable.Ack(u, f)] else old(friendTrace)
      ensures uses == if ok.Some? then old(uses) + [prepared] else old(uses)
    {
      hide ConnectionPool.Run, ConnectionPool.CanRun, FriendsTable.Table, OfflineMail.Table, Credentials.Table;
      var got := UseConnection(prepared);
      if !got {
        return None;
      }
      ok := Some(prepared && ran);
      if prepared && ran {
        FriendsTable.TableAppend(friendTrace, FriendsTable.Ack(u, f));
        friendTrace := friendTrace + [FriendsTable.Ack(u, f)];
        friends := FriendsTable.Accept(friends, u, f);
      }
    }

    method RemoveFriend(u: string, f: string, prepared: bool, ran: bool) returns (ok: Option<bool>)
      requires Valid()
      modifies this`pool, this`uses, this`friends, this`friendTrace
      ensures Valid()
      ensures ok == if old(pool) == [] then None else Some(prepared && ran)
      ensures friendTrace == if ok == Some(true) then old(friendTrace) + [FriendsTable.Remove(u, f)]
                             else old(friendTrace)
      ensures uses == if ok.Some? then old(uses) + [prepared] else old(uses)
    {
      hide ConnectionPool.Run, ConnectionPool.CanRun, FriendsTable.Table, OfflineMail.Table, Credentials.Table;
      var got := UseConnection(prepared);
      if !got {
        return None;
      }
      ok := Some(prepared && ran);
      if prepared && ran {
        FriendsTable.TableAppend(friendTrace, FriendsTable.Remove(u, f));
        friendTrace := friendTrace + [FriendsTable.Remove(u, f)];
        friends := FriendsTable.Delete(friends, u, f);
      }
    }

    method GetFriendList(u: string, prepared: bool, scanned: nat) returns (ids: Option<seq<string>>)
      requires Valid()
      modifies this`pool, this`uses
      ensures Valid()
      ensures ids == if old(pool) == [] then None
                     else Some(if prepared then FriendsTable.FriendIds(friends[..Min(scanned, |friends|)], u) else [])
      ensures ids.Some? && prepared && scanned >= |friends| ==> AreFriends(friendTrace, u, ids.value)
      ensures uses == if ids.Some? then old(uses) + [prepared] else old(uses)
    {
      hide ConnectionPool.Run, ConnectionPool.CanRun, FriendsTable.Table, OfflineMail.Table, Credentials.Table;
      var got := UseConnection(prepared);
      if !got {
        return None;
      }
      var found: seq<string> := [];
      if prepared {
        found := ReadFriendIds(friends, u, scanned);
        FriendsFromHistory(friendTrace, u);
        if scanned >= |friends| {
          assert friends[..|friends|] == friends;
        }
      }
      ids := Some(found);
    }

    method GetFriendListUsername(u: string, prepared: bool, scanned: nat) returns (friendNames: Option<seq<string>>)
      requires Valid()
      modifies this`pool, this`uses
      ensures Valid()
      ensures friendNames == if old(pool) == [] then None
                             else Some(if prepared
                                       then FriendsTable.FriendNames(friends[..Min(scanned, |friends|)],
                                                                     NamesOf(users), u)
                                       else [])
      ensures friendNames.Some? && prepared ==>
                friendNames.value
                == OwnerNames(userTrace, FriendsTable.FriendIds(friends[..Min(scanned, |friends|)], u))
      ensures friendNames.Some? && prepared && scanned >= |friends| ==>
                exists ids :: AreFriends(friendTrace, u, ids) && friendNames.value == OwnerNames(userTrace, ids)
      ensures uses == if friendNames.Some? then old(uses) + [prepared] else old(uses)
    {
      hide ConnectionPool.Run, ConnectionPool.CanRun, FriendsTable.Table, OfflineMail.Table, Credentials.Table;
      var got := UseConnection(prepared);
      if !got {
        return None;
      }
      var found: seq<string> := [];
      if prepared {
        found := ReadFriendNames(friends, users, u, scanned);
        NamesOfRead(friends[..Min(scanned, |friends|)], u);
        FriendsFromHistory(friendTrace, u);
        if scanned >= |friends| {
          assert friends[..|friends|] == friends;
        }
      }
      friendNames := Some(found);
    }

    /** The name query yields the latest names of the ids it reached. */
    lemma NamesOfRead(rows: seq<FriendsTable.Row>, u: string)
      requires TablesValid()
      ensures FriendsTable.FriendNames(rows, NamesOf(users), u)
              == OwnerNames(userTrace, FriendsTable.FriendIds(rows, u))
    {
      FriendsTable.NamesFollowIds(rows, NamesOf(users), u);
      NamesFromHistory(digest, userTrace, FriendsTable.FriendIds(rows, u));
    }

    /** `getFriendPair`: one query after the other, then the zip. */
    method GetFriendPair(u: string, prepared1: bool, scanned1: nat, prepared2: bool, scanned2: nat)
      returns (pairs: Option<seq<(string, string)>>)
      requires Valid()
      modifies this`pool, this`uses
      ensures Valid()
      ensures pairs.None? <==> |old(pool)| == 0 || (|old(pool)| == 1 && !prepared1)
      ensures uses == if |old(pool)| == 0 then old(uses)
                      else if pairs.None? then old(uses) + [prepared1] else old(uses) + [prepared1] + [prepared2]
      // Unbroken queries give the whole list or nothing.
      ensures pairs.Some? && scanned1 >= |friends| && scanned2 >= |friends| ==>
                var ids := FriendsTable.FriendIds(friends, u);
                pairs.value == if prepared1 && prepared2 && FriendsTable.AllNamed(NamesOf(users), ids)
                               then FriendsTable.NamedPairs(NamesOf(users), ids) else []
      // That list has the accepted friends under the names they were last registered or renamed to.
      ensures pairs.Some? && scanned1 >= |friends| && scanned2 >= |friends| && prepared1 && prepared2 ==>
                exists ids :: AreFriends(friendTrace, u, ids) && IsFriendList(userTrace, ids, pairs.value)
      // In any case the result pairs what the queries read, if that is equally long.
      ensures pairs.Some? ==>
                pairs.value == FriendsTable.FriendPair(
                  if prepared1 then FriendsTable.FriendIds(friends[..Min(scanned1, |friends|)], u) else [],
                  if prepared2 then FriendsTable.FriendNames(friends[..Min(scanned2, |friends|)], NamesOf(users), u)
                  else [])
    {
      hide ConnectionPool.Run, ConnectionPool.CanRun, FriendsTable.Table, OfflineMail.Table, Credentials.Table;
      var ids := GetFriendList(u, prepared1, scanned1);
      if ids.None? {
        return None;
      }
      ConnectionPool.RunOneMore(created, old(uses), prepared1);
      var friendNames := GetFriendListUsername(u, prepared2, scanned2);
      if friendNames.None? {
        return None;
      }
      var zipped := ZipIfEqual(ids.value, friendNames.value);
      FriendsTable.FriendPairExact(friends, NamesOf(users), u, prepared1, prepared2);
      if scanned1 >= |friends| && scanned2 >= |friends| {
        assert friends[..|friends|] == friends;
      }
      PairsFromHistory(digest, userTrace, FriendsTable.FriendIds(friends, u));
      FriendsFromHistory(friendTrace, u);
      pairs := Some(zipped);
    }

    // ---- Offline messages -------------------------------------------------------

    method StoreOfflineMessage(u: string, content: string, prepared: bool, ran: bool) returns (ok: Option<bool>)
      requires Valid()
      modifies this`pool, this`uses, this`offline, this`mailTrace
      ensures Valid()
      ensures ok == if old(pool) == [] then None else Some(prepared && ran)
      ensures mailTrace == if ok == Some(true) then old(mailTrace) + [OfflineMail.Store(u, content)] else old(mailTrace)
      ensures uses == if ok.Some? then old(uses) + [prepared] else old(uses)
    {
      hide ConnectionPool.Run, ConnectionPool.CanRun, FriendsTable.Table, OfflineMail.Table, Credentials.Table;
      var got := UseConnection(prepared);
      if !got {
        return None;
      }
      ok := Some(prepared && ran);
      if prepared && ran {
        OfflineMail.TableAppend(mailTrace, OfflineMail.Store(u, content));
        mailTrace := mailTrace + [OfflineMail.Store(u, content)];
        offline := offline + [OfflineMail.Row(u, content)];
      }
    }

    /** The mail stored for `u` since `u`'s last successful `MarkMessagesAsRead`, or its beginning. */
    method GetOfflineMessages(u: string, prepared: bool, scanned: nat) returns (messages: Option<seq<string>>)
      requires Valid()
      modifies this`pool, this`uses
      ensures Valid()
      ensures messages.None? <==> old(pool) == []
      ensures messages.Some? ==>
                var mail := OfflineMail.Stored(mailTrace[OfflineMail.LastRead(mailTrace, u)..], u);
                && messages.value <= mail
                && (prepared && scanned >= |offline| ==> messages.value == mail)
                && (!prepared ==> messages.value == [])
      ensures uses == if messages.Some? then old(uses) + [prepared] else old(uses)
    {
      hide ConnectionPool.Run, ConnectionPool.CanRun, FriendsTable.Table, OfflineMail.Table, Credentials.Table;
      var got := UseConnection(prepared);
      if !got {
        return None;
      }
      var found: seq<string> := [];
      if prepared {
        found := ReadContents(offline, u, scanned);
        OfflineMail.ContentsPrefix(offline, Min(scanned, |offline|), u);
        OfflineMail.TableIsMailboxes(mailTrace, u);
        assert offline[..|offline|] == offline;
      }
      messages := Some(found);
    }

    method MarkMessagesAsRead(u: string, prepared: bool, ran: bool) returns (ok: Option<bool>)
      requires Valid()
      modifies this`pool, this`uses, this`offline, this`mailTrace
      ensures Valid()
      ensures ok == if old(pool) == [] then None else Some(prepared && ran)
      ensures mailTrace == if ok == Some(true) then old(mailTrace) + [OfflineMail.MarkRead(u)] else old(mailTrace)
      ensures uses == if ok.Some? then old(uses) + [prepared] else old(uses)
    {
      hide ConnectionPool.Run, ConnectionPool.CanRun, FriendsTable.Table, OfflineMail.Table, Credentials.Table;
      var got := UseConnection(prepared);
      if !got {
        return None;
      }
      ok := Some(prepared && ran);
      if prepared && ran {
        OfflineMail.TableAppend(mailTrace, OfflineMail.MarkRead(u));
        mailTrace := mailTrace + [OfflineMail.MarkRead(u)];
        offline := OfflineMail.DeleteFor(offline, u);
      }
    }

    // ---- Users --------------------------------------------------------------------

    /** `registerUser`; `id` and `salt` are the random draws. */
    method RegisterUser(password: string, username: string, id: string, salt: string, prepared: bool, ran: bool)
      returns (ok: Option<Option<string>>)
      requires Valid()
      modifies this`pool, this`uses, this`users, this`userTrace
      ensures Valid()
      ensures ok == if old(pool) == [] then None
                    else Some(if prepared && ran && id !in old(users) then Some(id) else None)
      ensures userTrace == if ok == Some(Some(id))
                           then old(userTrace) + [Credentials.Register(id, password, salt, username)]
                           else old(userTrace)
      ensures uses == if ok.Some? then old(uses) + [prepared] else old(uses)
    {
      hide ConnectionPool.Run, ConnectionPool.CanRun, FriendsTable.Table, OfflineMail.Table,
        Credentials.Table, Credentials.Hex;
      var got := UseConnection(prepared);
      if !got {
        return None;
      }
      var passwordHash := Credentials.HexEncode(digest(password + salt));
      if prepared && ran && id !in users {
        Credentials.TableAppend(digest, userTrace, Credentials.Register(id, password, salt, username));
        userTrace := userTrace + [Credentials.Register(id, password, salt, username)];
        users := users[id := Credentials.User(Some(username), passwordHash, salt)];
        return Some(Some(id));
      }
      ok := Some(None);
    }

    method SetUsername(id: string, username: string, prepared: bool, ran: bool) returns (ok: Option<bool>)
      requires Valid()
      modifies this`pool, this`uses, this`users, this`userTrace
      ensures Valid()
      ensures ok == if old(pool) == [] then None else Some(prepared && ran)
      ensures userTrace == if ok == Some(true) then old(userTrace) + [Credentials.Rename(id, username)]
                           else old(userTrace)
      ensures uses == if ok.Some? then old(uses) + [prepared] else old(uses)
    {
      hide ConnectionPool.Run, ConnectionPool.CanRun, FriendsTable.Table, OfflineMail.Table, Credentials.Table;
      var got := UseConnection(prepared);
      if !got {
        return None;
      }
      ok := Some(prepared && ran);
      if prepared && ran {
        Credentials.TableAppend(digest, userTrace, Credentials.Rename(id, username));
        userTrace := userTrace + [Credentials.Rename(id, username)];
        if id in users {
          users := users[id := users[id].(username := Some(username))];
        }
      }
    }

    /** `authenticateUser`: the latest name, for the password the id was registered with. */
    method AuthenticateUser(id: string, password: string, prepared: bool, ran: bool)
      returns (ok: Option<Option<string>>)
      requires Valid()
      modifies this`pool, this`uses
      ensures Valid()
      ensures ok == if old(pool) == [] then None
                    else Some(match Credentials.Owner(userTrace, id)
                              case None => None
                              case Some(a) =>
                                if prepared && ran && digest(password + a.salt) == digest(a.password + a.salt)
                                then Some(a.username) else None)
      ensures uses == if ok.Some? then old(uses) + [prepared] else old(uses)
    {
      hide ConnectionPool.Run, ConnectionPool.CanRun, FriendsTable.Table, OfflineMail.Table, Credentials.Table;
      var got := UseConnection(prepared);
      if !got {
        return None;
      }
      Credentials.LoginExact(digest, userTrace, id, password);
      if prepared && ran && id in users {
        var passwordHash := Credentials.HexEncode(digest(password + users[id].salt));
        if passwordHash == users[id].passwordHash {
          return Some(users[id].username);
        }
      }
      ok := Some(None);
    }
  }
}
