/**
 The `friends` table of src/Database.cpp under `addFriend`, `ackAddFriend` and
 `removeFriend`: two INSERT OR IGNORE statements, an UPDATE of both directions,
 and a DELETE of one.
 */
module FriendsTable {
  import opened Common

  /** status 0 is a pending request, 1 an accepted one. */
  datatype Row = Row(userId: string, friendId: string, status: int)

  datatype Event =
    | Add(userId: string, friendId: string, first: bool, second: bool)  // which of its two INSERTs ran
    | Ack(userId: string, friendId: string)
    | Remove(userId: string, friendId: string)

  // ---- The statements -------------------------------------------------------

  predicate Has(rows: seq<Row>, u: string, f: string) {
    exists r :: r in rows && r.userId == u && r.friendId == f
  }

  function InsertOrIgnore(rows: seq<Row>, u: string, f: string): seq<Row> {
    if Has(rows, u, f) then rows else rows + [Row(u, f, 0)]
  }

  /** The WHERE clause of the UPDATE: the pair in either direction. */
  predicate EitherWay(r: Row, a: string, b: string) {
    (r.userId == a && r.friendId == b) || (r.friendId == a && r.userId == b)
  }

  function Accept(rows: seq<Row>, a: string, b: string): (result: seq<Row>)
    ensures |result| == |rows|
    ensures forall i :: 0 <= i < |rows| ==>
              result[i] == if EitherWay(rows[i], a, b) then rows[i].(status := 1) else rows[i]
  {
    if |rows| == 0 then [] else
      var r := rows[|rows| - 1];
      Accept(rows[..|rows| - 1], a, b) + [if EitherWay(r, a, b) then r.(status := 1) else r]
  }

  function Delete(rows: seq<Row>, u: string, f: string): (result: seq<Row>)
    ensures forall r :: r in result <==> r in rows && !(r.userId == u && r.friendId == f)
  {
    if |rows| == 0 then [] else
      var r := rows[|rows| - 1];
      Delete(rows[..|rows| - 1], u, f) + if r.userId == u && r.friendId == f then [] else [r]
  }

  function Apply(rows: seq<Row>, e: Event): seq<Row> {
    match e
    case Add(u, f, first, second) =>
      var rows' := if first then InsertOrIgnore(rows, u, f) else rows;
      if second then InsertOrIgnore(rows', f, u) else rows'
    case Ack(u, f) => Accept(rows, u, f)
    case Remove(u, f) => Delete(rows, u, f)
  }

  /** The table after a history that started from an empty table. */
  function Table(trace: seq<Event>): seq<Row> {
    if |trace| == 0 then [] else Apply(Table(trace[..|trace| - 1]), trace[|trace| - 1])
  }

  lemma TableAppend(trace: seq<Event>, e: Event)
    ensures Table(trace + [e]) == Apply(Table(trace), e)
  {
  }

  predicate Accepted(rows: seq<Row>, u: string, f: string) {
    Row(u, f, 1) in rows
  }

  // ---- The table as a function of its history --------------------------------

  predicate Inserts(e: Event, u: string, f: string) {
    e.Add? && ((e.first && e.userId == u && e.friendId == f) || (e.second && e.userId == f && e.friendId == u))
  }

  predicate Acks(e: Event, u: string, f: string) {
    e.Ack? && ((e.userId == u && e.friendId == f) || (e.userId == f && e.friendId == u))
  }

  predicate Removes(e: Event, u: string, f: string) {
    e.Remove? && e.userId == u && e.friendId == f
  }

  predicate NotRemovedAfter(trace: seq<Event>, i: int, u: string, f: string) {
    forall k :: 0 <= i < k < |trace| ==> !Removes(trace[k], u, f)
  }

  /** Some insert of (u, f) has no later removal of (u, f). */
  ghost predicate PresentBy(trace: seq<Event>, u: string, f: string) {
    exists i :: 0 <= i < |trace| && Inserts(trace[i], u, f) && NotRemovedAfter(trace, i, u, f)
  }

  /** Such an insert is also followed by an acknowledgement, in either direction. */
  ghost predicate AcceptedBy(trace: seq<Event>, u: string, f: string) {
    exists i, j :: 0 <= i < j < |trace| && Inserts(trace[i], u, f) && Acks(trace[j], u, f)
                   && NotRemovedAfter(trace, i, u, f)
  }

  lemma PresentBySnoc(trace: seq<Event>, e: Event, u: string, f: string)
    ensures PresentBy(trace + [e], u, f) <==> Inserts(e, u, f) || (PresentBy(trace, u, f) && !Removes(e, u, f))
  {
    var t, n := trace + [e], |trace|;
    assert t[n] == e;
    if Inserts(e, u, f) {
      assert NotRemovedAfter(t, n, u, f);
    } else if PresentBy(trace, u, f) && !Removes(e, u, f) {
      var i :| 0 <= i < n && Inserts(trace[i], u, f) && NotRemovedAfter(trace, i, u, f);
      assert t[i] == trace[i] && NotRemovedAfter(t, i, u, f);
    }
    if PresentBy(t, u, f) && !Inserts(e, u, f) {
      var i :| 0 <= i < |t| && Inserts(t[i], u, f) && NotRemovedAfter(t, i, u, f);
      assert t[i] == trace[i];
      ShorterHistory(trace, e, i, u, f);
    }
  }

  lemma ShorterHistory(trace: seq<Event>, e: Event, i: int, u: string, f: string)
    requires 0 <= i < |trace|
    ensures NotRemovedAfter(trace + [e], i, u, f) <==> NotRemovedAfter(trace, i, u, f) && !Removes(e, u, f)
  {
    var t := trace + [e];
    assert t[|trace|] == e;
    if NotRemovedAfter(t, i, u, f) {
      forall k | 0 <= i < k < |trace| ensures !Removes(trace[k], u, f) {
        assert t[k] == trace[k];
      }
    }
  }

  lemma AcceptedBySnoc(trace: seq<Event>, e: Event, u: string, f: string)
    ensures AcceptedBy(trace + [e], u, f)
            <==> (AcceptedBy(trace, u, f) && !Removes(e, u, f)) || (PresentBy(trace, u, f) && Acks(e, u, f))
  {
    var t, n := trace + [e], |trace|;
    assert t[n] == e;
    if AcceptedBy(trace, u, f) && !Removes(e, u, f) {
      var i, j :| 0 <= i < j < n && Inserts(trace[i], u, f) && Acks(trace[j], u, f) && NotRemovedAfter(trace, i, u, f);
      ShorterHistory(trace, e, i, u, f);
      assert t[i] == trace[i] && t[j] == trace[j];
    } else if PresentBy(trace, u, f) && Acks(e, u, f) {
      var i :| 0 <= i < n && Inserts(trace[i], u, f) && NotRemovedAfter(trace, i, u, f);
      ShorterHistory(trace, e, i, u, f);
      assert t[i] == trace[i] && Acks(t[n], u, f);
    }
    if AcceptedBy(t, u, f) {
      var i, j :| 0 <= i < j < |t| && Inserts(t[i], u, f) && Acks(t[j], u, f) && NotRemovedAfter(t, i, u, f);
      ShorterHistory(trace, e, i, u, f);
      assert t[i] == trace[i];
      if j < n {
        assert t[j] == trace[j];
      }
    }
  }

  // ---- One statement on one pair ---------------------------------------------

  ghost predicate KeyedOnce(rows: seq<Row>) {
    && (forall r :: r in rows ==> r.status == 0 || r.status == 1)
    && (forall i, j :: 0 <= i < j < |rows| ==> rows[i].userId != rows[j].userId || rows[i].friendId != rows[j].friendId)
  }

  lemma InsertEffect(rows: seq<Row>, a: string, b: string, u: string, f: string)
    ensures var t := InsertOrIgnore(rows, a, b);
            && (Has(t, u, f) <==> Has(rows, u, f) || (u == a && f == b))
            && (Accepted(t, u, f) <==> Accepted(rows, u, f))
    ensures KeyedOnce(rows) ==> KeyedOnce(InsertOrIgnore(rows, a, b))
  {
  }

  lemma AcceptKeepsKeys(rows: seq<Row>, a: string, b: string, u: string, f: string)
    ensures Has(Accept(rows, a, b), u, f) <==> Has(rows, u, f)
    ensures KeyedOnce(rows) ==> KeyedOnce(Accept(rows, a, b))
  {
  }

  lemma AcceptMarks(rows: seq<Row>, a: string, b: string, u: string, f: string)
    ensures Accepted(Accept(rows, a, b), u, f)
            <==> Accepted(rows, u, f) || (Has(rows, u, f) && EitherWay(Row(u, f, 0), a, b))
  {
  }

  lemma {:induction false} DeleteKeepsKeys(rows: seq<Row>, a: string, b: string)
    requires KeyedOnce(rows)
    ensures KeyedOnce(Delete(rows, a, b))
  {
    if |rows| > 0 {
      var rows', r := rows[..|rows| - 1], rows[|rows| - 1];
      DeleteKeepsKeys(rows', a, b);
      var t := Delete(rows', a, b);
      forall i | 0 <= i < |t| ensures t[i].userId != r.userId || t[i].friendId != r.friendId {
        assert t[i] in rows';
      }
    }
  }

  lemma StepEffect(rows: seq<Row>, e: Event, u: string, f: string)
    ensures Has(Apply(rows, e), u, f) <==> Inserts(e, u, f) || (Has(rows, u, f) && !Removes(e, u, f))
    ensures Accepted(Apply(rows, e), u, f)
            <==> (Accepted(rows, u, f) && !Removes(e, u, f)) || (Has(rows, u, f) && Acks(e, u, f))
    ensures KeyedOnce(rows) ==> KeyedOnce(Apply(rows, e))
  {
    hide Has, Accepted, KeyedOnce, InsertOrIgnore;
    match e
    case Add(a, b, first, second) =>
      var rows' := if first then InsertOrIgnore(rows, a, b) else rows;
      InsertEffect(rows, a, b, u, f);
      InsertEffect(rows', b, a, u, f);
    case Ack(a, b) =>
      AcceptKeepsKeys(rows, a, b, u, f);
      AcceptMarks(rows, a, b, u, f);
    case Remove(a, b) =>
      DeleteEffect(rows, a, b, u, f);
  }

  lemma DeleteEffect(rows: seq<Row>, a: string, b: string, u: string, f: string)
    ensures Has(Delete(rows, a, b), u, f) <==> Has(rows, u, f) && !(u == a && f == b)
    ensures Accepted(Delete(rows, a, b), u, f) <==> Accepted(rows, u, f) && !(u == a && f == b)
    ensures KeyedOnce(rows) ==> KeyedOnce(Delete(rows, a, b))
  {
    if KeyedOnce(rows) {
      DeleteKeepsKeys(rows, a, b);
    }
    if Has(rows, u, f) && !(u == a && f == b) {
      var r :| r in rows && r.userId == u && r.friendId == f;
      assert r in Delete(rows, a, b);
    }
  }

  /**
   After any history, partial failures included: (u, f) is present exactly when
   some insert of it has no later removal, accepted exactly when that insert is
   followed by an acknowledgement; and each pair has at most one row.
   */
  lemma {:induction false} TableIsItsHistory(trace: seq<Event>, u: string, f: string)
    ensures Has(Table(trace), u, f) <==> PresentBy(trace, u, f)
    ensures Accepted(Table(trace), u, f) <==> AcceptedBy(trace, u, f)
    ensures KeyedOnce(Table(trace))
  {
    if |trace| > 0 {
      hide Has, Accepted, PresentBy, AcceptedBy, KeyedOnce, Apply;
      var trace', e := trace[..|trace| - 1], trace[|trace| - 1];
      assert trace == trace' + [e];
      TableIsItsHistory(trace', u, f);
      StepEffect(Table(trace'), e, u, f);
      PresentBySnoc(trace', e, u, f);
      AcceptedBySnoc(trace', e, u, f);
    }
  }

  // ---- Symmetry ---------------------------------------------------------------

  /** Every `addFriend` ran both INSERTs. */
  ghost predicate WholeAdds(trace: seq<Event>) {
    forall i :: 0 <= i < |trace| && trace[i].Add? ==> trace[i].first && trace[i].second
  }

  ghost predicate EverRemoved(trace: seq<Event>, u: string, f: string) {
    exists k :: 0 <= k < |trace| && Removes(trace[k], u, f)
  }

  /** Without a removal of (f, u), what holds of (u, f) holds of (f, u). */
  lemma MirrorUnlessRemoved(trace: seq<Event>, u: string, f: string)
    requires WholeAdds(trace) && !EverRemoved(trace, f, u)
    ensures PresentBy(trace, u, f) ==> PresentBy(trace, f, u)
    ensures AcceptedBy(trace, u, f) ==> AcceptedBy(trace, f, u)
  {
  }

  /** The two directions of a pair agree. */
  predicate Mutual(rows: seq<Row>, u: string, f: string) {
    (Has(rows, u, f) <==> Has(rows, f, u)) && (Accepted(rows, u, f) <==> Accepted(rows, f, u))
  }

  predicate SamePair(a: string, b: string, u: string, f: string) {
    (a == u && b == f) || (a == f && b == u)
  }

  /** Whether a step leaves the two directions in agreement, decided before the step. */
  predicate KeepsMutual(rows: seq<Row>, e: Event, u: string, f: string) {
    match e
    case Add(a, b, first, second) => SamePair(a, b, u, f) && first != second ==> Has(rows, u, f)
    case Ack(_, _) => true
    case Remove(a, b) => SamePair(a, b, u, f) ==> !Has(rows, u, f)
  }

  lemma AcceptedIsPresent(rows: seq<Row>, u: string, f: string)
    ensures Accepted(rows, u, f) ==> Has(rows, u, f)
  {
  }

  /** A mutual pair stays mutual exactly unless one direction alone is inserted or deleted. */
  lemma MutualStepExact(rows: seq<Row>, e: Event, u: string, f: string)
    requires u != f && Mutual(rows, u, f)
    ensures Mutual(Apply(rows, e), u, f) <==> KeepsMutual(rows, e, u, f)
  {
    AcceptedIsPresent(rows, u, f);
    AcceptedIsPresent(rows, f, u);
    hide Has, Accepted, Apply;
    StepEffect(rows, e, u, f);
    StepEffect(rows, e, f, u);
  }

  /** A one-sided friendship is always the work of a `removeFriend(f, u)`. */
  lemma OneSidedMeansRemoved(trace: seq<Event>, u: string, f: string)
    requires WholeAdds(trace)
    requires f in FriendIds(Table(trace), u) && u !in FriendIds(Table(trace), f)
    ensures EverRemoved(trace, f, u)
  {
    FriendIdsAreAccepted(Table(trace), u);
    FriendIdsAreAccepted(Table(trace), f);
    TableIsItsHistory(trace, u, f);
    TableIsItsHistory(trace, f, u);
    if !EverRemoved(trace, f, u) {
      MirrorUnlessRemoved(trace, u, f);
    }
  }

  /** No insert of (u, f) after event `k` is followed by an acknowledgement. */
  ghost predicate NotRestoredAfter(trace: seq<Event>, k: int, u: string, f: string) {
    forall i, j :: 0 <= k < i < j < |trace| && Inserts(trace[i], u, f) ==> !Acks(trace[j], u, f)
  }

  /** Some removal of (u, f) was not made up for. */
  ghost predicate RemovedForGood(trace: seq<Event>, u: string, f: string) {
    exists k :: 0 <= k < |trace| && Removes(trace[k], u, f) && NotRestoredAfter(trace, k, u, f)
  }

  lemma {:induction false} LastRemoval(trace: seq<Event>, from: nat, u: string, f: string) returns (last: nat)
    requires from < |trace| && Removes(trace[from], u, f)
    ensures last < |trace| && Removes(trace[last], u, f) && NotRemovedAfter(trace, last, u, f)
    decreases |trace| - from
  {
    if NotRemovedAfter(trace, from, u, f) {
      last := from;
    } else {
      var k :| from < k < |trace| && Removes(trace[k], u, f);
      last := LastRemoval(trace, k, u, f);
    }
  }

  /** With whole inserts, a friend of `u` has lost `u` exactly if a `removeFriend(f, u)` was not made up for. */
  lemma OneSidedExactly(trace: seq<Event>, u: string, f: string)
    requires WholeAdds(trace) && f in FriendIds(Table(trace), u)
    ensures u !in FriendIds(Table(trace), f) <==> RemovedForGood(trace, f, u)
  {
    hide WholeAdds, EverRemoved, RemovedForGood, Table, FriendIds, Accepted, AcceptedBy;
    FriendIdsAreAccepted(Table(trace), f);
    TableIsItsHistory(trace, f, u);
    if RemovedForGood(trace, f, u) {
      RemovedIsNotAccepted(trace, f, u);
    }
    if u !in FriendIds(Table(trace), f) {
      OneSidedMeansRemoved(trace, u, f);
      RemovedUnlessAccepted(trace, f, u);
    }
  }

  lemma RemovedUnlessAccepted(trace: seq<Event>, u: string, f: string)
    requires EverRemoved(trace, u, f) && !AcceptedBy(trace, u, f)
    ensures RemovedForGood(trace, u, f)
  {
    var k :| 0 <= k < |trace| && Removes(trace[k], u, f);
    var last := LastRemoval(trace, k, u, f);
    forall i, j | 0 <= last < i < j < |trace| && Inserts(trace[i], u, f) ensures !Acks(trace[j], u, f) {
      assert NotRemovedAfter(trace, i, u, f);
    }
    assert NotRestoredAfter(trace, last, u, f);
  }

  lemma RemovedIsNotAccepted(trace: seq<Event>, u: string, f: string)
    requires RemovedForGood(trace, u, f)
    ensures !AcceptedBy(trace, u, f)
  {
    var k :| 0 <= k < |trace| && Removes(trace[k], u, f) && NotRestoredAfter(trace, k, u, f);
    forall i, j | 0 <= i < j < |trace| && Inserts(trace[i], u, f) && Acks(trace[j], u, f)
      ensures !NotRemovedAfter(trace, i, u, f)
    {
      assert k != i;
      assert !(k < i);
    }
  }

  lemma RemoveFreeIsSymmetric(trace: seq<Event>, u: string, f: string)
    requires WholeAdds(trace) && forall i :: 0 <= i < |trace| ==> !trace[i].Remove?
    ensures Has(Table(trace), u, f) <==> Has(Table(trace), f, u)
    ensures f in FriendIds(Table(trace), u) <==> u in FriendIds(Table(trace), f)
  {
    FriendIdsAreAccepted(Table(trace), u);
    FriendIdsAreAccepted(Table(trace), f);
    TableIsItsHistory(trace, u, f);
    TableIsItsHistory(trace, f, u);
    MirrorUnlessRemoved(trace, u, f);
    MirrorUnlessRemoved(trace, f, u);
  }

  /** An `addFriend` cut short between its two INSERTs is the other way to a one-sided friendship. */
  lemma HalfAddIsOneSided(u: string, f: string)
    requires u != f
    ensures var rows := Table([Add(u, f, true, false), Ack(u, f)]);
            f in FriendIds(rows, u) && u !in FriendIds(rows, f)
  {
    var trace := [Add(u, f, true, false), Ack(u, f)];
    TableIsItsHistory(trace, u, f);
    TableIsItsHistory(trace, f, u);
    FriendIdsAreAccepted(Table(trace), u);
    FriendIdsAreAccepted(Table(trace), f);
    assert Inserts(trace[0], u, f) && Acks(trace[1], u, f) && NotRemovedAfter(trace, 0, u, f);
  }

  /** Whatever happened before, adding and acknowledging makes both friends of each other. */
  lemma AddAndAckMakeMutual(trace: seq<Event>, u: string, f: string)
    ensures var rows := Table(trace + [Add(u, f, true, true), Ack(f, u)]);
            f in FriendIds(rows, u) && u in FriendIds(rows, f)
  {
    var n, t := |trace|, trace + [Add(u, f, true, true), Ack(f, u)];
    TableIsItsHistory(t, u, f);
    TableIsItsHistory(t, f, u);
    FriendIdsAreAccepted(Table(t), u);
    FriendIdsAreAccepted(Table(t), f);
    assert Inserts(t[n], u, f) && Acks(t[n + 1], u, f) && NotRemovedAfter(t, n, u, f);
    assert Inserts(t[n], f, u) && Acks(t[n + 1], f, u) && NotRemovedAfter(t, n, f, u);
  }

  // ---- The queries --------------------------------------------------------------

  /** `getFriendList`. */
  function FriendIds(rows: seq<Row>, u: string): seq<string> {
    if |rows| == 0 then [] else
      var r := rows[|rows| - 1];
      FriendIds(rows[..|rows| - 1], u) + if r.userId == u && r.status == 1 then [r.friendId] else []
  }

  /** A user's name, if there is such a user and the name is not NULL. */
  function NameOf(names: map<string, Option<string>>, id: string): Option<string> {
    if id in names then names[id] else None
  }

  /** The names of those ids that have one. */
  function NamesFor(names: map<string, Option<string>>, ids: seq<string>): seq<string> {
    if |ids| == 0 then [] else
      var id := ids[|ids| - 1];
      NamesFor(names, ids[..|ids| - 1]) + if NameOf(names, id).Some? then [NameOf(names, id).value] else []
  }

  /** `getFriendListUsername`: the join drops unknown users, the loop drops NULL names. */
  function FriendNames(rows: seq<Row>, names: map<string, Option<string>>, u: string): seq<string> {
    if |rows| == 0 then [] else
      var r := rows[|rows| - 1];
      FriendNames(rows[..|rows| - 1], names, u)
      + if r.userId == u && r.status == 1 && NameOf(names, r.friendId).Some? then [NameOf(names, r.friendId).value]
        else []
  }

  function Zip(ids: seq<string>, friendNames: seq<string>): seq<(string, string)>
    requires |ids| == |friendNames|
  {
    seq(|ids|, i requires 0 <= i < |ids| => (ids[i], friendNames[i]))
  }

  /** `getFriendPair`, from what its two queries returned. */
  function FriendPair(ids: seq<string>, friendNames: seq<string>): seq<(string, string)> {
    if |ids| == |friendNames| then Zip(ids, friendNames) else []
  }

  predicate AllNamed(names: map<string, Option<string>>, ids: seq<string>) {
    forall i :: 0 <= i < |ids| ==> NameOf(names, ids[i]).Some?
  }

  /** The list a caller wants: every id with the name of that id. */
  function NamedPairs(names: map<string, Option<string>>, ids: seq<string>): seq<(string, string)>
    requires AllNamed(names, ids)
  {
    seq(|ids|, i requires 0 <= i < |ids| => (ids[i], NameOf(names, ids[i]).value))
  }

  lemma {:induction false} FriendIdsAreAccepted(rows: seq<Row>, u: string)
    ensures forall f :: f in FriendIds(rows, u) <==> Accepted(rows, u, f)
  {
    if |rows| > 0 {
      FriendIdsAreAccepted(rows[..|rows| - 1], u);
      assert rows == rows[..|rows| - 1] + [rows[|rows| - 1]];
      var r := rows[|rows| - 1];
      forall f ensures f in FriendIds(rows, u) <==> Accepted(rows, u, f) {
        assert f in FriendIds(rows[..|rows| - 1], u) <==> Accepted(rows[..|rows| - 1], u, f);
      }
    }
  }

  lemma NotTwice(rows: seq<Row>, r: Row)
    requires KeyedOnce(rows + [r])
    ensures !Accepted(rows, r.userId, r.friendId)
  {
    var all := rows + [r];
    assert all[|rows|] == r;
    forall i | 0 <= i < |rows| ensures rows[i] != Row(r.userId, r.friendId, 1) {
      assert all[i] == rows[i];
    }
  }

  ghost predicate NoneTwice(ids: seq<string>) {
    forall i, j :: 0 <= i < j < |ids| ==> ids[i] != ids[j]
  }

  lemma NoneTwiceAppend(ids: seq<string>, id: string)
    requires NoneTwice(ids) && id !in ids
    ensures NoneTwice(ids + [id])
  {
  }

  /** With one row per pair, no friend is listed twice. */
  lemma {:induction false} FriendIdsOnce(rows: seq<Row>, u: string)
    requires KeyedOnce(rows)
    ensures NoneTwice(FriendIds(rows, u))
  {
    if |rows| > 0 {
      var rows', r := rows[..|rows| - 1], rows[|rows| - 1];
      assert rows == rows' + [r] && forall q :: q in rows' ==> q in rows;
      FriendIdsOnce(rows', u);
      FriendIdsAreAccepted(rows', u);
      NotTwice(rows', r);
      if r.userId == u && r.status == 1 {
        NoneTwiceAppend(FriendIds(rows', u), r.friendId);
      } else {
        assert FriendIds(rows, u) == FriendIds(rows', u);
      }
    }
  }

  /** The join is the id list with each id replaced by its name, or dropped; it never repeats a row. */
  lemma {:induction false} NamesFollowIds(rows: seq<Row>, names: map<string, Option<string>>, u: string)
    ensures FriendNames(rows, names, u) == NamesFor(names, FriendIds(rows, u))
  {
    if |rows| > 0 {
      var rows', r := rows[..|rows| - 1], rows[|rows| - 1];
      NamesFollowIds(rows', names, u);
      var ids' := FriendIds(rows', u);
      if r.userId == u && r.status == 1 {
        assert (ids' + [r.friendId])[..|ids'|] == ids';
      } else {
        assert FriendIds(rows, u) == ids' && FriendNames(rows, names, u) == FriendNames(rows', names, u);
      }
    }
  }

  lemma {:induction false} NamesForExact(names: map<string, Option<string>>, ids: seq<string>)
    ensures |NamesFor(names, ids)| <= |ids|
    ensures |NamesFor(names, ids)| == |ids| <==> AllNamed(names, ids)
    ensures AllNamed(names, ids) ==>
              forall i :: 0 <= i < |ids| ==> NamesFor(names, ids)[i] == NameOf(names, ids[i]).value
  {
    if |ids| > 0 {
      var ids', id := ids[..|ids| - 1], ids[|ids| - 1];
      hide NameOf;
      NamesForExact(names, ids');
      AllNamedSnoc(names, ids', id);
      assert ids == ids' + [id];
    }
  }

  lemma AllNamedSnoc(names: map<string, Option<string>>, ids: seq<string>, id: string)
    ensures AllNamed(names, ids + [id]) <==> AllNamed(names, ids) && NameOf(names, id).Some?
  {
    hide NameOf;
    assert (ids + [id])[|ids|] == id;
    if AllNamed(names, ids + [id]) {
      forall i | 0 <= i < |ids| ensures NameOf(names, ids[i]).Some? {
        assert (ids + [id])[i] == ids[i];
      }
    }
  }

  lemma {:induction false} NamesForPrefix(names: map<string, Option<string>>, ids: seq<string>, k: nat)
    requires k <= |ids|
    ensures NamesFor(names, ids[..k]) <= NamesFor(names, ids)
  {
    if k < |ids| {
      assert ids[..|ids| - 1][..k] == ids[..k];
      NamesForPrefix(names, ids[..|ids| - 1], k);
    } else {
      assert ids[..k] == ids;
    }
  }

  /** A query that stops early has read a prefix of its result. */
  lemma {:induction false} IdsPrefix(rows: seq<Row>, n: nat, u: string)
    requires n <= |rows|
    ensures FriendIds(rows[..n], u) <= FriendIds(rows, u)
  {
    if n < |rows| {
      assert rows[..|rows| - 1][..n] == rows[..n];
      IdsPrefix(rows[..|rows| - 1], n, u);
    } else {
      assert rows[..n] == rows;
    }
  }

  /**
   The length check suffices when each query either reads everything or nothing:
   the result is the full list of (id, name of that id) when both ran and every
   accepted friend has a name, and empty in every other case.
   */
  lemma FriendPairExact(rows: seq<Row>, names: map<string, Option<string>>, u: string, idsRan: bool, namesRan: bool)
    ensures var ids := FriendIds(rows, u);
            var result := FriendPair(if idsRan then ids else [], if namesRan then FriendNames(rows, names, u) else []);
            if idsRan && namesRan && AllNamed(names, ids) then result == NamedPairs(names, ids) else result == []
  {
    NamesFollowIds(rows, names, u);
    NamesForExact(names, FriendIds(rows, u));
  }

  /** Every pair names its own id. */
  predicate RightPairs(names: map<string, Option<string>>, pairs: seq<(string, string)>) {
    forall i :: 0 <= i < |pairs| ==> NameOf(names, pairs[i].0) == Some(pairs[i].1)
  }

  /**
   When a query can also break off in the middle (the id query after `a` rows of
   the table, the name query after `b`), the pairs are right exactly when the
   length check empties the result or every id that was read has a name.
   */
  lemma FriendPairRightExactly(rows: seq<Row>, names: map<string, Option<string>>, u: string, a: nat, b: nat)
    requires a <= |rows| && b <= |rows|
    ensures var ids, found := FriendIds(rows[..a], u), FriendNames(rows[..b], names, u);
            RightPairs(names, FriendPair(ids, found)) <==> |ids| != |found| || AllNamed(names, ids)
  {
    hide FriendIds, FriendNames, NamesFor, NameOf;
    var ids, found := FriendIds(rows[..a], u), FriendNames(rows[..b], names, u);
    var more := FriendIds(rows[..b], u);
    NamesFollowIds(rows[..b], names, u);
    NamesForExact(names, more);
    NamesForExact(names, ids);
    if |ids| == |found| {
      IdsPrefix(rows, a, u);
      IdsPrefix(rows, b, u);
      assert more[..|ids|] == ids;
      NamesForPrefix(names, more, |ids|);
      ZipRightExactly(names, ids, found);
    }
  }

  lemma ZipRightExactly(names: map<string, Option<string>>, ids: seq<string>, found: seq<string>)
    requires |ids| == |found| && (AllNamed(names, ids) ==> NamesFor(names, ids) <= found)
    ensures RightPairs(names, FriendPair(ids, found)) <==> AllNamed(names, ids)
  {
    NamesForExact(names, ids);
    hide NamesFor, NameOf;
    var pairs := FriendPair(ids, found);
    if RightPairs(names, pairs) {
      forall i | 0 <= i < |ids| ensures NameOf(names, ids[i]).Some? {
        assert NameOf(names, pairs[i].0) == Some(pairs[i].1);
      }
    } else {
      var i :| 0 <= i < |pairs| && NameOf(names, pairs[i].0) != Some(pairs[i].1);
      assert pairs[i] == (ids[i], found[i]);
    }
  }

  /** A wrong pair: the id query breaks off before its third friend, and the second has no name. */
  lemma BrokenOffQueryMispairs()
    ensures var rows := [Row("u", "a", 1), Row("u", "b", 1), Row("u", "c", 1)];
            var names := map["a" := Some("A"), "c" := Some("C")];
            !RightPairs(names, FriendPair(FriendIds(rows[..2], "u"), FriendNames(rows[..3], names, "u")))
  {
    var rows := [Row("u", "a", 1), Row("u", "b", 1), Row("u", "c", 1)];
    var names := map["a" := Some("A"), "c" := Some("C")];
    FriendPairRightExactly(rows, names, "u", 2, 3);
    assert rows[..1][..0] == [] && rows[..2][..1] == rows[..1] && rows[..3][..2] == rows[..2];
    assert FriendIds(rows[..1], "u") == ["a"];
    assert FriendIds(rows[..2], "u") == ["a", "b"];
    assert FriendNames(rows[..1], names, "u") == ["A"];
    assert FriendNames(rows[..2], names, "u") == ["A"];
    assert FriendNames(rows[..3], names, "u") == ["A", "C"];
    assert !AllNamed(names, ["a", "b"]) by {
      assert ["a", "b"][1] == "b" && NameOf(names, "b") == None;
    }
  }
}
