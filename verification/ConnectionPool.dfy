/**
 The connection pool of src/Database.cpp.

 Every operation takes the front connection, and puts it back at the end; when a
 statement fails to prepare, the operation returns early and the connection is
 lost. First one caller at a time, then any number of interleaved callers.
 */
module ConnectionPool {
  import opened Common

  type Connection = nat

  // ---- One operation after another --------------------------------------------

  /** One operation on a non-empty pool; `kept` says that every statement prepared. */
  function Use(pool: seq<Connection>, kept: bool): seq<Connection>
    requires pool != []
  {
    pool[1..] + if kept then [pool[0]] else []
  }

  predicate CanRun(pool: seq<Connection>, outcomes: seq<bool>)
    decreases |outcomes|
  {
    |outcomes| == 0 || (pool != [] && CanRun(Use(pool, outcomes[0]), outcomes[1..]))
  }

  function Run(pool: seq<Connection>, outcomes: seq<bool>): seq<Connection>
    requires CanRun(pool, outcomes)
    decreases |outcomes|
  {
    if |outcomes| == 0 then pool else Run(Use(pool, outcomes[0]), outcomes[1..])
  }

  lemma {:induction false} RunOneMore(pool: seq<Connection>, outcomes: seq<bool>, kept: bool)
    requires CanRun(pool, outcomes) && Run(pool, outcomes) != []
    ensures CanRun(pool, outcomes + [kept])
    ensures Run(pool, outcomes + [kept]) == Use(Run(pool, outcomes), kept)
    decreases |outcomes|
  {
    if |outcomes| == 0 {
      assert (outcomes + [kept])[1..] == [];
    } else {
      assert (outcomes + [kept])[1..] == outcomes[1..] + [kept];
      RunOneMore(Use(pool, outcomes[0]), outcomes[1..], kept);
    }
  }

  function Failures(outcomes: seq<bool>): nat {
    if |outcomes| == 0 then 0 else (if outcomes[0] then 0 else 1) + Failures(outcomes[1..])
  }

  /** The connections of `created` still in the pool, in their original order. */
  function Survivors(created: seq<Connection>, pool: seq<Connection>): seq<Connection> {
    if |created| == 0 then []
    else Survivors(created[..|created| - 1], pool)
         + if created[|created| - 1] in pool then [created[|created| - 1]] else []
  }

  ghost predicate Distinct(s: seq<Connection>) {
    forall i, j :: 0 <= i < j < |s| ==> s[i] != s[j]
  }

  /** `s` turned so that element `r` comes first. */
  function Rotate(s: seq<Connection>, r: nat): seq<Connection>
    requires r <= |s|
  {
    s[r..] + s[..r]
  }

  ghost predicate IsRotation(pool: seq<Connection>, s: seq<Connection>) {
    exists r :: 0 <= r <= |s| && pool == Rotate(s, r)
  }

  /** The original order of what is left, and where in it the pool's front is. */
  datatype Turn = Turn(order: seq<Connection>, front: nat) {
    predicate Valid() {
      front < |order| || (order == [] && front == 0)
    }

    function Pool(): seq<Connection>
      requires Valid()
    {
      Rotate(order, front)
    }

    /** Using the front connection: move past it, or drop it. */
    function Next(kept: bool): (t: Turn)
      requires Valid() && order != []
      ensures t.Valid()
    {
      if kept then Turn(order, if front + 1 < |order| then front + 1 else 0)
      else Turn(order[..front] + order[front + 1..], if front + 1 < |order| then front else 0)
    }
  }

  lemma UseIsNext(t: Turn, kept: bool)
    requires t.Valid() && t.order != []
    ensures Use(t.Pool(), kept) == t.Next(kept).Pool()
  {
  }

  /** What is left keeps the order of creation. */
  ghost predicate Kept(created: seq<Connection>, order: seq<Connection>) {
    Distinct(order) && order == Survivors(created, order)
  }

  lemma {:induction false} SurvivorsOfSubset(created: seq<Connection>, order: seq<Connection>, less: seq<Connection>)
    requires forall c :: c in less ==> c in order
    ensures Survivors(Survivors(created, order), less) == Survivors(created, less)
  {
    if |created| > 0 {
      var created', c := created[..|created| - 1], created[|created| - 1];
      var s := Survivors(created', order);
      SurvivorsOfSubset(created', order, less);
      if c in order {
        assert (s + [c])[..|s|] == s;
      } else {
        assert Survivors(created, order) == s;
        assert c !in less;
      }
    }
  }

  lemma {:induction false} SurvivorsKeepAll(s: seq<Connection>, pool: seq<Connection>)
    requires forall c :: c in s ==> c in pool
    ensures Survivors(s, pool) == s
  {
    if |s| > 0 {
      SurvivorsKeepAll(s[..|s| - 1], pool);
    }
  }

  lemma {:induction false} SurvivorsConcat(a: seq<Connection>, b: seq<Connection>, pool: seq<Connection>)
    ensures Survivors(a + b, pool) == Survivors(a, pool) + Survivors(b, pool)
  {
    if |b| == 0 {
      assert a + b == a;
    } else {
      assert (a + b)[..|a + b| - 1] == a + b[..|b| - 1];
      SurvivorsConcat(a, b[..|b| - 1], pool);
    }
  }

  lemma DistinctWithoutOne(s: seq<Connection>, r: nat)
    requires Distinct(s) && r < |s|
    ensures Distinct(s[..r] + s[r + 1..]) && s[r] !in s[..r] + s[r + 1..]
  {
  }

  lemma SurvivorsOne(c: Connection, pool: seq<Connection>)
    ensures Survivors([c], pool) == if c in pool then [c] else []
  {
  }

  /** Dropping one element of a distinct sequence is filtering it out. */
  lemma DropOneSurvivors(s: seq<Connection>, r: nat)
    requires Distinct(s) && r < |s|
    ensures var rest := s[..r] + s[r + 1..]; Distinct(rest) && Survivors(s, rest) == rest
  {
    DistinctWithoutOne(s, r);
    DropMiddle(s[..r], s[r], s[r + 1..]);
    assert s == s[..r] + ([s[r]] + s[r + 1..]);
  }

  lemma DropMiddle(before: seq<Connection>, c: Connection, after: seq<Connection>)
    requires c !in before + after
    ensures Survivors(before + ([c] + after), before + after) == before + after
  {
    hide Survivors;
    var rest := before + after;
    SurvivorsKeepAll(before, rest);
    SurvivorsKeepAll(after, rest);
    SurvivorsConcat(before, [c] + after, rest);
    SurvivorsConcat([c], after, rest);
    SurvivorsOne(c, rest);
  }

  lemma DropOneKept(created: seq<Connection>, order: seq<Connection>, r: nat)
    requires Kept(created, order) && r < |order|
    ensures Kept(created, order[..r] + order[r + 1..])
  {
    DropOneSurvivors(order, r);
    hide Survivors, Distinct;
    SurvivorsOfSubset(created, order, order[..r] + order[r + 1..]);
  }

  lemma NextKept(created: seq<Connection>, t: Turn, kept: bool)
    requires t.Valid() && t.order != [] && Kept(created, t.order)
    ensures Kept(created, t.Next(kept).order)
    ensures |t.Next(kept).order| == |t.order| - if kept then 0 else 1
  {
    hide Kept;
    if !kept {
      DropOneKept(created, t.order, t.front);
    }
  }

  function AfterRun(t: Turn, outcomes: seq<bool>): Turn
    requires t.Valid() && CanRun(t.Pool(), outcomes)
    decreases |outcomes|
  {
    if |outcomes| == 0 then t else
      UseIsNext(t, outcomes[0]);
      AfterRun(t.Next(outcomes[0]), outcomes[1..])
  }

  lemma {:induction false} RunIsTurning(created: seq<Connection>, t: Turn, outcomes: seq<bool>)
    requires t.Valid() && CanRun(t.Pool(), outcomes) && Kept(created, t.order)
    ensures var t' := AfterRun(t, outcomes);
            && t'.Valid() && Kept(created, t'.order) && Run(t.Pool(), outcomes) == t'.Pool()
            && |t'.order| == |t.order| - Failures(outcomes)
    decreases |outcomes|
  {
    hide Kept;
    if |outcomes| > 0 {
      UseIsNext(t, outcomes[0]);
      NextKept(created, t, outcomes[0]);
      RunIsTurning(created, t.Next(outcomes[0]), outcomes[1..]);
    }
  }

  lemma {:induction false} SurvivorsByMembership(created: seq<Connection>, a: seq<Connection>, b: seq<Connection>)
    requires forall c :: c in a <==> c in b
    ensures Survivors(created, a) == Survivors(created, b)
  {
    if |created| > 0 {
      SurvivorsByMembership(created[..|created| - 1], a, b);
    }
  }

  /**
   After any sequence of operations and prepare failures, the pool is a rotation
   of the surviving connections in their original order, one fewer per failure;
   so the next operation waits forever exactly when every connection has failed.
   */
  lemma PoolIsRotation(created: seq<Connection>, outcomes: seq<bool>)
    requires Distinct(created) && CanRun(created, outcomes)
    ensures var pool := Run(created, outcomes);
            && IsRotation(pool, Survivors(created, pool))
            && |pool| == |created| - Failures(outcomes)
            && (pool == [] <==> Failures(outcomes) == |created|)
  {
    SurvivorsKeepAll(created, created);
    var t := Turn(created, 0);
    assert t.Pool() == created;
    RunIsTurning(created, t, outcomes);
    var t', pool := AfterRun(t, outcomes), Run(created, outcomes);
    SameMembers(t');
    SurvivorsByMembership(created, t'.order, pool);
    assert pool == Rotate(t'.order, t'.front);
  }

  lemma SameMembers(t: Turn)
    requires t.Valid()
    ensures forall c :: c in t.order <==> c in t.Pool()
  {
  }

  /** Without failures the pool is used in turn: operation k gets connection k mod n. */
  lemma RoundRobin(created: seq<Connection>, k: nat)
    requires created != []
    ensures CanRun(created, AllKept(k))
    ensures Run(created, AllKept(k)) == Rotate(created, k % |created|)
    ensures Run(created, AllKept(k))[0] == created[k % |created|]
  {
    hide FrontAfter, AllKept, Run, CanRun;
    var t := Turn(created, 0);
    assert t.Pool() == created;
    TurnsAround(t, k);
    FrontModulo(k, |created|);
  }

  lemma FrontModulo(k: nat, n: nat)
    requires n > 0
    ensures FrontAfter(0, k, n) == k % n
  {
    FrontIsModulo(0, k, n);
    assert 0 + k == k;
  }

  function AllKept(k: nat): seq<bool> {
    if k == 0 then [] else [true] + AllKept(k - 1)
  }

  /** Where the front is after `k` more turns. */
  function FrontAfter(front: nat, k: nat, n: nat): nat
    decreases k
  {
    if k == 0 then front else FrontAfter(if front + 1 < n then front + 1 else 0, k - 1, n)
  }

  lemma {:induction false} TurnsAround(t: Turn, k: nat)
    requires t.Valid() && t.order != []
    ensures CanRun(t.Pool(), AllKept(k))
    ensures FrontAfter(t.front, k, |t.order|) < |t.order|
    ensures Run(t.Pool(), AllKept(k)) == Rotate(t.order, FrontAfter(t.front, k, |t.order|))
    decreases k
  {
    hide Use;
    if k > 0 {
      UseIsNext(t, true);
      assert AllKept(k)[1..] == AllKept(k - 1);
      TurnsAround(t.Next(true), k - 1);
    }
  }

  lemma {:induction false} FrontIsModulo(front: nat, k: nat, n: nat)
    requires front < n
    ensures FrontAfter(front, k, n) == (front + k) % n
    decreases k
  {
    if k == 0 {
      SmallModulo(front, n);
    } else if front + 1 < n {
      FrontIsModulo(front + 1, k - 1, n);
    } else {
      FrontIsModulo(0, k - 1, n);
      ModuloPeriod(k - 1, n);
      assert (k - 1) + n == front + k;
    }
  }

  lemma SmallModulo(x: nat, n: nat)
    requires x < n
    ensures x % n == x
  {
  }

  lemma MultipleAtLeast(n: nat, d: nat)
    requires d >= 1
    ensures n * d >= n
  {
  }

  lemma ModuloPeriod(x: nat, n: nat)
    requires n > 0
    ensures (x + n) % n == x % n
  {
    var d := x / n + 1 - (x + n) / n;
    assert n * (x / n) + x % n == x && n * ((x + n) / n) + (x + n) % n == x + n;
    assert n * d == n * (x / n) + n - n * ((x + n) / n);
    if d >= 1 {
      MultipleAtLeast(n, d);
    } else if d <= -1 {
      MultipleAtLeast(n, -d);
    }
  }

  // ---- Interleaved callers ------------------------------------------------------

  /** What a caller does next. Taking and giving back are atomic. */
  datatype Action = Take | Prepare | Execute | GiveBack

  /** A caller: the rest of the operation it is in, the operations still to come, the connection it holds. */
  datatype Caller = Caller(held: Option<Connection>, now: seq<Action>, later: seq<seq<Action>>)

  datatype Shared = Shared(pool: seq<Connection>, callers: seq<Caller>, lost: seq<Connection>)

  /** Every query with one statement. */
  const ONE_STATEMENT: seq<Action> := [Take, Prepare, Execute, GiveBack]

  /** `addFriend`: two statements on one connection. */
  const TWO_STATEMENTS: seq<Action> := [Take, Prepare, Execute, Prepare, Execute, GiveBack]

  /** An operation of the database; `getFriendPair` is one query after another. */
  predicate IsOperation(ops: seq<seq<Action>>) {
    ops == [ONE_STATEMENT] || ops == [TWO_STATEMENTS] || ops == [ONE_STATEMENT, ONE_STATEMENT]
  }

  datatype Event =
    | Begin(t: nat, ops: seq<seq<Action>>)  // an idle caller starts an operation
    | Advance(t: nat)                       // a caller enters the next query of its operation
    | Act(t: nat, fails: bool)              // a caller takes its next action

  predicate Waiting(s: Shared, t: nat)
    requires t < |s.callers|
  {
    s.callers[t].now != [] && s.callers[t].now[0] == Take && s.pool == []
  }

  predicate Busy(c: Caller) {
    c.now != [] || c.later != []
  }

  predicate Enabled(s: Shared, e: Event) {
    e.t < |s.callers|
    && match e
       case Begin(t, ops) => !Busy(s.callers[t]) && IsOperation(ops)
       case Advance(t) => s.callers[t].now == [] && s.callers[t].later != []
       case Act(t, fails) => s.callers[t].now != [] && !Waiting(s, t)
  }

  /** One action of one caller. A failed prepare abandons the query and the connection with it. */
  function Do(s: Shared, t: nat, fails: bool): Shared
    requires Enabled(s, Act(t, fails))
  {
    var c := s.callers[t];
    match c.now[0]
    case Take =>
      Shared(s.pool[1..], s.callers[t := c.(held := Some(s.pool[0]), now := c.now[1..])], s.lost)
    case Prepare =>
      if fails then
        Shared(s.pool, s.callers[t := c.(held := None, now := [])], s.lost + Holding(c))
      else s.(callers := s.callers[t := c.(now := c.now[1..])])
    case Execute => s.(callers := s.callers[t := c.(now := c.now[1..])])
    case GiveBack =>
      Shared(s.pool + Holding(c), s.callers[t := c.(held := None, now := c.now[1..])], s.lost)
  }

  function Holding(c: Caller): seq<Connection> {
    if c.held.Some? then [c.held.value] else []
  }

  function Step(s: Shared, e: Event): Shared
    requires Enabled(s, e)
  {
    match e
    case Begin(t, ops) => s.(callers := s.callers[t := s.callers[t].(now := ops[0], later := ops[1..])])
    case Advance(t) =>
      var c := s.callers[t];
      s.(callers := s.callers[t := c.(now := c.later[0], later := c.later[1..])])
    case Act(t, fails) => Do(s, t, fails)
  }

  predicate Possible(s: Shared, es: seq<Event>)
    decreases |es|
  {
    |es| == 0 || (Enabled(s, es[0]) && Possible(Step(s, es[0]), es[1..]))
  }

  function RunAll(s: Shared, es: seq<Event>): Shared
    requires Possible(s, es)
    decreases |es|
  {
    if |es| == 0 then s else RunAll(Step(s, es[0]), es[1..])
  }

  // ---- A caller by itself uses the pool as one operation after another does -----

  /** What follows taking a connection: that many statements, then giving back. */
  function Statements(n: nat): seq<Action> {
    if n == 0 then [GiveBack] else [Prepare, Execute] + Statements(n - 1)
  }

  /** What caller `t` then does; `prepared` says which of its statements prepare. */
  function Acts(t: nat, prepared: seq<bool>): seq<Event> {
    if |prepared| == 0 then [Act(t, false)]
    else if !prepared[0] then [Act(t, true)]
    else [Act(t, false)] + ([Act(t, false)] + Acts(t, prepared[1..]))
  }

  predicate AllPrepared(prepared: seq<bool>) {
    forall i :: 0 <= i < |prepared| ==> prepared[i]
  }

  lemma First(s: Shared, e: Event, es: seq<Event>)
    requires Enabled(s, e) && Possible(Step(s, e), es)
    ensures Possible(s, [e] + es) && RunAll(s, [e] + es) == RunAll(Step(s, e), es)
  {
  }

  lemma OneEvent(s: Shared, e: Event)
    requires Enabled(s, e)
    ensures Possible(s, [e]) && RunAll(s, [e]) == Step(s, e)
  {
  }

  lemma {:induction false} StatementsAlone(s: Shared, t: nat, prepared: seq<bool>, x: Connection)
    requires t < |s.callers| && s.callers[t] == Caller(Some(x), Statements(|prepared|), [])
    ensures Possible(s, Acts(t, prepared))
    ensures RunAll(s, Acts(t, prepared))
            == Shared(s.pool + if AllPrepared(prepared) then [x] else [],
                      s.callers[t := Caller(None, [], [])],
                      s.lost + if AllPrepared(prepared) then [] else [x])
    decreases |prepared|
  {
    hide Possible, RunAll;
    if |prepared| == 0 {
      OneEvent(s, Act(t, false));
    } else if !prepared[0] {
      OneEvent(s, Act(t, true));
    } else {
      var rest := prepared[1..];
      var s1 := Step(s, Act(t, false));
      var s2 := Step(s1, Act(t, false));
      assert s2.callers[t] == Caller(Some(x), Statements(|rest|), []);
      StatementsAlone(s2, t, rest, x);
      First(s1, Act(t, false), Acts(t, rest));
      First(s, Act(t, false), [Act(t, false)] + Acts(t, rest));
      assert AllPrepared(prepared) <==> AllPrepared(rest) by {
        assert forall i :: 0 <= i < |rest| ==> rest[i] == prepared[i + 1];
      }
    }
  }

  /**
   A caller that runs an operation of one query by itself leaves the pool as the
   sequential operation does: one statement, or the two of `addFriend`.
   */
  lemma OperationAlone(s: Shared, t: nat, prepared: seq<bool>)
    requires t < |s.callers| && s.callers[t] == Caller(None, [], []) && s.pool != []
    requires |prepared| == 1 || |prepared| == 2
    ensures var ops := [if |prepared| == 1 then ONE_STATEMENT else TWO_STATEMENTS];
            var es := [Begin(t, ops)] + ([Act(t, false)] + Acts(t, prepared));
            && Possible(s, es)
            && RunAll(s, es) == Shared(Use(s.pool, AllPrepared(prepared)), s.callers,
                                       s.lost + if AllPrepared(prepared) then [] else [s.pool[0]])
  {
    var ops := [if |prepared| == 1 then ONE_STATEMENT else TWO_STATEMENTS];
    assert Statements(1) == [Prepare, Execute, GiveBack];
    assert Statements(2) == [Prepare, Execute, Prepare, Execute, GiveBack];
    hide Possible, RunAll, Acts, Statements;
    var s1 := Step(s, Begin(t, ops));
    var s2 := Step(s1, Act(t, false));
    StatementsAlone(s2, t, prepared, s.pool[0]);
    First(s1, Act(t, false), Acts(t, prepared));
    First(s, Begin(t, ops), [Act(t, false)] + Acts(t, prepared));
  }

  /** How many callers hold connection `x`. */
  function Holders(callers: seq<Caller>, x: Connection): nat {
    if |callers| == 0 then 0
    else Holders(callers[..|callers| - 1], x) + if callers[|callers| - 1].held == Some(x) then 1 else 0
  }

  /** The rest of a query once its connection is taken: statements, then giving back. */
  predicate Body(now: seq<Action>) {
    now != [] && (now == [GiveBack] || ((now[0] == Prepare || now[0] == Execute) && Body(now[1..])))
  }

  predicate Query(now: seq<Action>) {
    now != [] && now[0] == Take && Body(now[1..])
  }

  /** A caller holds a connection exactly inside a query, after taking it and before giving it back. */
  ghost predicate Disciplined(c: Caller) {
    && (if c.held.Some? then Body(c.now) else c.now == [] || Query(c.now))
    && forall i :: 0 <= i < |c.later| ==> Query(c.later[i])
  }

  ghost predicate AllDisciplined(s: Shared) {
    forall t :: 0 <= t < |s.callers| ==> Disciplined(s.callers[t])
  }

  function Places(s: Shared, x: Connection): nat {
    multiset(s.pool)[x] + Holders(s.callers, x) + multiset(s.lost)[x]
  }

  /** Every created connection is in the pool, in a caller's hand, or lost. */
  ghost predicate Conserved(created: seq<Connection>, s: Shared) {
    forall x :: Places(s, x) == multiset(created)[x]
  }

  ghost predicate Inv(created: seq<Connection>, s: Shared) {
    AllDisciplined(s) && Conserved(created, s)
  }

  lemma {:induction false} HoldersUpdate(callers: seq<Caller>, t: nat, c: Caller, x: Connection)
    requires t < |callers|
    ensures Holders(callers[t := c], x) + (if callers[t].held == Some(x) then 1 else 0)
            == Holders(callers, x) + (if c.held == Some(x) then 1 else 0)
  {
    var n := |callers| - 1;
    if t == n {
      assert callers[t := c][..n] == callers[..n];
    } else {
      assert callers[t := c][..n] == callers[..n][t := c];
      HoldersUpdate(callers[..n], t, c, x);
    }
  }

  lemma OperationsAreQueries(ops: seq<seq<Action>>)
    requires IsOperation(ops)
    ensures forall i :: 0 <= i < |ops| ==> Query(ops[i])
  {
  }

  lemma DoKeepsDiscipline(s: Shared, t: nat, fails: bool)
    requires Enabled(s, Act(t, fails)) && Disciplined(s.callers[t])
    ensures Disciplined(Do(s, t, fails).callers[t])
  {
  }

  lemma DoKeepsPlaces(s: Shared, t: nat, fails: bool, x: Connection)
    requires Enabled(s, Act(t, fails)) && Disciplined(s.callers[t])
    ensures Places(Do(s, t, fails), x) == Places(s, x)
  {
    var c, s' := s.callers[t], Do(s, t, fails);
    EmptyHandedAtTake(c);
    hide Holders, Body, Disciplined;
    HoldersUpdate(s.callers, t, s'.callers[t], x);
    match c.now[0]
    case Take =>
      TakeFront(s.pool, x);
    case Prepare =>
      CountHolding(s.lost, c, x);
    case Execute =>
    case GiveBack =>
      CountHolding(s.pool, c, x);
  }

  /** A caller that is about to take a connection holds none. */
  lemma EmptyHandedAtTake(c: Caller)
    requires Disciplined(c) && c.now != []
    ensures c.now[0] == Take <==> c.held == None
  {
  }

  lemma TakeFront(pool: seq<Connection>, x: Connection)
    requires pool != []
    ensures multiset(pool)[x] == multiset(pool[1..])[x] + if pool[0] == x then 1 else 0
  {
    assert pool == [pool[0]] + pool[1..];
  }

  lemma StepKeepsPlaces(s: Shared, e: Event, x: Connection)
    requires Enabled(s, e) && Disciplined(s.callers[e.t])
    ensures Places(Step(s, e), x) == Places(s, x)
  {
    if e.Act? {
      DoKeepsPlaces(s, e.t, e.fails, x);
    } else {
      hide Holders, Body, Query;
      HoldersUpdate(s.callers, e.t, Step(s, e).callers[e.t], x);
    }
  }

  lemma CountHolding(s: seq<Connection>, c: Caller, x: Connection)
    ensures multiset(s + Holding(c))[x] == multiset(s)[x] + if c.held == Some(x) then 1 else 0
  {
  }

  lemma StepDisciplined(s: Shared, e: Event)
    requires AllDisciplined(s) && Enabled(s, e)
    ensures AllDisciplined(Step(s, e))
  {
    var c, s' := s.callers[e.t], Step(s, e);
    assert Disciplined(c);
    match e
    case Begin(t, ops) =>
      OperationsAreQueries(ops);
      hide Body, Query;
      assert forall i :: 0 <= i < |ops[1..]| ==> ops[1..][i] == ops[i + 1];
      BeginDisciplined(s'.callers[t]);
    case Advance(t) =>
      hide Body;
      assert forall i :: 0 <= i < |c.later[1..]| ==> c.later[1..][i] == c.later[i + 1];
    case Act(t, fails) =>
      DoKeepsDiscipline(s, t, fails);
  }

  lemma BeginDisciplined(c: Caller)
    requires c.held == None && Query(c.now) && forall i :: 0 <= i < |c.later| ==> Query(c.later[i])
    ensures Disciplined(c)
  {
  }

  lemma StepKeepsInv(created: seq<Connection>, s: Shared, e: Event)
    requires Inv(created, s) && Enabled(s, e)
    ensures Inv(created, Step(s, e))
  {
    assert Disciplined(s.callers[e.t]);
    StepDisciplined(s, e);
    forall x ensures Places(Step(s, e), x) == multiset(created)[x] {
      StepKeepsPlaces(s, e, x);
    }
  }

  /** Over every interleaving, pool, held and lost connections together are the created ones. */
  lemma {:induction false} RunKeepsInv(created: seq<Connection>, s: Shared, es: seq<Event>)
    requires Inv(created, s) && Possible(s, es)
    ensures Inv(created, RunAll(s, es))
    decreases |es|
  {
    if |es| > 0 {
      StepKeepsInv(created, s, es[0]);
      RunKeepsInv(created, Step(s, es[0]), es[1..]);
    }
  }

  lemma {:induction false} HolderCounts(callers: seq<Caller>, t: nat, x: Connection)
    requires t < |callers| && callers[t].held == Some(x)
    ensures Holders(callers, x) >= 1
  {
    if t < |callers| - 1 {
      HolderCounts(callers[..|callers| - 1], t, x);
    }
  }

  lemma {:induction false} TwoHoldersCount(callers: seq<Caller>, t: nat, u: nat, x: Connection)
    requires t < u < |callers| && callers[t].held == Some(x) == callers[u].held
    ensures Holders(callers, x) >= 2
  {
    var n := |callers| - 1;
    if u < n {
      TwoHoldersCount(callers[..n], t, u, x);
    } else {
      HolderCounts(callers[..n], t, x);
    }
  }

  lemma {:induction false} DistinctCountsOnce(s: seq<Connection>, c: Connection)
    requires Distinct(s)
    ensures multiset(s)[c] <= 1
  {
    if |s| > 0 {
      DistinctCountsOnce(s[..|s| - 1], c);
      assert s == s[..|s| - 1] + [s[|s| - 1]];
      assert s[|s| - 1] !in s[..|s| - 1];
    }
  }

  lemma CountsOnceDistinct(s: seq<Connection>)
    requires forall x :: multiset(s)[x] <= 1
    ensures Distinct(s)
  {
    forall i, j | 0 <= i < j < |s| ensures s[i] != s[j] {
      assert s == s[..j] + s[j..];
      assert s[i] in s[..j] && s[j] in s[j..];
      assert multiset(s)[s[i]] <= 1;
    }
  }

  lemma OnePlace(created: seq<Connection>, s: Shared, x: Connection)
    requires Distinct(created) && Conserved(created, s)
    ensures Places(s, x) <= 1
  {
    DistinctCountsOnce(created, x);
    assert Places(s, x) == multiset(created)[x];
  }

  /**
   Pool, callers' hands and lost connections are disjoint, and no connection is
   twice in any of them.
   */
  lemma NeverShared(created: seq<Connection>, s: Shared)
    requires Distinct(created) && Inv(created, s)
    ensures Distinct(s.pool) && Distinct(s.lost) && forall x :: x in s.pool ==> x !in s.lost
    ensures forall t :: 0 <= t < |s.callers| && s.callers[t].held.Some? ==>
              s.callers[t].held.value !in s.pool && s.callers[t].held.value !in s.lost
    ensures forall t, u :: 0 <= t < |s.callers| && 0 <= u < |s.callers| && t != u && s.callers[t].held.Some? ==>
              s.callers[t].held != s.callers[u].held
  {
    hide Distinct, Conserved, Holders;
    forall x ensures multiset(s.pool)[x] <= 1 && multiset(s.lost)[x] <= 1 && (x in s.pool ==> x !in s.lost) {
      OnePlace(created, s, x);
    }
    CountsOnceDistinct(s.pool);
    CountsOnceDistinct(s.lost);
    forall t | 0 <= t < |s.callers| && s.callers[t].held.Some?
      ensures s.callers[t].held.value !in s.pool && s.callers[t].held.value !in s.lost
    {
      HolderCounts(s.callers, t, s.callers[t].held.value);
      OnePlace(created, s, s.callers[t].held.value);
    }
    forall t, u | 0 <= t < u < |s.callers| && s.callers[t].held.Some?
      ensures s.callers[t].held != s.callers[u].held
    {
      OnePlace(created, s, s.callers[t].held.value);
      if s.callers[t].held == s.callers[u].held {
        TwoHoldersCount(s.callers, t, u, s.callers[t].held.value);
      }
    }
  }

  lemma {:induction false} NobodyHolds(callers: seq<Caller>, x: Connection)
    requires forall t :: 0 <= t < |callers| ==> callers[t].held == None
    ensures Holders(callers, x) == 0
  {
    if |callers| > 0 {
      NobodyHolds(callers[..|callers| - 1], x);
    }
  }

  /** Nothing can happen but callers starting to wait: no busy caller can take an action. */
  ghost predicate Stuck(s: Shared) {
    s.pool == [] && forall t :: 0 <= t < |s.callers| ==> s.callers[t].now == [] || Waiting(s, t)
  }

  /** No caller waits while it holds a connection; the system is stuck exactly when every connection is lost. */
  lemma StuckExactly(created: seq<Connection>, s: Shared)
    requires Inv(created, s)
    ensures forall t :: 0 <= t < |s.callers| && Waiting(s, t) ==> s.callers[t].held == None
    ensures Stuck(s) <==> multiset(s.lost) == multiset(created)
  {
    forall t | 0 <= t < |s.callers| && Waiting(s, t) ensures s.callers[t].held == None {
      assert Disciplined(s.callers[t]);
    }
    if Stuck(s) {
      StuckMeansLost(created, s);
    }
    if multiset(s.lost) == multiset(created) {
      LostMeansStuck(created, s);
    }
  }

  lemma StuckMeansLost(created: seq<Connection>, s: Shared)
    requires Inv(created, s) && Stuck(s)
    ensures multiset(s.lost) == multiset(created)
  {
    forall t | 0 <= t < |s.callers| ensures s.callers[t].held == None {
      assert Disciplined(s.callers[t]);
    }
    forall x ensures multiset(s.lost)[x] == multiset(created)[x] {
      NobodyHolds(s.callers, x);
      assert Places(s, x) == multiset(created)[x];
    }
  }

  lemma LostMeansStuck(created: seq<Connection>, s: Shared)
    requires Inv(created, s) && multiset(s.lost) == multiset(created)
    ensures Stuck(s)
  {
    forall x ensures multiset(s.pool)[x] == 0 && Holders(s.callers, x) == 0 {
      assert Places(s, x) == multiset(created)[x];
    }
    assert multiset(s.pool) == multiset{} && |multiset(s.pool)| == |s.pool|;
    forall t | 0 <= t < |s.callers| ensures s.callers[t].now == [] || Waiting(s, t) {
      assert Disciplined(s.callers[t]);
      if s.callers[t].held.Some? {
        HolderCounts(s.callers, t, s.callers[t].held.value);
      }
    }
  }

  /** How many prepares failed while a connection was held. */
  function Lost(es: seq<Event>, s: Shared): nat
    requires Possible(s, es)
    decreases |es|
  {
    if |es| == 0 then 0
    else (if es[0].Act? && es[0].fails && s.callers[es[0].t].now[0] == Prepare then 1 else 0)
         + Lost(es[1..], Step(s, es[0]))
  }

  /** Each prepare failure loses exactly one connection. */
  lemma {:induction false} OneLostPerFailure(created: seq<Connection>, s: Shared, es: seq<Event>)
    requires Inv(created, s) && Possible(s, es)
    ensures |RunAll(s, es).lost| == |s.lost| + Lost(es, s)
    decreases |es|
  {
    if |es| > 0 {
      assert Disciplined(s.callers[es[0].t]);
      StepKeepsInv(created, s, es[0]);
      OneLostPerFailure(created, Step(s, es[0]), es[1..]);
    }
  }

  lemma SameSizeSameElements(a: multiset<Connection>, b: multiset<Connection>)
    requires a <= b && |a| == |b|
    ensures a == b
  {
    assert |b - a| == 0;
    assert b == a + (b - a);
  }

  /** From idle callers: the system gets stuck exactly when as many prepares failed as there were connections. */
  lemma EveryInterleaving(created: seq<Connection>, callers: seq<Caller>, es: seq<Event>)
    requires forall t :: 0 <= t < |callers| ==> callers[t] == Caller(None, [], [])
    requires Possible(Shared(created, callers, []), es)
    ensures var s0 := Shared(created, callers, []); var s := RunAll(s0, es);
            && Inv(created, s)
            && (Stuck(s) <==> Lost(es, s0) == |created|)
  {
    var s0 := Shared(created, callers, []);
    var s := RunAll(s0, es);
    forall x ensures Places(s0, x) == multiset(created)[x] {
      NobodyHolds(callers, x);
    }
    RunKeepsInv(created, s0, es);
    OneLostPerFailure(created, s0, es);
    StuckExactly(created, s);
    assert |multiset(created)| == |created| && |multiset(s.lost)| == |s.lost|;
    if Lost(es, s0) == |created| {
      assert multiset(s.lost) <= multiset(created) by {
        assert forall x :: Places(s, x) == multiset(created)[x];
      }
      SameSizeSameElements(multiset(s.lost), multiset(created));
    }
  }
}
