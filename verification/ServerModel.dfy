/**
 All sessions of src/Server.cpp together: the set `sessions_` and the state of
 every session ever accepted. Any session may take its next event at any time.
 */
module ServerModel {
  import M = SessionModel

  datatype State = State(members: set<nat>, sessions: map<nat, M.State>)

  const EMPTY := State({}, map[])

  datatype Event =
    | Accepted(id: nat)        // handshake succeeded: a new session is inserted, then started
    | HandshakeFailed
    | On(id: nat, e: M.Event)  // an event of one session

  /** The events whose handler calls `stop`, and with it `removeSession`. */
  predicate Stops(e: M.Event) {
    e.WriteErr? || e.ReadErr?
  }

  predicate Enabled(s: State, e: Event) {
    match e
    case Accepted(id) => id !in s.sessions
    case HandshakeFailed => true
    case On(id, e) => id in s.sessions && !e.Start? && M.Enabled(s.sessions[id], e)
  }

  function Step(decode: M.Decoder, s: State, e: Event): State
    requires Enabled(s, e)
  {
    match e
    case Accepted(id) =>
      State(s.members + {id}, s.sessions[id := M.Step(decode, M.FRESH, M.Start)])
    case HandshakeFailed => s
    case On(id, e) =>
      State(if Stops(e) then s.members - {id} else s.members, s.sessions[id := M.Step(decode, s.sessions[id], e)])
  }

  predicate Possible(decode: M.Decoder, s: State, es: seq<Event>)
    decreases |es|
  {
    |es| == 0 || (Enabled(s, es[0]) && Possible(decode, Step(decode, s, es[0]), es[1..]))
  }

  function Run(decode: M.Decoder, s: State, es: seq<Event>): State
    requires Possible(decode, s, es)
    decreases |es|
  {
    if |es| == 0 then s else Run(decode, Step(decode, s, es[0]), es[1..])
  }

  /** Each session keeps its own invariant; the set holds the started ones that `stop` never ran on. */
  ghost predicate Inv(decode: M.Decoder, s: State) {
    && (forall id :: id in s.sessions ==> s.sessions[id].started && M.Inv(decode, s.sessions[id]))
    && (forall id :: id in s.members <==> id in s.sessions && s.sessions[id].stops == 0)
  }

  lemma StopsExactly(decode: M.Decoder, s: M.State, e: M.Event)
    requires M.Enabled(s, e) && !e.Start?
    ensures var t := M.Step(decode, s, e);
            t.started == s.started && t.stops == s.stops + if Stops(e) then 1 else 0
  {
  }

  lemma StepKeepsInv(decode: M.Decoder, s: State, e: Event)
    requires Inv(decode, s) && Enabled(s, e)
    ensures Inv(decode, Step(decode, s, e))
  {
    hide M.Inv, M.Step;
    match e
    case Accepted(id) =>
      FreshStarted(decode);
    case HandshakeFailed =>
    case On(id, e) =>
      M.StepKeepsInv(decode, s.sessions[id], e);
      StopsExactly(decode, s.sessions[id], e);
  }

  lemma FreshStarted(decode: M.Decoder)
    ensures var t := M.Step(decode, M.FRESH, M.Start); M.Inv(decode, t) && t.started && t.stops == 0
  {
  }

  lemma {:induction false} RunKeepsInv(decode: M.Decoder, s: State, es: seq<Event>)
    requires Inv(decode, s) && Possible(decode, s, es)
    ensures Inv(decode, Run(decode, s, es))
    decreases |es|
  {
    if |es| > 0 {
      StepKeepsInv(decode, s, es[0]);
      RunKeepsInv(decode, Step(decode, s, es[0]), es[1..]);
    }
  }

  /**
   After every run of the server: a session is in `sessions_` exactly when it
   was accepted and never stopped; a member that is not reading is closed; every
   session's wire is a prefix of what it was sent.
   */
  lemma EveryRunMembership(decode: M.Decoder, es: seq<Event>)
    requires Possible(decode, EMPTY, es)
    ensures var s := Run(decode, EMPTY, es);
            && (forall id :: id in s.members <==> id in s.sessions && s.sessions[id].stops == 0)
            && (forall id :: id in s.members && s.sessions[id].readOps == 0 ==> !s.sessions[id].open)
            && (forall id :: id in s.sessions ==> s.sessions[id].wire <= s.sessions[id].sent)
  {
    RunKeepsInv(decode, EMPTY, es);
    var s := Run(decode, EMPTY, es);
    forall id | id in s.sessions ensures s.sessions[id].wire <= s.sessions[id].sent {
      var t := s.sessions[id];
      assert t.wire + t.writeMsgs + t.posted == t.wire + (t.writeMsgs + t.posted);
    }
  }

  predicate About(e: Event, id: nat) {
    (e.On? && e.id == id) || (e.Accepted? && e.id == id)
  }

  /** The events of one session, in order. */
  function Project(es: seq<Event>, id: nat): seq<M.Event> {
    if |es| == 0 then []
    else (if About(es[0], id) && es[0].On? then [es[0].e] else []) + Project(es[1..], id)
  }

  /**
   Sessions do not disturb each other: in any interleaving, a session ends where
   its own events alone take it, and it is removed only if one of those stops it.
   */
  lemma {:induction false} SessionsIndependent(decode: M.Decoder, s: State, es: seq<Event>, id: nat)
    requires id in s.sessions && Possible(decode, s, es)
    ensures var own := Project(es, id); var t := Run(decode, s, es);
            && M.Possible(decode, s.sessions[id], own)
            && id in t.sessions && t.sessions[id] == M.Run(decode, s.sessions[id], own)
            && (id in t.members <==> id in s.members && forall i :: 0 <= i < |own| ==> !Stops(own[i]))
    decreases |es|
  {
    if |es| > 0 {
      var s' := Step(decode, s, es[0]);
      var rest := Project(es[1..], id);
      SessionsIndependent(decode, s', es[1..], id);
      if About(es[0], id) {
        assert Project(es, id) == [es[0].e] + rest;
        M.Prefixed(decode, s.sessions[id], es[0].e, rest);
        assert forall i :: 0 <= i < |rest| ==> ([es[0].e] + rest)[i + 1] == rest[i];
        assert (forall i :: 0 <= i < |[es[0].e] + rest| ==> !Stops(([es[0].e] + rest)[i]))
          <==> !Stops(es[0].e) && forall i :: 0 <= i < |rest| ==> !Stops(rest[i]);
      } else {
        assert Project(es, id) == rest;
      }
    }
  }

  /** A stranded member stays in the set for good: nothing can remove it any more. */
  lemma StrandedMemberLeaks(decode: M.Decoder, s: State, es: seq<Event>, id: nat)
    requires Inv(decode, s) && id in s.members && M.Stranded(s.sessions[id]) && Possible(decode, s, es)
    ensures id in Run(decode, s, es).members
  {
    SessionsIndependent(decode, s, es, id);
    RunKeepsInv(decode, s, es);
    M.StrandedNeverStops(decode, s.sessions[id], Project(es, id));
  }

  /** A left-over member stays in the set until something more is sent to it. */
  lemma LeftOverMemberLeaks(decode: M.Decoder, s: State, es: seq<Event>, id: nat)
    requires Inv(decode, s) && id in s.members && M.LeftOver(s.sessions[id])
    requires Possible(decode, s, es) && M.NoSend(Project(es, id))
    ensures var t := Run(decode, s, es); id in t.members && id in t.sessions && M.LeftOver(t.sessions[id])
  {
    SessionsIndependent(decode, s, es, id);
    RunKeepsInv(decode, s, es);
    M.LeftOverNeverStops(decode, s.sessions[id], Project(es, id));
  }

  /** The events of one session as events of the server. */
  function Lift(own: seq<M.Event>, id: nat): seq<Event> {
    if |own| == 0 then [] else [On(id, own[0])] + Lift(own[1..], id)
  }

  lemma {:induction false} LiftRuns(decode: M.Decoder, s: State, own: seq<M.Event>, id: nat)
    requires Inv(decode, s) && id in s.sessions && M.Possible(decode, s.sessions[id], own)
    ensures Possible(decode, s, Lift(own, id)) && Project(Lift(own, id), id) == own
    decreases |own|
  {
    hide M.Inv, M.Step;
    if |own| > 0 {
      StepKeepsInv(decode, s, On(id, own[0]));
      LiftRuns(decode, Step(decode, s, On(id, own[0])), own[1..], id);
      assert Lift(own, id)[1..] == Lift(own[1..], id);
    }
  }

  /** A member can still leave the set exactly when it is not stranded. */
  lemma RemovableExactly(decode: M.Decoder, s: State, id: nat)
    requires Inv(decode, s) && id in s.members
    ensures (exists es :: Possible(decode, s, es) && id !in Run(decode, s, es).members) <==> !M.Stranded(s.sessions[id])
  {
    hide M.Inv, M.Step, M.Run, M.Possible, Run, Possible, Project;
    var t := s.sessions[id];
    if M.Stranded(t) {
      forall es | Possible(decode, s, es) ensures id in Run(decode, s, es).members {
        StrandedMemberLeaks(decode, s, es, id);
      }
    } else {
      M.StoppableExactly(decode, t);
      var own :| M.Possible(decode, t, own) && M.Run(decode, t, own).stops > t.stops;
      LiftRemoves(decode, s, own, id);
      assert Possible(decode, s, Lift(own, id));
    }
  }

  /** A member to which nothing more is sent can still leave the set exactly when it is not left over. */
  lemma RemovableUnsentExactly(decode: M.Decoder, s: State, id: nat)
    requires Inv(decode, s) && id in s.members
    ensures (exists es :: Possible(decode, s, es) && M.NoSend(Project(es, id)) && id !in Run(decode, s, es).members)
       <==> !M.LeftOver(s.sessions[id])
  {
    hide M.Inv, M.Step, M.Run, M.Possible, M.NoSend, Run, Possible, Project;
    var t := s.sessions[id];
    if M.LeftOver(t) {
      forall es | Possible(decode, s, es) && M.NoSend(Project(es, id)) ensures id in Run(decode, s, es).members {
        LeftOverMemberLeaks(decode, s, es, id);
      }
    } else {
      M.StoppableUnsentExactly(decode, t);
      var own :| M.Possible(decode, t, own) && M.NoSend(own) && M.Run(decode, t, own).stops > t.stops;
      LiftRemoves(decode, s, own, id);
      assert Possible(decode, s, Lift(own, id));
    }
  }

  lemma LiftRemoves(decode: M.Decoder, s: State, own: seq<M.Event>, id: nat)
    requires Inv(decode, s) && id in s.members && M.Possible(decode, s.sessions[id], own)
    requires M.Run(decode, s.sessions[id], own).stops > s.sessions[id].stops
    ensures Possible(decode, s, Lift(own, id)) && Project(Lift(own, id), id) == own
    ensures id !in Run(decode, s, Lift(own, id)).members
  {
    LiftRuns(decode, s, own, id);
    SessionsIndependent(decode, s, Lift(own, id), id);
    RunKeepsInv(decode, s, Lift(own, id));
  }

  /**
   Whenever a member logs out with nothing to write, the business handler is told,
   but the member stays in the set, and through every later run until something
   is sent to it.
   */
  lemma LogoutLeaks(decode: M.Decoder, s: State, id: nat, frame: string, later: seq<Event>)
    requires Inv(decode, s) && id in s.members
    requires s.sessions[id].readOps > 0 && s.sessions[id].writeOps == []
    requires s.sessions[id].posted == [] || s.sessions[id].writeMsgs != []
    ensures var es := Lift(M.LogoutRun(frame), id);
            && Possible(decode, s, es)
            && var t := Run(decode, s, es);
               && id in t.members && id in t.sessions
               && M.LeftOver(t.sessions[id]) && t.sessions[id].told == s.sessions[id].told + 1
               && (Possible(decode, t, later) && M.NoSend(Project(later, id)) ==> id in Run(decode, t, later).members)
  {
    hide M.Run, M.Possible, M.NoSend, Run, Possible, Project, M.Step;
    var own := M.LogoutRun(frame);
    M.LogoutLeavesOver(decode, s.sessions[id], frame);
    LiftRuns(decode, s, own, id);
    var es := Lift(own, id);
    SessionsIndependent(decode, s, es, id);
    RunKeepsInv(decode, s, es);
    var t := Run(decode, s, es);
    if Possible(decode, t, later) && M.NoSend(Project(later, id)) {
      LeftOverMemberLeaks(decode, t, later, id);
    }
  }

  /** The first session of a server can log out like that at once. */
  lemma LogoutReachable(decode: M.Decoder, id: nat, frame: string)
    ensures var es := [Accepted(id)] + Lift(M.LogoutRun(frame), id);
            && Possible(decode, EMPTY, es)
            && var t := Run(decode, EMPTY, es);
               id in t.members && id in t.sessions && M.LeftOver(t.sessions[id]) && t.sessions[id].told == 1
  {
    var s := Step(decode, EMPTY, Accepted(id));
    StepKeepsInv(decode, EMPTY, Accepted(id));
    LogoutLeaks(decode, s, id, frame, []);
    Prefixed(decode, EMPTY, Accepted(id), Lift(M.LogoutRun(frame), id));
  }

  lemma Prefixed(decode: M.Decoder, s: State, e: Event, es: seq<Event>)
    requires Enabled(s, e) && Possible(decode, Step(decode, s, e), es)
    ensures Possible(decode, s, [e] + es) && Run(decode, s, [e] + es) == Run(decode, Step(decode, s, e), es)
  {
  }

  // ---- Leaving the set and being reported ------------------------------------------

  /** A session accepted during a run has been taken through its own events from its start. */
  lemma {:induction false} AcceptedInRun(decode: M.Decoder, s: State, es: seq<Event>, id: nat)
    requires Inv(decode, s) && id !in s.sessions && Possible(decode, s, es) && id in Run(decode, s, es).sessions
    ensures var own := Project(es, id); var s0 := M.Step(decode, M.FRESH, M.Start); var t := Run(decode, s, es);
            && M.Possible(decode, s0, own) && t.sessions[id] == M.Run(decode, s0, own)
            && (id in t.members <==> forall i :: 0 <= i < |own| ==> !Stops(own[i]))
    decreases |es|
  {
    hide M.Inv, M.Step, M.Run, M.Possible;
    assert |es| > 0;
    var s' := Step(decode, s, es[0]);
    StepKeepsInv(decode, s, es[0]);
    assert Project(es, id) == Project(es[1..], id);
    if es[0] == Accepted(id) {
      SessionsIndependent(decode, s', es[1..], id);
    } else {
      AcceptedInRun(decode, s', es[1..], id);
    }
  }

  /** Some handler of the session ran `stop`. */
  predicate SomeStops(own: seq<M.Event>) {
    exists i :: 0 <= i < |own| && Stops(own[i])
  }

  /** The business handler was never told of this session's end, and no close is under way. */
  predicate Unreported(s: State, id: nat)
    requires id in s.sessions
  {
    s.sessions[id].told == 0 && s.sessions[id].closing == 0
  }

  /**
   After every run of the server, a session has left the set exactly when one of
   its own reads or writes failed, and is unreported exactly when `close` was
   never called on it. So the set and the business handler agree on who is gone
   exactly when both happened or neither.
   */
  lemma ReportedExactly(decode: M.Decoder, es: seq<Event>, id: nat)
    requires Possible(decode, EMPTY, es) && id in Run(decode, EMPTY, es).sessions
    ensures var own := Project(es, id); var s := Run(decode, EMPTY, es);
            && (id !in s.members <==> SomeStops(own))
            && (Unreported(s, id) <==> M.Closes(own) == 0)
            && (s.sessions[id].closing == 0 ==> s.sessions[id].told == M.Closes(own))
            && ((id in s.members <==> Unreported(s, id)) <==> (SomeStops(own) <==> M.Closes(own) > 0))
  {
    AcceptedInRun(decode, EMPTY, es, id);
    M.ToldOncePerClose(decode, M.Step(decode, M.FRESH, M.Start), Project(es, id));
  }

  /** A session that ends by a read error leaves the set unreported, and stays so until a `close`. */
  lemma ReadErrorUnreported(decode: M.Decoder, id: nat, later: seq<Event>)
    ensures var es := [Accepted(id)] + Lift([M.ReadErr("")], id);
            && Possible(decode, EMPTY, es)
            && var t := Run(decode, EMPTY, es);
               && id in t.sessions && id !in t.members && Unreported(t, id)
               && (Possible(decode, t, later) && M.Closes(Project(later, id)) == 0 ==>
                     var u := Run(decode, t, later);
                     id in u.sessions && id !in u.members && Unreported(u, id))
  {
    var s, own := Step(decode, EMPTY, Accepted(id)), [M.ReadErr("")];
    StepKeepsInv(decode, EMPTY, Accepted(id));
    M.OneStep(decode, s.sessions[id], M.ReadErr(""));
    LiftRemoves(decode, s, own, id);
    Prefixed(decode, EMPTY, Accepted(id), Lift(own, id));
    SessionsIndependent(decode, s, Lift(own, id), id);
    var t := Run(decode, s, Lift(own, id));
    if Possible(decode, t, later) {
      SessionsIndependent(decode, t, later, id);
      M.ToldOncePerClose(decode, t.sessions[id], Project(later, id));
    }
  }
}
