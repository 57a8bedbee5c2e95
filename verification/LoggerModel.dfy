/**
 The asynchronous logger of inc/Log.h: producers push entries under a mutex, one
 consumer thread pops and prints them, giving up the mutex while it prints.

 An event is one atomic action of a producer, of `stop`, or of the consumer's
 loop; any enabled event may come next. Waking up late or spuriously makes no
 difference here, since the wait only ends when its condition holds.
 */
module LoggerModel {
  import opened Common

  datatype Level = DEBUG | INFO | WARNING | ERROR

  function Rank(l: Level): nat {
    match l
    case DEBUG => 0
    case INFO => 1
    case WARNING => 2
    case ERROR => 3
  }

  datatype Entry = Entry(level: Level, message: string)

  /** Where the consumer is in `processEntries`. */
  datatype Phase =
    | OuterCheck  // at `while (running)`
    | Waiting     // in cv.wait
    | Holding     // at the inner `while`, with the mutex
    | Printing    // printing, without the mutex
    | Relocking   // printed, about to take the mutex again
    | Exited

  datatype State = State(
    queue: seq<Entry>,
    running: bool,
    logLevel: Level,
    phase: Phase,
    inHand: Option<Entry>,
    accepted: seq<Entry>,  // every entry pushed
    printed: seq<Entry>,   // every entry printed
    emptySeen: nat)        // how many entries were accepted when the consumer last found the queue empty

  const FRESH := State([], true, DEBUG, OuterCheck, None, [], [], 0)

  datatype Event = Log(entry: Entry) | SetLevel(level: Level) | StopAsked | Consume

  predicate Ignored(s: State, entry: Entry) {
    Rank(entry.level) < Rank(s.logLevel)
  }

  predicate ConsumerReady(s: State) {
    match s.phase
    case Waiting => s.queue != [] || !s.running
    case Exited => false
    case _ => true
  }

  predicate Enabled(s: State, e: Event) {
    match e
    case Log(entry) => Ignored(s, entry) || s.phase != Holding
    case SetLevel(_) => true
    case StopAsked => true
    case Consume => ConsumerReady(s)
  }

  /** One action of the consumer thread. */
  function ConsumerStep(s: State): State
    requires ConsumerReady(s)
  {
    match s.phase
    case OuterCheck => s.(phase := if s.running then Waiting else Exited)
    case Waiting => s.(phase := Holding)
    case Holding =>
      if s.queue == [] then s.(phase := OuterCheck, emptySeen := |s.accepted|)
      else s.(queue := s.queue[1..], inHand := Some(s.queue[0]), phase := Printing)
    case Printing => s.(printed := s.printed + InHand(s), inHand := None, phase := Relocking)
    case Relocking => s.(phase := Holding)
  }

  function InHand(s: State): seq<Entry> {
    if s.inHand.Some? then [s.inHand.value] else []
  }

  function Step(s: State, e: Event): State
    requires Enabled(s, e)
  {
    match e
    case Log(entry) =>
      if Ignored(s, entry) then s else s.(queue := s.queue + [entry], accepted := s.accepted + [entry])
    case SetLevel(l) => s.(logLevel := l)
    case StopAsked => s.(running := false)
    case Consume => ConsumerStep(s)
  }

  predicate Possible(s: State, es: seq<Event>)
    decreases |es|
  {
    |es| == 0 || (Enabled(s, es[0]) && Possible(Step(s, es[0]), es[1..]))
  }

  function Run(s: State, es: seq<Event>): State
    requires Possible(s, es)
    decreases |es|
  {
    if |es| == 0 then s else Run(Step(s, es[0]), es[1..])
  }

  /** DEBUG, INFO, WARNING, ERROR, from the lowest to the highest. */
  predicate LowerLevel(l: Level, threshold: Level) {
    match threshold
    case DEBUG => false
    case INFO => l == DEBUG
    case WARNING => l == DEBUG || l == INFO
    case ERROR => l != ERROR
  }

  /** An entry is accepted exactly if its level is not below the threshold, and then goes to the end of the queue. */
  lemma LogExact(s: State, entry: Entry)
    requires Enabled(s, Log(entry))
    ensures var t := Step(s, Log(entry));
            if LowerLevel(entry.level, s.logLevel) then t == s
            else t == s.(queue := s.queue + [entry], accepted := s.accepted + [entry])
  {
  }

  // ---- Conservation ---------------------------------------------------------------

  ghost predicate Conserved(s: State) {
    s.accepted == s.printed + InHand(s) + s.queue
  }

  /** Between two looks at an empty queue the consumer is inside its inner loop. */
  ghost predicate Phased(s: State) {
    && (s.inHand.Some? <==> s.phase == Printing)
    && s.emptySeen <= |s.printed|
    && (s.phase == OuterCheck || s.phase == Waiting || s.phase == Exited ==> |s.printed| == s.emptySeen)
    && (s.phase == Exited ==> !s.running)
  }

  ghost predicate Inv(s: State) {
    Conserved(s) && Phased(s)
  }

  lemma StepKeepsInv(s: State, e: Event)
    requires Inv(s) && Enabled(s, e)
    ensures Inv(Step(s, e))
  {
  }

  lemma {:induction false} RunKeepsInv(s: State, es: seq<Event>)
    requires Inv(s) && Possible(s, es)
    ensures Inv(Run(s, es))
    decreases |es|
  {
    if |es| > 0 {
      StepKeepsInv(s, es[0]);
      RunKeepsInv(Step(s, es[0]), es[1..]);
    }
  }

  /** Over every interleaving: accepted entries are printed, in hand, or queued, in this order. */
  lemma EveryRunConserves(es: seq<Event>)
    requires Possible(FRESH, es)
    ensures var s := Run(FRESH, es);
            s.accepted == s.printed + InHand(s) + s.queue && s.printed <= s.accepted
  {
    RunKeepsInv(FRESH, es);
    var s := Run(FRESH, es);
    assert s.printed + InHand(s) + s.queue == s.printed + (InHand(s) + s.queue);
  }

  /** What is printed stays printed, and what is accepted stays accepted. */
  lemma {:induction false} HistoriesGrow(s: State, es: seq<Event>)
    requires Possible(s, es)
    ensures var t := Run(s, es);
            && s.printed <= t.printed && s.accepted <= t.accepted
            && (s.phase == Exited ==> t.phase == Exited && t.printed == s.printed)
    decreases |es|
  {
    if |es| > 0 {
      HistoriesGrow(Step(s, es[0]), es[1..]);
    }
  }

  // ---- What is lost at exit ----------------------------------------------------------

  /**
   When the consumer has exited, exactly the entries pushed after it last found
   the queue empty are unprinted, and they stay so whatever follows; so nothing
   is lost exactly when none was pushed since.
   */
  lemma ExitLosesExactly(s: State, later: seq<Event>)
    requires Inv(s) && s.phase == Exited && Possible(s, later)
    ensures s.emptySeen <= |s.accepted|
    ensures s.printed == s.accepted[..s.emptySeen] && s.queue == s.accepted[s.emptySeen..]
    ensures Run(s, later).printed == s.printed
    ensures s.printed == s.accepted <==> s.emptySeen == |s.accepted|
  {
    HistoriesGrow(s, later);
    assert s.accepted == s.printed + s.queue;
  }

  /** At `while (running)` after `stop`, the consumer prints nothing more. */
  lemma {:induction false} NothingPrintedAfterCheck(s: State, es: seq<Event>)
    requires !s.running && (s.phase == OuterCheck || s.phase == Exited) && Possible(s, es)
    ensures Run(s, es).printed == s.printed
    decreases |es|
  {
    if |es| > 0 {
      NothingPrintedAfterCheck(Step(s, es[0]), es[1..]);
    }
  }

  /** Past that check, the consumer prints all that is accepted by now before it can exit. */
  lemma {:induction false} PrintedBeforeExit(s: State, es: seq<Event>)
    requires Inv(s) && s.phase != OuterCheck && s.phase != Exited
    requires Possible(s, es) && Run(s, es).phase == Exited
    ensures s.accepted <= Run(s, es).printed
    decreases |es|
  {
    var s' := Step(s, es[0]);
    StepKeepsInv(s, es[0]);
    if s'.phase == OuterCheck {
      HistoriesGrow(s', es[1..]);
    } else {
      PrintedBeforeExit(s', es[1..]);
    }
  }

  /**
   Once `stop` has cleared the flag, what is accepted by then is printed before
   the consumer exits, whatever happens in between, unless the consumer is at
   `while (running)` with a nonempty queue; then the whole queue is lost.
   */
  lemma StopLosesExactly(s: State, es: seq<Event>)
    requires Inv(s) && !s.running && s.phase != Exited
    requires Possible(s, es) && Run(s, es).phase == Exited
    ensures s.accepted <= Run(s, es).printed <==> !(s.phase == OuterCheck && s.queue != [])
    ensures s.phase == OuterCheck ==> s.accepted == Run(s, es).printed + s.queue
  {
    if s.phase == OuterCheck {
      NothingPrintedAfterCheck(s, es);
    } else {
      PrintedBeforeExit(s, es);
    }
  }

  /** An entry accepted before `stop` can be lost: the consumer had not yet entered its loop. */
  lemma LoggedBeforeStopCanBeLost(entry: Entry)
    ensures var es := [Log(entry), StopAsked, Consume];
            Possible(FRESH, es) && Run(FRESH, es).phase == Exited
            && Run(FRESH, es).accepted == [entry] && Run(FRESH, es).printed == []
  {
    var es := [Log(entry), StopAsked, Consume];
    assert es[1..] == [StopAsked, Consume] && es[1..][1..] == [Consume] && es[1..][1..][1..] == [];
    var s1 := Step(FRESH, Log(entry));
    var s2 := Step(s1, StopAsked);
    var s3 := Step(s2, Consume);
    assert Possible(s3, []) && Run(s3, []) == s3;
    assert Possible(s2, [Consume]) && Run(s2, [Consume]) == s3;
    assert Possible(s1, [StopAsked, Consume]) && Run(s1, [StopAsked, Consume]) == s3;
  }

  // ---- The consumer catches up ---------------------------------------------------------

  function Consumes(n: nat): seq<Event> {
    if n == 0 then [] else [Consume] + Consumes(n - 1)
  }

  lemma OneConsume(s: State, n: nat)
    requires ConsumerReady(s)
    ensures Possible(s, Consumes(n + 1)) <==> Possible(ConsumerStep(s), Consumes(n))
    ensures Possible(s, Consumes(n + 1)) ==> Run(s, Consumes(n + 1)) == Run(ConsumerStep(s), Consumes(n))
  {
  }

  /** One round of the inner loop: take the front entry, print it, lock again. */
  function AfterRound(s: State): State
    requires s.phase == Holding && s.queue != []
  {
    ConsumerStep(ConsumerStep(ConsumerStep(s)))
  }

  lemma OneRound(s: State, n: nat)
    requires Inv(s) && s.phase == Holding && s.queue != []
    ensures var t := AfterRound(s);
            && Inv(t) && t.phase == Holding && t.accepted == s.accepted && |t.queue| == |s.queue| - 1
            && t.running == s.running
    ensures Possible(s, Consumes(n + 3)) <==> Possible(AfterRound(s), Consumes(n))
    ensures Possible(s, Consumes(n + 3)) ==> Run(s, Consumes(n + 3)) == Run(AfterRound(s), Consumes(n))
  {
    hide Inv, Possible, Run, Consumes;
    var s1 := ConsumerStep(s);
    var s2 := ConsumerStep(s1);
    StepKeepsInv(s, Consume);
    StepKeepsInv(s1, Consume);
    StepKeepsInv(s2, Consume);
    OneConsume(s, n + 2);
    OneConsume(s1, n + 1);
    OneConsume(s2, n);
  }

  /** Left alone at its inner loop, the consumer prints everything accepted, three actions per entry. */
  lemma {:induction false} ConsumerCatchesUp(s: State)
    requires Inv(s) && s.phase == Holding
    ensures Possible(s, Consumes(3 * |s.queue| + 1))
    ensures var t := Run(s, Consumes(3 * |s.queue| + 1));
            && t.phase == OuterCheck && t.queue == [] && t.accepted == s.accepted && t.printed == s.accepted
            && t.running == s.running
    decreases |s.queue|
  {
    if s.queue == [] {
      OneConsume(s, 0);
      assert Consumes(0) == [];
    } else {
      hide Inv, Possible, Run, Consumes;
      OneRound(s, 3 * (|s.queue| - 1) + 1);
      ConsumerCatchesUp(AfterRound(s));
    }
  }

  // ---- The consumer ends after `stop` ----------------------------------------------------

  /** `n` actions of the consumer take it to its exit. */
  predicate ExitsAfter(s: State, n: nat) {
    Possible(s, Consumes(n)) && Run(s, Consumes(n)).phase == Exited
  }

  lemma ExitsOneLater(s: State, n: nat)
    requires ConsumerReady(s) && ExitsAfter(ConsumerStep(s), n)
    ensures ExitsAfter(s, n + 1)
  {
    OneConsume(s, n);
  }

  lemma {:induction false} ExitsWhenEmptied(s: State)
    requires Inv(s) && !s.running && s.phase == Holding
    ensures ExitsAfter(s, 3 * |s.queue| + 2)
    decreases |s.queue|
  {
    hide ExitsAfter;
    var s1 := ConsumerStep(s);
    StepKeepsInv(s, Consume);
    if s.queue == [] {
      ExitsFromCheck(s1);
      ExitsOneLater(s, 1);
    } else {
      var s2 := ConsumerStep(s1);
      var s3 := ConsumerStep(s2);
      StepKeepsInv(s1, Consume);
      StepKeepsInv(s2, Consume);
      ExitsWhenEmptied(s3);
      ExitsOneLater(s2, 3 * |s.queue| - 1);
      ExitsOneLater(s1, 3 * |s.queue|);
      ExitsOneLater(s, 3 * |s.queue| + 1);
    }
  }

  lemma ExitsFromCheck(s: State)
    requires s.phase == OuterCheck && !s.running
    ensures ExitsAfter(s, 1)
  {
    OneConsume(s, 0);
    assert Consumes(0) == [];
  }

  /** How many more actions the consumer takes once `stop` has cleared the flag. */
  function ActionsToExit(s: State): nat {
    match s.phase
    case Exited => 0
    case OuterCheck => 1
    case Waiting => 3 * |s.queue| + 3
    case Holding => 3 * |s.queue| + 2
    case Printing => 3 * |s.queue| + 4
    case Relocking => 3 * |s.queue| + 3
  }

  /** After `stop`, the consumer left alone is never stuck, also not in its wait, and exits after that many actions. */
  lemma StopEndsConsumer(s: State)
    requires Inv(s) && !s.running
    ensures ExitsAfter(s, ActionsToExit(s))
  {
    match s.phase
    case Exited =>
      assert Consumes(0) == [];
    case OuterCheck =>
      ExitsFromCheck(s);
    case Holding =>
      ExitsWhenEmptied(s);
    case Waiting =>
      hide ExitsAfter;
      StepKeepsInv(s, Consume);
      ExitsWhenEmptied(ConsumerStep(s));
      ExitsOneLater(s, 3 * |s.queue| + 2);
    case Relocking =>
      hide ExitsAfter;
      StepKeepsInv(s, Consume);
      ExitsWhenEmptied(ConsumerStep(s));
      ExitsOneLater(s, 3 * |s.queue| + 2);
    case Printing =>
      hide ExitsAfter;
      var s1 := ConsumerStep(s);
      StepKeepsInv(s, Consume);
      StepKeepsInv(s1, Consume);
      ExitsWhenEmptied(ConsumerStep(s1));
      ExitsOneLater(s1, 3 * |s.queue| + 2);
      ExitsOneLater(s, 3 * |s.queue| + 3);
  }

  // ---- Levels by name -------------------------------------------------------------------

  function LowerChar(c: char): char {
    if 'A' <= c <= 'Z' then c - 'A' + 'a' else c
  }

  function Lower(s: string): (lower: string)
    ensures |lower| == |s| && forall i :: 0 <= i < |s| ==> lower[i] == LowerChar(s[i])
  {
    if |s| == 0 then "" else Lower(s[..|s| - 1]) + [LowerChar(s[|s| - 1])]
  }

  /** `setLogLevel`: any case; an unknown name means DEBUG. */
  function ParseLevel(name: string): Level {
    var lower := Lower(name);
    if lower == "debug" then DEBUG
    else if lower == "info" then INFO
    else if lower == "warning" then WARNING
    else if lower == "error" then ERROR
    else DEBUG
  }

  predicate SameLetter(a: char, b: char) {
    a == b || ('A' <= a <= 'Z' && b == a - 'A' + 'a') || ('A' <= b <= 'Z' && a == b - 'A' + 'a')
  }

  /** The same text but for the case of letters. */
  predicate SameIgnoringCase(a: string, b: string) {
    |a| == |b| && forall i :: 0 <= i < |a| ==> SameLetter(a[i], b[i])
  }

  lemma LowerExact(a: string, b: string)
    ensures Lower(a) == Lower(b) <==> SameIgnoringCase(a, b)
  {
    assert forall i :: 0 <= i < |a| && i < |b| ==> (Lower(a)[i] == Lower(b)[i] <==> SameLetter(a[i], b[i]));
  }

  /** A name of a level sets that level whatever its case; DEBUG is also the level of every other name. */
  lemma ParseLevelExact(name: string)
    ensures ParseLevel(name) == INFO <==> SameIgnoringCase(name, "info")
    ensures ParseLevel(name) == WARNING <==> SameIgnoringCase(name, "warning")
    ensures ParseLevel(name) == ERROR <==> SameIgnoringCase(name, "error")
    ensures ParseLevel(name) == DEBUG <==>
            SameIgnoringCase(name, "debug")
            || forall known :: known in ["debug", "info", "warning", "error"] ==> !SameIgnoringCase(name, known)
  {
    hide Lower, SameIgnoringCase;
    forall known | known in ["debug", "info", "warning", "error"]
      ensures Lower(name) == known <==> SameIgnoringCase(name, known)
    {
      KnownNamesAreLower();
      LowerExact(name, known);
    }
  }

  lemma KnownNamesAreLower()
    ensures Lower("debug") == "debug" && Lower("info") == "info"
    ensures Lower("warning") == "warning" && Lower("error") == "error"
  {
  }
}
