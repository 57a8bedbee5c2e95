/**
 What is on the screen against what reopening the chat would show.

 The live path of front/script.js writes bubbles straight to the chat pane; the
 caches are only read when a chat is opened. `Consistent` compares the two as
 multisets of bubbles (sender name, text and the `isMe` flag).
 */
module ChatScreen {
  import opened Common
  import opened StableSort
  import opened ChatModel

  /** What opening the current chat again would display. */
  function Reopened(s: State): seq<Bubble> {
    match s.chat
    case PublicRoom => PublicView(s.publicLog, s.userId)
    case Friend(id) => ConversationView(s.log, s.userId, id)
  }

  ghost predicate Consistent(s: State) {
    multiset(s.screen) == multiset(Reopened(s))
  }

  predicate Opens(e: Event) {
    e.OpenFriend? || e.OpenPublic?
  }

  /**
   Whether a step keeps the screen consistent, decided before the step from the
   current chat and the event alone.
   */
  predicate Faithful(s: State, e: Event) {
    match e
    case Submit(text, _) =>
      Blank(text) || s.chat.PublicRoom? || (s.chat.id != 0 && s.chat.id != s.userId)
    case Text(msg) => (
      match s.chat
      case PublicRoom => msg.fromUserId != 0
      case Friend(id) =>
        if id == s.userId then msg.fromUserId != id && msg.toUserId != id
        else if msg.fromUserId == id then
          msg.toUserId == s.userId && Named(ParsedContent(msg, s.content).username)
        else !(msg.fromUserId == s.userId && msg.toUserId == id)
    )
    case Group(msg) => (
      match s.chat
      case PublicRoom =>
        msg.toUserId == 0 && msg.fromUserId != s.userId && Named(ParsedContent(msg, s.content).username)
      case Friend(id) => msg.toUserId != id
    )
    case OpenFriend(_) => true
    case OpenPublic => true
    case Control => true
  }

  // ---- What one event adds on each side -------------------------------------

  /** The bubbles an event writes to the pane. */
  function LiveShown(s: State, e: Event): (shown: seq<Bubble>)
    ensures |shown| <= 1
  {
    match e
    case Submit(text, _) => if Blank(text) then [] else [Bubble(s.username, Some(text), true)]
    case Text(msg) => if msg.fromUserId == ChatId(s.chat) then [LiveBubble(ParsedContent(msg, s.content))] else []
    case Group(msg) => if msg.toUserId == ChatId(s.chat) then [LiveBubble(ParsedContent(msg, s.content))] else []
    case _ => []
  }

  /** What one more log entry adds to the two collected buckets. */
  function Added(m: Entry, userId: int, friendId: int): seq<Tagged> {
    Collect(Copies(m, userId), friendId, true) + Collect(Copies(m, friendId), userId, false)
  }

  function PrivateGain(s: State, m: Entry): seq<Bubble> {
    if s.chat.Friend? then Map(Added(m, s.userId, s.chat.id), BubbleOf) else []
  }

  function PublicGain(s: State, m: Entry): seq<Bubble> {
    if s.chat.PublicRoom? then [PublicBubble(s.userId)(m)] else []
  }

  /** The bubbles an event adds to the reopened view. */
  function ViewGain(s: State, e: Event): seq<Bubble> {
    match e
    case Submit(text, timestamp) =>
      if Blank(text) then []
      else if ChatId(s.chat) != 0 then PrivateGain(s, SubmittedEntry(s, text, timestamp))
      else PublicGain(s, SubmittedEntry(s, text, timestamp))
    case Text(msg) => PrivateGain(s, EntryOf(msg, ParsedContent(msg, s.content)))
    case Group(msg) => PublicGain(s, EntryOf(msg, ParsedContent(msg, s.content)))
    case _ => []
  }

  lemma MapConcat<T, U>(a: seq<T>, b: seq<T>, f: T -> U)
    ensures Map(a + b, f) == Map(a, f) + Map(b, f)
  {
  }

  lemma {:induction false} MapInsertPermutes<T, U>(s: seq<T>, x: T, key: T -> int, f: T -> U)
    ensures multiset(Map(Insert(s, x, key), f)) == multiset(Map(s, f)) + multiset{f(x)}
  {
    if |s| == 0 || key(s[|s| - 1]) <= key(x) {
      MapAppend(s, x, f);
    } else {
      MapInsertPermutes(s[..|s| - 1], x, key, f);
      MapAppend(Insert(s[..|s| - 1], x, key), s[|s| - 1], f);
    }
  }

  /** Sorting before display does not change which bubbles appear. */
  lemma {:induction false} MapSortPermutes<T, U>(s: seq<T>, key: T -> int, f: T -> U)
    ensures multiset(Map(Sort(s, key), f)) == multiset(Map(s, f))
  {
    if |s| > 0 {
      MapSortPermutes(s[..|s| - 1], key, f);
      MapInsertPermutes(Sort(s[..|s| - 1], key), s[|s| - 1], key, f);
    }
  }

  lemma PrivateViewGrows(log: seq<Entry>, m: Entry, userId: int, friendId: int)
    ensures multiset(ConversationView(log + [m], userId, friendId))
            == multiset(ConversationView(log, userId, friendId)) + multiset(Map(Added(m, userId, friendId), BubbleOf))
  {
    hide Sort, Filed, Map, Collect;
    var a, b := Collect(Filed(log, userId), friendId, true), Collect(Filed(log, friendId), userId, false);
    var c, d := Collect(Copies(m, userId), friendId, true), Collect(Copies(m, friendId), userId, false);
    FiledAppend(log, m, userId);
    FiledAppend(log, m, friendId);
    CollectConcat(Filed(log, userId), Copies(m, userId), friendId, true);
    CollectConcat(Filed(log, friendId), Copies(m, friendId), userId, false);
    MapSortPermutes(Combined(log + [m], userId, friendId), IdKey, BubbleOf);
    MapSortPermutes(Combined(log, userId, friendId), IdKey, BubbleOf);
    MapConcat(a + c, b + d, BubbleOf);
    MapConcat(a, c, BubbleOf);
    MapConcat(b, d, BubbleOf);
    MapConcat(a, b, BubbleOf);
    MapConcat(c, d, BubbleOf);
  }

  lemma PublicViewGrows(publicLog: seq<Entry>, m: Entry, userId: int)
    ensures multiset(PublicView(publicLog + [m], userId))
            == multiset(PublicView(publicLog, userId)) + multiset{PublicBubble(userId)(m)}
  {
    MapSortPermutes(publicLog + [m], TimeKey, PublicBubble(userId));
    MapSortPermutes(publicLog, TimeKey, PublicBubble(userId));
    MapAppend(publicLog, m, PublicBubble(userId));
  }

  lemma Gains(s: State, e: Event)
    requires !Opens(e)
    ensures Next(s, e).screen == s.screen + LiveShown(s, e)
    ensures multiset(Reopened(Next(s, e))) == multiset(Reopened(s)) + multiset(ViewGain(s, e))
  {
    hide Sort, Filed, Map, Collect;
    match e
    case Submit(text, timestamp) =>
      if !Blank(text) {
        LogGrows(s, SubmittedEntry(s, text, timestamp));
      }
    case Text(msg) =>
      LogGrows(s, EntryOf(msg, ParsedContent(msg, s.content)));
    case Group(msg) =>
      LogGrows(s, EntryOf(msg, ParsedContent(msg, s.content)));
    case Control =>
  }

  lemma LogGrows(s: State, m: Entry)
    ensures s.chat.Friend? ==>
              multiset(ConversationView(s.log + [m], s.userId, s.chat.id))
              == multiset(ConversationView(s.log, s.userId, s.chat.id)) + multiset(PrivateGain(s, m))
    ensures s.chat.PublicRoom? ==>
              multiset(PublicView(s.publicLog + [m], s.userId))
              == multiset(PublicView(s.publicLog, s.userId)) + multiset(PublicGain(s, m))
  {
    match s.chat
    case PublicRoom => PublicViewGrows(s.publicLog, m, s.userId);
    case Friend(id) => PrivateViewGrows(s.log, m, s.userId, id);
  }

  lemma AddedIsExchange(m: Entry, userId: int, friendId: int)
    requires userId != friendId
    ensures Added(m, userId, friendId) == ExchangeOf(m, userId, friendId)
  {
    OneMessageOnBothSides(m, userId, friendId);
    WithKeyOne(Tagged(m, true), OwnerKey, 0);
    WithKeyOne(Tagged(m, true), OwnerKey, 1);
    WithKeyOne(Tagged(m, false), OwnerKey, 0);
    WithKeyOne(Tagged(m, false), OwnerKey, 1);
  }

  lemma AddedToSelfChat(m: Entry, userId: int)
    ensures if m.toUserId == userId then |Added(m, userId, userId)| >= 2 else Added(m, userId, userId) == []
  {
    CollectOne(m, userId, true);
    CollectOne(m, userId, false);
    CollectConcat([m], [m], userId, true);
    CollectConcat([m], [m], userId, false);
    assert [m] + [m] == [m, m];
  }

  // ---- One step, exactly ----------------------------------------------------

  lemma PrivateGainShape(s: State, m: Entry)
    requires s.chat.Friend?
    ensures s.chat.id != s.userId && m.fromUserId == s.userId && m.toUserId == s.chat.id ==>
              PrivateGain(s, m) == [Bubble(m.username, m.text, true)]
    ensures s.chat.id != s.userId && m.fromUserId == s.chat.id && m.toUserId == s.userId ==>
              PrivateGain(s, m) == [Bubble(m.username, m.text, false)]
    ensures s.chat.id != s.userId && ExchangeOf(m, s.userId, s.chat.id) == [] ==> PrivateGain(s, m) == []
    ensures s.chat.id == s.userId ==>
              if m.toUserId == s.userId then |PrivateGain(s, m)| >= 2 else PrivateGain(s, m) == []
  {
    if s.chat.id == s.userId {
      AddedToSelfChat(m, s.userId);
    } else {
      AddedIsExchange(m, s.userId, s.chat.id);
      MapAppend([], Tagged(m, true), BubbleOf);
      MapAppend([], Tagged(m, false), BubbleOf);
      assert [] + [Tagged(m, true)] == [Tagged(m, true)] && [] + [Tagged(m, false)] == [Tagged(m, false)];
    }
  }

  lemma SameBubbles(a: seq<Bubble>, b: seq<Bubble>)
    requires |a| <= 1
    ensures multiset(a) == multiset(b) <==> a == b
  {
  }

  lemma SubmitGains(s: State, text: string, timestamp: int)
    ensures LiveShown(s, Submit(text, timestamp)) == ViewGain(s, Submit(text, timestamp))
       <==> Faithful(s, Submit(text, timestamp))
  {
    hide PrivateGain, Added, Map, Collect, ExchangeOf;
    if s.chat.Friend? {
      PrivateGainShape(s, SubmittedEntry(s, text, timestamp));
    }
  }

  lemma TextGains(s: State, msg: Incoming)
    ensures LiveShown(s, Text(msg)) == ViewGain(s, Text(msg)) <==> Faithful(s, Text(msg))
  {
    hide Added, Map, Collect;
    if s.chat.Friend? {
      PrivateGainShape(s, EntryOf(msg, ParsedContent(msg, s.content)));
    }
  }

  lemma GroupGains(s: State, msg: Incoming)
    ensures LiveShown(s, Group(msg)) == ViewGain(s, Group(msg)) <==> Faithful(s, Group(msg))
  {
    hide Added, Map, Collect;
  }

  /** The guard says exactly when both sides gain the same bubbles. */
  lemma FaithfulGains(s: State, e: Event)
    requires !Opens(e)
    ensures LiveShown(s, e) == ViewGain(s, e) <==> Faithful(s, e)
  {
    match e
    case Submit(text, timestamp) =>
      hide LiveShown, ViewGain, Faithful;
      SubmitGains(s, text, timestamp);
    case Text(msg) =>
      hide LiveShown, ViewGain, Faithful;
      TextGains(s, msg);
    case Group(msg) =>
      hide LiveShown, ViewGain, Faithful;
      GroupGains(s, msg);
    case Control =>
  }

  /**
   From a consistent screen, a step leads to a consistent screen exactly when
   the guard holds. Opening a chat always does, whatever was there before.
   */
  lemma StepExact(s: State, e: Event)
    ensures Opens(e) ==> Consistent(Next(s, e))
    ensures Consistent(s) ==> (Consistent(Next(s, e)) <==> Faithful(s, e))
  {
    if !Opens(e) && Consistent(s) {
      hide Next, LiveShown, ViewGain, Faithful, Reopened;
      var shown, gained := LiveShown(s, e), ViewGain(s, e);
      Gains(s, e);
      FaithfulGains(s, e);
      SameBubbles(shown, gained);
      CancelCommon(multiset(s.screen), multiset(shown), multiset(gained));
    }
  }

  lemma CancelCommon(common: multiset<Bubble>, a: multiset<Bubble>, b: multiset<Bubble>)
    ensures common + a == common + b <==> a == b
  {
    assert (common + a) - common == a && (common + b) - common == b;
  }

  // ---- Whole runs -----------------------------------------------------------

  predicate FaithfulRun(s: State, es: seq<Event>)
    decreases |es|
  {
    |es| == 0 || (Faithful(s, es[0]) && FaithfulRun(Next(s, es[0]), es[1..]))
  }

  lemma {:induction false} FaithfulRunConsistent(s: State, es: seq<Event>)
    requires Consistent(s) && FaithfulRun(s, es)
    ensures Consistent(Run(s, es))
    decreases |es|
  {
    if |es| > 0 {
      StepExact(s, es[0]);
      FaithfulRunConsistent(Next(s, es[0]), es[1..]);
    }
  }

  lemma {:induction false} RunConcat(s: State, a: seq<Event>, b: seq<Event>)
    ensures Run(s, a + b) == Run(Run(s, a), b)
    decreases |a|
  {
    if |a| == 0 {
      assert a + b == b;
    } else {
      assert (a + b)[1..] == a[1..] + b;
      RunConcat(Next(s, a[0]), a[1..], b);
    }
  }

  /** Only what happened since a chat was last opened matters. */
  lemma ConsistentSinceOpening(s: State, before: seq<Event>, open: Event, after: seq<Event>)
    requires Opens(open) && FaithfulRun(Next(Run(s, before), open), after)
    ensures Consistent(Run(s, before + ([open] + after)))
  {
    RunConcat(s, before, [open] + after);
    assert ([open] + after)[1..] == after;
    StepExact(Run(s, before), open);
    FaithfulRunConsistent(Next(Run(s, before), open), after);
  }

  // ---- Any run, exactly ------------------------------------------------------

  /** The bubbles that a run shows live after a chat was last opened, on top of `soFar`. */
  function ShownSince(s: State, es: seq<Event>, soFar: multiset<Bubble>): multiset<Bubble>
    decreases |es|
  {
    if |es| == 0 then soFar
    else ShownSince(Next(s, es[0]), es[1..],
                    if Opens(es[0]) then multiset{} else soFar + multiset(LiveShown(s, es[0])))
  }

  /** The bubbles that its messages add to the reopened view. */
  function GainedSince(s: State, es: seq<Event>, soFar: multiset<Bubble>): multiset<Bubble>
    decreases |es|
  {
    if |es| == 0 then soFar
    else GainedSince(Next(s, es[0]), es[1..],
                     if Opens(es[0]) then multiset{} else soFar + multiset(ViewGain(s, es[0])))
  }

  /** The screen and what was gained balance the view and what was shown. */
  ghost predicate Balanced(s: State, shown: multiset<Bubble>, gained: multiset<Bubble>) {
    multiset(s.screen) + gained == multiset(Reopened(s)) + shown
  }

  lemma BalancedStep(s: State, e: Event, shown: multiset<Bubble>, gained: multiset<Bubble>)
    requires Balanced(s, shown, gained)
    ensures Opens(e) ==> Balanced(Next(s, e), multiset{}, multiset{})
    ensures !Opens(e) ==>
              Balanced(Next(s, e), shown + multiset(LiveShown(s, e)), gained + multiset(ViewGain(s, e)))
  {
    hide Reopened, LiveShown, ViewGain, Next;
    if Opens(e) {
      StepExact(s, e);
    } else {
      Gains(s, e);
      AddToBoth(multiset(s.screen), gained, multiset(Reopened(s)), shown,
                multiset(LiveShown(s, e)), multiset(ViewGain(s, e)));
    }
  }

  lemma AddToBoth(a: multiset<Bubble>, b: multiset<Bubble>, c: multiset<Bubble>, d: multiset<Bubble>,
                  x: multiset<Bubble>, y: multiset<Bubble>)
    requires a + b == c + d
    ensures (a + x) + (b + y) == (c + y) + (d + x)
  {
    assert (a + x) + (b + y) == (a + b) + (x + y) && (c + y) + (d + x) == (c + d) + (x + y);
  }

  lemma EqualExactly(a: multiset<Bubble>, b: multiset<Bubble>, c: multiset<Bubble>, d: multiset<Bubble>)
    requires a + b == c + d
    ensures a == c <==> b == d
  {
    CancelCommon(a, b, d);
    CancelCommon(b, a, c);
    assert a + b == b + a && c + d == d + c;
  }

  lemma {:induction false} BalancedRun(s: State, es: seq<Event>, shown: multiset<Bubble>, gained: multiset<Bubble>)
    requires Balanced(s, shown, gained)
    ensures Balanced(Run(s, es), ShownSince(s, es, shown), GainedSince(s, es, gained))
    decreases |es|
  {
    hide Balanced, LiveShown, ViewGain, Next, Opens;
    if |es| > 0 {
      var e := es[0];
      BalancedStep(s, e, shown, gained);
      if Opens(e) {
        BalancedRun(Next(s, e), es[1..], multiset{}, multiset{});
      } else {
        BalancedRun(Next(s, e), es[1..], shown + multiset(LiveShown(s, e)), gained + multiset(ViewGain(s, e)));
      }
    }
  }

  /**
   With any traffic: the screen is consistent after a run exactly when, since the
   chat was opened, as many equal bubbles were shown live as the messages add to
   the view. Nothing needs to be sorted or looked up to decide that.
   */
  lemma RunExact(s: State, es: seq<Event>)
    requires Consistent(s)
    ensures Consistent(Run(s, es)) <==> ShownSince(s, es, multiset{}) == GainedSince(s, es, multiset{})
  {
    hide Reopened, ShownSince, GainedSince, Run;
    BalancedRun(s, es, multiset{}, multiset{});
    var t, shown, gained := Run(s, es), ShownSince(s, es, multiset{}), GainedSince(s, es, multiset{});
    EqualExactly(multiset(t.screen), gained, multiset(Reopened(t)), shown);
  }

  // ---- Runs with well-routed traffic, exactly --------------------------------

  predicate ProperChat(chat: Chat, userId: int) {
    chat.Friend? ==> chat.id != 0 && chat.id != userId
  }

  /** Private messages come from others to the user, group messages from others to the room. */
  predicate Routed(userId: int, e: Event) {
    match e
    case Text(msg) => msg.toUserId == userId && msg.fromUserId != userId && msg.fromUserId != 0
    case Group(msg) => msg.toUserId == 0 && msg.fromUserId != userId
    case OpenFriend(id) => id != 0 && id != userId
    case _ => true
  }

  /** A live message whose sender name is missing or empty. */
  predicate Slip(s: State, e: Event) {
    || (e.Text? && e.msg.fromUserId == ChatId(s.chat) && !Named(ParsedContent(e.msg, s.content).username))
    || (e.Group? && e.msg.toUserId == ChatId(s.chat) && !Named(ParsedContent(e.msg, s.content).username))
  }

  /** How many such messages were shown since the last chat was opened. */
  function Slips(s: State, es: seq<Event>, soFar: nat): nat
    decreases |es|
  {
    if |es| == 0 then soFar
    else Slips(Next(s, es[0]), es[1..],
               if Opens(es[0]) then 0 else if Slip(s, es[0]) then soFar + 1 else soFar)
  }

  /** 1 for a received bubble without a sender name, else 0. */
  function NamelessKey(b: Bubble): int {
    if !b.isMe && !Named(b.username) then 1 else 0
  }

  function Nameless(bs: seq<Bubble>): nat {
    |WithKey(bs, NamelessKey, 1)|
  }

  lemma NamelessConcat(a: seq<Bubble>, b: seq<Bubble>)
    ensures Nameless(a + b) == Nameless(a) + Nameless(b)
  {
    WithKeyConcat(a, b, NamelessKey, 1);
  }

  lemma WithoutOne(b: seq<Bubble>, i: nat)
    requires i < |b|
    ensures multiset(b) == multiset{b[i]} + multiset(b[..i] + b[i + 1..])
    ensures Nameless(b) == Nameless(b[..i] + b[i + 1..]) + Nameless([b[i]])
  {
    hide Nameless;
    var before, x, after := b[..i], b[i], b[i + 1..];
    assert b == before + ([x] + after);
    NamelessConcat(before, [x] + after);
    NamelessConcat([x], after);
    NamelessConcat(before, after);
  }

  /** The count depends on which bubbles there are, not on their order. */
  lemma {:induction false} NamelessPermutes(a: seq<Bubble>, b: seq<Bubble>)
    requires multiset(a) == multiset(b)
    ensures Nameless(a) == Nameless(b)
    decreases |a|
  {
    hide Nameless;
    if |a| == 0 {
      assert |multiset(b)| == |b|;
      assert a == b;
    } else {
      assert a[0] in multiset(b);
      var i :| 0 <= i < |b| && b[i] == a[0];
      var a', b' := a[..0] + a[1..], b[..i] + b[i + 1..];
      WithoutOne(a, 0);
      WithoutOne(b, i);
      CancelCommon(multiset{a[0]}, multiset(a'), multiset(b'));
      NamelessPermutes(a', b');
    }
  }

  /** A slip shows a made-up name while the cache keeps the missing one. */
  lemma SlipShapes(s: State, e: Event)
    requires Slip(s, e) && Routed(s.userId, e) && ProperChat(s.chat, s.userId)
    ensures var content := ParsedContent(e.msg, s.content);
            && LiveShown(s, e) == [LiveBubble(content)]
            && ViewGain(s, e) == [Bubble(content.username, content.text, false)]
  {
    hide Added, Map;
    if e.Text? {
      PrivateGainShape(s, EntryOf(e.msg, ParsedContent(e.msg, s.content)));
    }
  }

  lemma FaithfulUnlessSlip(s: State, e: Event)
    requires !Opens(e) && Routed(s.userId, e) && ProperChat(s.chat, s.userId)
    ensures Faithful(s, e) <==> !Slip(s, e)
  {
  }

  lemma NamelessGrows(s: State, e: Event)
    requires !Opens(e) && Routed(s.userId, e) && ProperChat(s.chat, s.userId)
    ensures Nameless(ViewGain(s, e)) == Nameless(LiveShown(s, e)) + if Slip(s, e) then 1 else 0
  {
    FaithfulUnlessSlip(s, e);
    FaithfulGains(s, e);
    if Slip(s, e) {
      hide ViewGain, LiveShown;
      SlipShapes(s, e);
      WithKeyOne(LiveShown(s, e)[0], NamelessKey, 1);
      WithKeyOne(ViewGain(s, e)[0], NamelessKey, 1);
    }
  }

  /** With `soFar` nameless messages, the view has that many nameless bubbles more than the screen. */
  ghost predicate Behind(s: State, soFar: nat) {
    Nameless(Reopened(s)) == Nameless(s.screen) + soFar && (soFar == 0 ==> Consistent(s))
  }

  lemma BehindStep(s: State, e: Event, soFar: nat)
    requires Behind(s, soFar) && Routed(s.userId, e) && ProperChat(s.chat, s.userId)
    ensures Behind(Next(s, e), if Opens(e) then 0 else if Slip(s, e) then soFar + 1 else soFar)
  {
    StepExact(s, e);
    if !Opens(e) {
      Gains(s, e);
      NamelessGrows(s, e);
      NamelessPermutes(Reopened(Next(s, e)), Reopened(s) + ViewGain(s, e));
      NamelessConcat(Reopened(s), ViewGain(s, e));
      NamelessConcat(s.screen, LiveShown(s, e));
    }
  }

  lemma {:induction false} BehindRun(s: State, es: seq<Event>, soFar: nat)
    requires Behind(s, soFar) && ProperChat(s.chat, s.userId)
    requires forall i :: 0 <= i < |es| ==> Routed(s.userId, es[i])
    ensures Behind(Run(s, es), Slips(s, es, soFar))
    decreases |es|
  {
    if |es| > 0 {
      assert Routed(s.userId, es[0]);
      BehindStep(s, es[0], soFar);
      forall i | 0 <= i < |es[1..]| ensures Routed(s.userId, es[1..][i]) {
        assert es[1..][i] == es[i + 1];
      }
      BehindRun(Next(s, es[0]), es[1..], if Opens(es[0]) then 0 else if Slip(s, es[0]) then soFar + 1 else soFar);
    }
  }

  /**
   With well-routed traffic the screen is consistent exactly when no message
   without a sender name was shown live since the chat was opened.
   */
  lemma RoutedRunExact(s: State, es: seq<Event>)
    requires Consistent(s) && ProperChat(s.chat, s.userId)
    requires forall i :: 0 <= i < |es| ==> Routed(s.userId, es[i])
    ensures Consistent(Run(s, es)) <==> Slips(s, es, 0) == 0
  {
    NamelessPermutes(s.screen, Reopened(s));
    BehindRun(s, es, 0);
    if Consistent(Run(s, es)) {
      NamelessPermutes(Run(s, es).screen, Reopened(Run(s, es)));
    }
  }

  /** A sender without a name is enough to break the law: a concrete run. */
  lemma NamelessSenderBreaksScreen(s: State, text: string)
    requires Consistent(s) && s.chat == PublicRoom && s.userId != 7
    ensures var msg := Incoming(7, 0, 1, 0, Some(Content(None, Some(text))));
            Routed(s.userId, Group(msg)) && !Consistent(Run(s, [Group(msg)]))
  {
    var msg := Incoming(7, 0, 1, 0, Some(Content(None, Some(text))));
    StepExact(s, Group(msg));
    assert [Group(msg)][1..] == [];
    assert Run(Next(s, Group(msg)), []) == Next(s, Group(msg));
  }
}
