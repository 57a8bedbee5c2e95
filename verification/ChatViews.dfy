/**
 What the chat pane shows, said of messages, their ids and their time stamps
 alone: the room in order of time, a conversation in order of id, own messages
 first among equal ids, and which submitted texts count as blank.
 */
module ChatViews {
  import opened Common
  import opened StableSort
  import opened ChatModel

  /** One bubble per entry: its name, its text, and whether the user sent it. */
  ghost predicate Shows(screen: seq<Bubble>, entries: seq<Entry>, userId: int) {
    && |screen| == |entries|
    && forall i :: 0 <= i < |entries| ==>
         && screen[i].username == entries[i].username && screen[i].text == entries[i].text
         && (screen[i].isMe <==> entries[i].fromUserId == userId)
  }

  /** The name shown for a live message: that of the sender unless it is missing or empty. */
  ghost predicate IsLiveName(shown: Option<string>, username: Option<string>) {
    if username == None || username == Some("") then shown == Some("\U{672A}\U{77E5}") else shown == username
  }

  // ---- The room ---------------------------------------------------------------

  /** The entries with time stamp `t`, in order. */
  function StampedAt(log: seq<Entry>, t: int): seq<Entry> {
    if |log| == 0 then [] else
      var m := log[|log| - 1];
      StampedAt(log[..|log| - 1], t) + if m.timestamp == t then [m] else []
  }

  /** The log from the earliest to the latest; entries of the same time stay in log order. */
  ghost predicate InTimeOrder(entries: seq<Entry>, log: seq<Entry>) {
    && (forall i, j :: 0 <= i < j < |entries| ==> entries[i].timestamp <= entries[j].timestamp)
    && forall t :: StampedAt(entries, t) == StampedAt(log, t)
  }

  ghost predicate IsRoom(screen: seq<Bubble>, log: seq<Entry>, userId: int) {
    exists entries :: InTimeOrder(entries, log) && Shows(screen, entries, userId)
  }

  lemma {:induction false} StampedIsWithKey(log: seq<Entry>, t: int)
    ensures StampedAt(log, t) == WithKey(log, TimeKey, t)
  {
    if |log| > 0 {
      StampedIsWithKey(log[..|log| - 1], t);
    }
  }

  lemma SameTimes(a: seq<Entry>, b: seq<Entry>)
    requires SameOrder(a, b, TimeKey)
    ensures forall t :: StampedAt(a, t) == StampedAt(b, t)
  {
    forall t ensures StampedAt(a, t) == StampedAt(b, t) {
      StampedIsWithKey(a, t);
      StampedIsWithKey(b, t);
      SameOrderAt(a, b, TimeKey, t);
    }
  }

  lemma SameOrderOfTimes(a: seq<Entry>, b: seq<Entry>)
    requires forall t :: StampedAt(a, t) == StampedAt(b, t)
    ensures SameOrder(a, b, TimeKey)
  {
    forall t ensures WithKey(a, TimeKey, t) == WithKey(b, TimeKey, t) {
      assert StampedAt(a, t) == StampedAt(b, t);
      StampedIsWithKey(a, t);
      StampedIsWithKey(b, t);
    }
  }

  lemma TimesSortedExact(entries: seq<Entry>)
    ensures SortedBy(entries, TimeKey)
       <==> forall i, j :: 0 <= i < j < |entries| ==> entries[i].timestamp <= entries[j].timestamp
  {
    forall i | 0 <= i < |entries| ensures TimeKey(entries[i]) == entries[i].timestamp {
    }
  }

  /** Sorting by the key is ordering by time. */
  lemma TimeOrderExact(entries: seq<Entry>, log: seq<Entry>)
    ensures InTimeOrder(entries, log) <==> entries == Sort(log, TimeKey)
  {
    SortExact(entries, log, TimeKey);
    TimesSortedExact(entries);
    if InTimeOrder(entries, log) {
      SameOrderOfTimes(entries, log);
    }
    if entries == Sort(log, TimeKey) {
      SameTimes(entries, log);
    }
  }

  lemma ShowsExact(screen: seq<Bubble>, entries: seq<Entry>, userId: int)
    ensures Shows(screen, entries, userId) <==> screen == Map(entries, PublicBubble(userId))
  {
  }

  /** What the room shows is the log in order of time, and nothing else is. */
  lemma PublicViewExact(screen: seq<Bubble>, log: seq<Entry>, userId: int)
    ensures screen == PublicView(log, userId) <==> IsRoom(screen, log, userId)
  {
    hide InTimeOrder, Shows, Sort, Map;
    var sorted := Sort(log, TimeKey);
    TimeOrderExact(sorted, log);
    ShowsExact(screen, sorted, userId);
    forall entries | InTimeOrder(entries, log) && Shows(screen, entries, userId) ensures entries == sorted {
      TimeOrderExact(entries, log);
    }
  }

  /** After any pushes and displays, the next display puts all arrivals in order of time. */
  lemma DisplayedInTimeOrder(ops: seq<CacheOp>)
    ensures InTimeOrder(Cache(ops + [Display]), Arrivals(ops))
  {
    DisplaySortsAllArrivals(ops);
    assert (ops + [Display])[..|ops|] == ops;
    TimeOrderExact(Sort(Cache(ops), TimeKey), Arrivals(ops));
  }

  // ---- A conversation -----------------------------------------------------------

  /** The entries with message id `id`, in order. */
  function WithId(entries: seq<Entry>, id: int): seq<Entry> {
    if |entries| == 0 then [] else
      var m := entries[|entries| - 1];
      WithId(entries[..|entries| - 1], id) + if m.messageId == id then [m] else []
  }

  /** The messages from `a` to `b` with message id `id`, in order. */
  function SentWithId(log: seq<Entry>, a: int, b: int, id: int): seq<Entry> {
    if |log| == 0 then [] else
      var m := log[|log| - 1];
      SentWithId(log[..|log| - 1], a, b, id)
      + if m.fromUserId == a && m.toUserId == b && m.messageId == id then [m] else []
  }

  /** What the two sent each other, by id, own messages first among equal ids, otherwise in log order. */
  ghost predicate InIdOrder(entries: seq<Entry>, log: seq<Entry>, userId: int, friendId: int) {
    && (forall i, j :: 0 <= i < j < |entries| ==> entries[i].messageId <= entries[j].messageId)
    && forall id :: WithId(entries, id) == SentWithId(log, userId, friendId, id) + SentWithId(log, friendId, userId, id)
  }

  ghost predicate IsConversation(screen: seq<Bubble>, log: seq<Entry>, userId: int, friendId: int) {
    exists entries :: InIdOrder(entries, log, userId, friendId) && Shows(screen, entries, userId)
  }

  function EntryIn(t: Tagged): Entry { t.entry }

  lemma {:induction false} WithIdOfTagged(ts: seq<Tagged>, id: int)
    ensures WithId(Map(ts, EntryIn), id) == Map(WithKey(ts, IdKey, id), EntryIn)
  {
    if |ts| > 0 {
      var ts', t := ts[..|ts| - 1], ts[|ts| - 1];
      WithIdOfTagged(ts', id);
      assert Map(ts, EntryIn)[..|ts'|] == Map(ts', EntryIn);
      MapAppend(WithKey(ts', IdKey, id), t, EntryIn);
    }
  }

  /** One side of the conversation with one id, in the tagged reference and in the log. */
  lemma {:induction false} SideOfExchange(log: seq<Entry>, userId: int, friendId: int, id: int, own: bool)
    requires userId != friendId
    ensures Map(WithKey(Exchange(log, userId, friendId), OrderKey, 2 * id + if own then 0 else 1), EntryIn)
            == if own then SentWithId(log, userId, friendId, id) else SentWithId(log, friendId, userId, id)
  {
    if |log| > 0 {
      var log', m := log[..|log| - 1], log[|log| - 1];
      var k := 2 * id + if own then 0 else 1;
      SideOfExchange(log', userId, friendId, id, own);
      WithKeyConcat(Exchange(log', userId, friendId), ExchangeOf(m, userId, friendId), OrderKey, k);
      OneOfExchange(m, userId, friendId, id, own);
      hide WithKey, ExchangeOf;
      var before := WithKey(Exchange(log', userId, friendId), OrderKey, k);
      MapOfTwo(before, WithKey(ExchangeOf(m, userId, friendId), OrderKey, k));
    }
  }

  lemma MapOfTwo(a: seq<Tagged>, b: seq<Tagged>)
    ensures Map(a + b, EntryIn) == Map(a, EntryIn) + Map(b, EntryIn)
  {
  }

  lemma OneOfExchange(m: Entry, userId: int, friendId: int, id: int, own: bool)
    requires userId != friendId
    ensures var a, b := if own then userId else friendId, if own then friendId else userId;
            Map(WithKey(ExchangeOf(m, userId, friendId), OrderKey, 2 * id + if own then 0 else 1), EntryIn)
            == if m.fromUserId == a && m.toUserId == b && m.messageId == id then [m] else []
  {
    WithKeyOne(Tagged(m, true), OrderKey, 2 * id + if own then 0 else 1);
    WithKeyOne(Tagged(m, false), OrderKey, 2 * id + if own then 0 else 1);
    assert WithKey([], OrderKey, 2 * id + if own then 0 else 1) == [];
  }

  lemma {:induction false} TagIsSender(log: seq<Entry>, userId: int, friendId: int)
    requires userId != friendId
    ensures forall t :: t in Exchange(log, userId, friendId) ==> (t.isOwnMessage <==> t.entry.fromUserId == userId)
  {
    if |log| > 0 {
      TagIsSender(log[..|log| - 1], userId, friendId);
    }
  }

  lemma RebuiltInIdOrder(log: seq<Entry>, userId: int, friendId: int)
    requires userId != friendId
    ensures InIdOrder(Map(Rebuilt(log, userId, friendId), EntryIn), log, userId, friendId)
  {
    var ts := Exchange(log, userId, friendId);
    var out := Sort(ts, OrderKey);
    RebuiltIsSortedExchange(log, userId, friendId);
    SortIsStable(ts, OrderKey);
    OrderImpliesIdOrder(out);
    hide Sort, Exchange, Rebuilt, WithId, WithKey, SentWithId;
    forall id ensures WithId(Map(out, EntryIn), id)
                      == SentWithId(log, userId, friendId, id) + SentWithId(log, friendId, userId, id)
    {
      WithIdOfTagged(out, id);
      IdInSorted(ts, out, id);
      MapOfTwo(WithKey(ts, OrderKey, 2 * id + 0), WithKey(ts, OrderKey, 2 * id + 1));
      SideOfExchange(log, userId, friendId, id, true);
      SideOfExchange(log, userId, friendId, id, false);
    }
  }

  lemma RebuiltTags(log: seq<Entry>, userId: int, friendId: int)
    requires userId != friendId
    ensures forall t :: t in Rebuilt(log, userId, friendId) ==> (t.isOwnMessage <==> t.entry.fromUserId == userId)
  {
    RebuiltIsSortedExchange(log, userId, friendId);
    TagIsSender(log, userId, friendId);
    hide Rebuilt, Exchange, Sort;
    forall t | t in Rebuilt(log, userId, friendId) ensures t.isOwnMessage <==> t.entry.fromUserId == userId {
      assert t in multiset(Rebuilt(log, userId, friendId));
    }
  }

  lemma TaggedShown(ts: seq<Tagged>, userId: int)
    requires forall t :: t in ts ==> (t.isOwnMessage <==> t.entry.fromUserId == userId)
    ensures Shows(Map(ts, BubbleOf), Map(ts, EntryIn), userId)
  {
    assert forall i :: 0 <= i < |ts| ==> ts[i] in ts;
  }

  function EntryIdKey(m: Entry): int { m.messageId }

  lemma {:induction false} WithIdIsWithKey(entries: seq<Entry>, id: int)
    ensures WithId(entries, id) == WithKey(entries, EntryIdKey, id)
  {
    if |entries| > 0 {
      WithIdIsWithKey(entries[..|entries| - 1], id);
    }
  }

  lemma IdOrderUnique(a: seq<Entry>, b: seq<Entry>, log: seq<Entry>, userId: int, friendId: int)
    requires InIdOrder(a, log, userId, friendId) && InIdOrder(b, log, userId, friendId)
    ensures a == b
  {
    forall id ensures WithKey(a, EntryIdKey, id) == WithKey(b, EntryIdKey, id) {
      WithIdIsWithKey(a, id);
      WithIdIsWithKey(b, id);
    }
    hide WithKey, WithId, SentWithId;
    StableSortUnique(a, b, EntryIdKey);
  }

  lemma ShowsSame(a: seq<Bubble>, b: seq<Bubble>, entries: seq<Entry>, userId: int)
    requires Shows(a, entries, userId) && Shows(b, entries, userId)
    ensures a == b
  {
  }

  /** What a conversation shows is what the two sent each other in order of id, and nothing else is. */
  lemma ConversationExact(screen: seq<Bubble>, log: seq<Entry>, userId: int, friendId: int)
    requires userId != friendId
    ensures screen == ConversationView(log, userId, friendId) <==> IsConversation(screen, log, userId, friendId)
  {
    hide InIdOrder, Shows, Rebuilt, Map;
    var view, shown := ConversationView(log, userId, friendId), Map(Rebuilt(log, userId, friendId), EntryIn);
    RebuiltInIdOrder(log, userId, friendId);
    RebuiltTags(log, userId, friendId);
    TaggedShown(Rebuilt(log, userId, friendId), userId);
    if IsConversation(screen, log, userId, friendId) {
      var entries :| InIdOrder(entries, log, userId, friendId) && Shows(screen, entries, userId);
      IdOrderUnique(entries, shown, log, userId, friendId);
      ShowsSame(screen, view, entries, userId);
    }
  }

  // ---- Blank texts ----------------------------------------------------------------

  /** The code points that `trim` removes: WhiteSpace and LineTerminator, sections 12.2 and 12.3 of ECMA-262. */
  const WHITE_SPACE: set<int> := {
    0x0009, 0x000B, 0x000C, 0x0020, 0x00A0, 0xFEFF,
    0x1680, 0x2000, 0x2001, 0x2002, 0x2003, 0x2004, 0x2005, 0x2006, 0x2007, 0x2008, 0x2009, 0x200A,
    0x202F, 0x205F, 0x3000,
    0x000A, 0x000D, 0x2028, 0x2029
  }

  ghost predicate OnlyWhiteSpace(text: string) {
    forall i :: 0 <= i < |text| ==> text[i] as int in WHITE_SPACE
  }

  /** A submitted text is dropped exactly when it is all white space, and grows one log and the screen otherwise. */
  lemma SubmitExact(s: State, text: string, timestamp: int)
    ensures var t := Next(s, Submit(text, timestamp));
            var m := Entry(s.userId, ChatId(s.chat), s.nextId, s.username, Some(text), timestamp);
            if OnlyWhiteSpace(text) then t == s
            else && t.nextId == s.nextId + 1 && t.screen == s.screen + [Bubble(s.username, Some(text), true)]
                 && if s.chat.Friend? && s.chat.id != 0 then t.log == s.log + [m] && t.publicLog == s.publicLog
                    else t.publicLog == s.publicLog + [m] && t.log == s.log
  {
    BlankExactly(text);
  }

  /** An incoming private message is logged as it is, and shown if its sender's chat is open. */
  lemma TextExact(s: State, msg: Incoming)
    ensures var t := Next(s, Text(msg)); var content := if msg.content.Some? then msg.content.value else s.content;
            && t.content == content && t.nextId == s.nextId && t.publicLog == s.publicLog && t.chat == s.chat
            && t.log == s.log + [Entry(msg.fromUserId, msg.toUserId, msg.messageId,
                                       content.username, content.text, msg.timestamp)]
            && if (s.chat.Friend? && s.chat.id == msg.fromUserId) || (s.chat.PublicRoom? && msg.fromUserId == 0)
               then exists name :: IsLiveName(name, content.username)
                                   && t.screen == s.screen + [Bubble(name, content.text, false)]
               else t.screen == s.screen
  {
    LiveNameExact(ParsedContent(msg, s.content).username);
  }

  /** An incoming group message is logged as it is, and shown if the chat it is addressed to is open. */
  lemma GroupExact(s: State, msg: Incoming)
    ensures var t := Next(s, Group(msg)); var content := if msg.content.Some? then msg.content.value else s.content;
            && t.content == content && t.nextId == s.nextId && t.log == s.log && t.chat == s.chat
            && t.publicLog == s.publicLog + [Entry(msg.fromUserId, msg.toUserId, msg.messageId,
                                                   content.username, content.text, msg.timestamp)]
            && if (s.chat.Friend? && s.chat.id == msg.toUserId) || (s.chat.PublicRoom? && msg.toUserId == 0)
               then exists name :: IsLiveName(name, content.username)
                                   && t.screen == s.screen + [Bubble(name, content.text, false)]
               else t.screen == s.screen
  {
    LiveNameExact(ParsedContent(msg, s.content).username);
  }

  lemma LiveNameExact(username: Option<string>)
    ensures IsLiveName(LiveName(username), username)
  {
  }

  lemma BlankExactly(text: string)
    ensures Blank(text) <==> OnlyWhiteSpace(text)
  {
    forall c: char ensures IsSpace(c) <==> c as int in WHITE_SPACE {
    }
    if Blank(text) {
      forall i | 0 <= i < |text| ensures text[i] as int in WHITE_SPACE {
        assert text[i] in text;
      }
    }
  }
}
