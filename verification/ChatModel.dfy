/**
 The chat client of front/script.js, seen through its logs.

 A `State` holds no cache: only the log of private messages sent and received,
 the log of group messages, and what the chat pane shows. `Next` says what each
 user action or incoming message does. Module `ChatClient` holds the caches and
 proves that every one of its methods is a `Next` step.
 */
module ChatModel {
  import opened Common
  import opened StableSort

  /** The name shown for a live message whose sender name is missing or empty. */
  const UNKNOWN_NAME: string := "\U{672A}\U{77E5}"

  /** The parsed `content` of a message; a missing field reads as `undefined`. */
  datatype Content = Content(username: Option<string>, text: Option<string>)

  /** A message from the socket. `content` is None when `JSON.parse` throws. */
  datatype Incoming = Incoming(fromUserId: int, toUserId: int, messageId: int, timestamp: int, content: Option<Content>)

  /** The record that both caches keep. */
  datatype Entry = Entry(fromUserId: int, toUserId: int, messageId: int,
                         username: Option<string>, text: Option<string>, timestamp: int)

  datatype Tagged = Tagged(entry: Entry, isOwnMessage: bool)

  /** A line of the chat pane, without its avatar and displayed time. */
  datatype Bubble = Bubble(username: Option<string>, text: Option<string>, isMe: bool)

  /** `currentChatType` and `currentChat` together. */
  datatype Chat = PublicRoom | Friend(id: int)

  function ChatId(chat: Chat): int {
    match chat
    case PublicRoom => 0
    case Friend(id) => id
  }

  function IdKey(t: Tagged): int { t.entry.messageId }

  function TimeKey(m: Entry): int { m.timestamp }

  /** 0 for the user's own messages, 1 for the friend's. */
  function OwnerKey(t: Tagged): int { if t.isOwnMessage then 0 else 1 }

  /** By message id, the user's own messages first among equal ids. */
  function OrderKey(t: Tagged): int { 2 * IdKey(t) + OwnerKey(t) }

  function BubbleOf(t: Tagged): Bubble { Bubble(t.entry.username, t.entry.text, t.isOwnMessage) }

  function PublicBubble(userId: int): Entry -> Bubble {
    (m: Entry) => Bubble(m.username, m.text, m.fromUserId == userId)
  }

  // ---- The index and what it rebuilds ---------------------------------------

  /** What one message adds to the bucket of user `k`: sender's copy, receiver's copy. */
  function Copies(m: Entry, k: int): seq<Entry> {
    (if m.fromUserId == k then [m] else []) + (if m.toUserId == k then [m] else [])
  }

  /** The bucket of user `k` for a log. */
  function Filed(log: seq<Entry>, k: int): seq<Entry> {
    if |log| == 0 then [] else Filed(log[..|log| - 1], k) + Copies(log[|log| - 1], k)
  }

  function Bucket(cache: map<int, seq<Entry>>, k: int): seq<Entry> {
    if k in cache then cache[k] else []
  }

  /** `messageCache` holds, for every user, that user's bucket. */
  ghost predicate IndexAgrees(cache: map<int, seq<Entry>>, log: seq<Entry>) {
    forall k :: Bucket(cache, k) == Filed(log, k)
  }

  /** `addMessageToCache`: file under the sender, then under the receiver. */
  function FileTwice(cache: map<int, seq<Entry>>, m: Entry): map<int, seq<Entry>> {
    var first := cache[m.fromUserId := Bucket(cache, m.fromUserId) + [m]];
    first[m.toUserId := Bucket(first, m.toUserId) + [m]]
  }

  lemma FileTwiceBucket(cache: map<int, seq<Entry>>, m: Entry, k: int)
    ensures Bucket(FileTwice(cache, m), k) == Bucket(cache, k) + Copies(m, k)
  {
  }

  /** Filing a message twice keeps the index in agreement with the log. */
  lemma IndexAgreesStep(cache: map<int, seq<Entry>>, log: seq<Entry>, m: Entry)
    requires IndexAgrees(cache, log)
    ensures IndexAgrees(FileTwice(cache, m), log + [m])
  {
    forall k ensures Bucket(FileTwice(cache, m), k) == Filed(log + [m], k) {
      FileTwiceBucket(cache, m, k);
      FiledAppend(log, m, k);
    }
  }

  lemma FiledAppend(log: seq<Entry>, m: Entry, k: int)
    ensures Filed(log + [m], k) == Filed(log, k) + Copies(m, k)
  {
  }

  /** The messages of a bucket addressed to `toUserId`, tagged. */
  function Collect(bucket: seq<Entry>, toUserId: int, own: bool): seq<Tagged> {
    if |bucket| == 0 then [] else
      Collect(bucket[..|bucket| - 1], toUserId, own)
      + if bucket[|bucket| - 1].toUserId == toUserId then [Tagged(bucket[|bucket| - 1], own)] else []
  }

  function Combined(log: seq<Entry>, userId: int, friendId: int): seq<Tagged> {
    Collect(Filed(log, userId), friendId, true) + Collect(Filed(log, friendId), userId, false)
  }

  /** What `displayCachedMessages` puts on the screen, in order. */
  function Rebuilt(log: seq<Entry>, userId: int, friendId: int): seq<Tagged> {
    Sort(Combined(log, userId, friendId), IdKey)
  }

  /** The reference: one pass over the log, each message between the two once. */
  function ExchangeOf(m: Entry, userId: int, friendId: int): seq<Tagged> {
    if m.fromUserId == userId && m.toUserId == friendId then [Tagged(m, true)]
    else if m.fromUserId == friendId && m.toUserId == userId then [Tagged(m, false)]
    else []
  }

  function Exchange(log: seq<Entry>, userId: int, friendId: int): seq<Tagged> {
    if |log| == 0 then [] else
      Exchange(log[..|log| - 1], userId, friendId) + ExchangeOf(log[|log| - 1], userId, friendId)
  }

  // ---- State and steps ------------------------------------------------------

  datatype State = State(userId: int, username: Option<string>, chat: Chat, nextId: nat, content: Content,
                         log: seq<Entry>, publicLog: seq<Entry>, screen: seq<Bubble>)

  datatype Event =
    | Submit(text: string, timestamp: int)
    | Text(msg: Incoming)
    | Group(msg: Incoming)
    | OpenFriend(id: int)
    | OpenPublic
    | Control  // any other message sent to the server: it only takes a message id

  predicate IsSpace(c: char) {
    '\U{0009}' <= c <= '\U{000D}' || c == ' ' || c == '\U{00A0}' || c == '\U{1680}' || '\U{2000}' <= c <= '\U{200A}'
    || c == '\U{2028}' || c == '\U{2029}' || c == '\U{202F}' || c == '\U{205F}' || c == '\U{3000}' || c == '\U{FEFF}'
  }

  predicate Blank(text: string) {
    forall c :: c in text ==> IsSpace(c)
  }

  predicate Named(username: Option<string>) {
    username.Some? && username.value != ""
  }

  function LiveName(username: Option<string>): Option<string> {
    if Named(username) then username else Some(UNKNOWN_NAME)
  }

  /** A message that does not parse leaves the previous global `content` in place. */
  function ParsedContent(msg: Incoming, content: Content): Content {
    if msg.content.Some? then msg.content.value else content
  }

  function EntryOf(msg: Incoming, content: Content): Entry {
    Entry(msg.fromUserId, msg.toUserId, msg.messageId, content.username, content.text, msg.timestamp)
  }

  function SubmittedEntry(s: State, text: string, timestamp: int): Entry {
    Entry(s.userId, ChatId(s.chat), s.nextId, s.username, Some(text), timestamp)
  }

  function LiveBubble(content: Content): Bubble {
    Bubble(LiveName(content.username), content.text, false)
  }

  function ConversationView(log: seq<Entry>, userId: int, friendId: int): seq<Bubble> {
    Map(Rebuilt(log, userId, friendId), BubbleOf)
  }

  function PublicView(publicLog: seq<Entry>, userId: int): seq<Bubble> {
    Map(Sort(publicLog, TimeKey), PublicBubble(userId))
  }

  function Next(s: State, e: Event): State {
    match e
    case Submit(text, timestamp) =>
      if Blank(text) then s else
      var m := SubmittedEntry(s, text, timestamp);
      var s' := s.(nextId := s.nextId + 1, screen := s.screen + [Bubble(s.username, Some(text), true)]);
      if ChatId(s.chat) != 0 then s'.(log := s.log + [m]) else s'.(publicLog := s.publicLog + [m])
    case Text(msg) =>
      var content := ParsedContent(msg, s.content);
      s.(content := content, log := s.log + [EntryOf(msg, content)],
         screen := s.screen + if msg.fromUserId == ChatId(s.chat) then [LiveBubble(content)] else [])
    case Group(msg) =>
      var content := ParsedContent(msg, s.content);
      s.(content := content, publicLog := s.publicLog + [EntryOf(msg, content)],
         screen := s.screen + if msg.toUserId == ChatId(s.chat) then [LiveBubble(content)] else [])
    case OpenFriend(id) =>
      s.(chat := Friend(id), screen := ConversationView(s.log, s.userId, id))
    case OpenPublic =>
      s.(chat := PublicRoom, screen := PublicView(s.publicLog, s.userId))
    case Control =>
      s.(nextId := s.nextId + 1)
  }

  function Run(s: State, es: seq<Event>): State
    decreases |es|
  {
    if |es| == 0 then s else Run(Next(s, es[0]), es[1..])
  }

  // ---- The index agrees with the log ----------------------------------------

  lemma {:induction false} CollectConcat(a: seq<Entry>, b: seq<Entry>, toUserId: int, own: bool)
    ensures Collect(a + b, toUserId, own) == Collect(a, toUserId, own) + Collect(b, toUserId, own)
  {
    if |b| == 0 {
      assert a + b == a;
    } else {
      assert (a + b)[..|a + b| - 1] == a + b[..|b| - 1];
      CollectConcat(a, b[..|b| - 1], toUserId, own);
    }
  }

  lemma OneMessageOnBothSides(m: Entry, userId: int, friendId: int)
    requires userId != friendId
    ensures Collect(Copies(m, userId), friendId, true) == WithKey(ExchangeOf(m, userId, friendId), OwnerKey, 0)
    ensures Collect(Copies(m, friendId), userId, false) == WithKey(ExchangeOf(m, userId, friendId), OwnerKey, 1)
  {
    assert Collect([], friendId, true) == [] && Collect([], userId, false) == [];
    assert forall side :: WithKey([], OwnerKey, side) == [];
    hide Collect, WithKey;
    CollectOne(m, friendId, true);
    CollectOne(m, userId, false);
    CollectConcat([m], [m], friendId, true);
    CollectConcat([m], [m], userId, false);
    WithKeyOne(Tagged(m, true), OwnerKey, 0);
    WithKeyOne(Tagged(m, true), OwnerKey, 1);
    WithKeyOne(Tagged(m, false), OwnerKey, 0);
    WithKeyOne(Tagged(m, false), OwnerKey, 1);
  }

  lemma CollectOne(m: Entry, toUserId: int, own: bool)
    ensures Collect([m], toUserId, own) == if m.toUserId == toUserId then [Tagged(m, own)] else []
  {
  }

  /** Each bucket yields the two sides of the conversation, in log order. */
  lemma {:induction false} BucketsHoldBothSides(log: seq<Entry>, userId: int, friendId: int)
    requires userId != friendId
    ensures Collect(Filed(log, userId), friendId, true) == WithKey(Exchange(log, userId, friendId), OwnerKey, 0)
    ensures Collect(Filed(log, friendId), userId, false) == WithKey(Exchange(log, userId, friendId), OwnerKey, 1)
  {
    if |log| > 0 {
      var log', m := log[..|log| - 1], log[|log| - 1];
      BucketsHoldBothSides(log', userId, friendId);
      CollectConcat(Filed(log', userId), Copies(m, userId), friendId, true);
      CollectConcat(Filed(log', friendId), Copies(m, friendId), userId, false);
      WithKeyConcat(Exchange(log', userId, friendId), ExchangeOf(m, userId, friendId), OwnerKey, 0);
      WithKeyConcat(Exchange(log', userId, friendId), ExchangeOf(m, userId, friendId), OwnerKey, 1);
      OneMessageOnBothSides(m, userId, friendId);
    }
  }

  /** Picking one side, then one id, is picking one `OrderKey`. */
  lemma {:induction false} SideThenId(ts: seq<Tagged>, side: int, id: int)
    requires side == 0 || side == 1
    ensures WithKey(WithKey(ts, OwnerKey, side), IdKey, id) == WithKey(ts, OrderKey, 2 * id + side)
  {
    if |ts| > 0 {
      var ts', t := ts[..|ts| - 1], ts[|ts| - 1];
      SideThenId(ts', side, id);
      WithKeyAppend(WithKey(ts', OwnerKey, side), t, IdKey, id);
      assert OrderKey(t) == 2 * IdKey(t) + OwnerKey(t);
      if OwnerKey(t) != side {
        assert WithKey(ts, OwnerKey, side) == WithKey(ts', OwnerKey, side);
      } else {
        assert WithKey(ts, OwnerKey, side) == WithKey(ts', OwnerKey, side) + [t];
      }
    }
  }

  /** In a sequence sorted by `OrderKey`, an id's own messages precede the friend's. */
  lemma {:induction false} IdSplitsByOwner(ts: seq<Tagged>, id: int)
    requires SortedBy(ts, OrderKey)
    ensures WithKey(ts, IdKey, id) == WithKey(ts, OrderKey, 2 * id) + WithKey(ts, OrderKey, 2 * id + 1)
  {
    if |ts| > 0 {
      var ts', t := ts[..|ts| - 1], ts[|ts| - 1];
      IdSplitsByOwner(ts', id);
      if OrderKey(t) == 2 * id {
        WithKeyAbsent(ts', OrderKey, 2 * id + 1);
      }
    }
  }

  /** Sorting the two sides by id is sorting the conversation by `OrderKey`. */
  lemma SidesThenSort(ts: seq<Tagged>)
    ensures Sort(WithKey(ts, OwnerKey, 0) + WithKey(ts, OwnerKey, 1), IdKey) == Sort(ts, OrderKey)
  {
    var sides := WithKey(ts, OwnerKey, 0) + WithKey(ts, OwnerKey, 1);
    var out := Sort(ts, OrderKey);
    SortIsStable(ts, OrderKey);
    OrderImpliesIdOrder(out);
    forall id ensures WithKey(out, IdKey, id) == WithKey(sides, IdKey, id) {
      IdInSorted(ts, out, id);
      IdInSides(ts, id);
    }
    SortExact(out, sides, IdKey);
  }

  lemma OrderImpliesIdOrder(ts: seq<Tagged>)
    requires SortedBy(ts, OrderKey)
    ensures SortedBy(ts, IdKey)
  {
  }

  lemma IdInSorted(ts: seq<Tagged>, out: seq<Tagged>, id: int)
    requires SortedBy(out, OrderKey) && SameOrder(out, ts, OrderKey)
    ensures WithKey(out, IdKey, id) == WithKey(ts, OrderKey, 2 * id + 0) + WithKey(ts, OrderKey, 2 * id + 1)
  {
    IdSplitsByOwner(out, id);
    SameOrderAt(out, ts, OrderKey, 2 * id + 0);
    SameOrderAt(out, ts, OrderKey, 2 * id + 1);
  }

  lemma IdInSides(ts: seq<Tagged>, id: int)
    ensures WithKey(WithKey(ts, OwnerKey, 0) + WithKey(ts, OwnerKey, 1), IdKey, id)
            == WithKey(ts, OrderKey, 2 * id + 0) + WithKey(ts, OrderKey, 2 * id + 1)
  {
    WithKeyConcat(WithKey(ts, OwnerKey, 0), WithKey(ts, OwnerKey, 1), IdKey, id);
    SideThenId(ts, 0, id);
    SideThenId(ts, 1, id);
  }

  /** The rebuilt conversation is the one-pass reference, sorted; nothing is lost or repeated. */
  lemma RebuiltIsSortedExchange(log: seq<Entry>, userId: int, friendId: int)
    requires userId != friendId
    ensures Rebuilt(log, userId, friendId) == Sort(Exchange(log, userId, friendId), OrderKey)
    ensures multiset(Rebuilt(log, userId, friendId)) == multiset(Exchange(log, userId, friendId))
  {
    BucketsHoldBothSides(log, userId, friendId);
    SidesThenSort(Exchange(log, userId, friendId));
    SortPermutes(Exchange(log, userId, friendId), OrderKey);
  }

  /** The messages addressed to `k`. */
  function AddressedTo(log: seq<Entry>, k: int): nat {
    if |log| == 0 then 0 else
      AddressedTo(log[..|log| - 1], k) + if log[|log| - 1].toUserId == k then 1 else 0
  }

  lemma {:induction false} SelfChatSize(log: seq<Entry>, userId: int)
    ensures |Exchange(log, userId, userId)| <= AddressedTo(log, userId)
    ensures |Collect(Filed(log, userId), userId, true)| >= AddressedTo(log, userId)
    ensures |Collect(Filed(log, userId), userId, false)| >= AddressedTo(log, userId)
  {
    if |log| > 0 {
      var log', m := log[..|log| - 1], log[|log| - 1];
      SelfChatSize(log', userId);
      CollectConcat(Filed(log', userId), Copies(m, userId), userId, true);
      CollectConcat(Filed(log', userId), Copies(m, userId), userId, false);
    }
  }

  /** Exactly when the rebuilt view shows every message between the two once. */
  lemma RebuiltOnceExactly(log: seq<Entry>, userId: int, friendId: int)
    ensures multiset(Rebuilt(log, userId, friendId)) == multiset(Exchange(log, userId, friendId))
            <==> (userId != friendId || AddressedTo(log, userId) == 0)
  {
    if userId != friendId {
      RebuiltIsSortedExchange(log, userId, friendId);
    } else {
      SelfChatSize(log, userId);
      SortPermutes(Combined(log, userId, userId), IdKey);
      var rebuilt, exchange := Rebuilt(log, userId, userId), Exchange(log, userId, userId);
      assert |rebuilt| == |multiset(rebuilt)| && |exchange| == |multiset(exchange)|;
      if AddressedTo(log, userId) == 0 {
        SelfChatEmpty(log, userId);
      }
    }
  }

  lemma {:induction false} SelfChatEmpty(log: seq<Entry>, userId: int)
    requires AddressedTo(log, userId) == 0
    ensures Combined(log, userId, userId) == [] && Exchange(log, userId, userId) == []
  {
    if |log| > 0 {
      var log', m := log[..|log| - 1], log[|log| - 1];
      SelfChatEmpty(log', userId);
      CollectConcat(Filed(log', userId), Copies(m, userId), userId, true);
      CollectConcat(Filed(log', userId), Copies(m, userId), userId, false);
    }
  }

  /** The view keeps the arrival order of a conversation exactly when the ids do. */
  lemma ArrivalOrderExactly(log: seq<Entry>, userId: int, friendId: int)
    requires userId != friendId
    ensures Rebuilt(log, userId, friendId) == Exchange(log, userId, friendId)
            <==> SortedBy(Exchange(log, userId, friendId), OrderKey)
  {
    RebuiltIsSortedExchange(log, userId, friendId);
    SortFixpoint(Exchange(log, userId, friendId), OrderKey);
  }

  // ---- Inputs that break the orders and the counts ---------------------------

  lemma RunOfTwo(s: State, e: Event, f: Event)
    ensures Run(s, [e, f]) == Next(Next(s, e), f)
  {
    assert [e, f][1..] == [f] && [f][1..] == [];
    assert Run(Next(Next(s, e), f), []) == Next(Next(s, e), f);
  }

  lemma ExchangeOfTwo(a: Entry, b: Entry, userId: int, friendId: int)
    ensures Exchange([a, b], userId, friendId) == ExchangeOf(a, userId, friendId) + ExchangeOf(b, userId, friendId)
  {
    assert [a, b][..1] == [a] && [a][..0] == [];
    assert Exchange([a], userId, friendId) == Exchange([], userId, friendId) + ExchangeOf(a, userId, friendId);
  }

  /** A chat with oneself: a single message is shown twice. */
  lemma SelfChatRepeats(s: State, text: string, timestamp: int)
    requires s.log == [] && s.userId != 0 && !Blank(text)
    ensures var t := Run(s, [OpenFriend(s.userId), Submit(text, timestamp)]);
            multiset(Rebuilt(t.log, s.userId, s.userId)) != multiset(Exchange(t.log, s.userId, s.userId))
  {
    hide Rebuilt, Exchange, ConversationView, Run;
    RunOfTwo(s, OpenFriend(s.userId), Submit(text, timestamp));
    var s' := Next(s, OpenFriend(s.userId));
    var m := SubmittedEntry(s', text, timestamp);
    assert Next(s', Submit(text, timestamp)).log == [m];
    assert [m][..0] == [] && AddressedTo([m], s.userId) == AddressedTo([], s.userId) + 1;
    RebuiltOnceExactly([m], s.userId, s.userId);
  }

  /** A message sent before one arrives, with an id above it, is shown after it. */
  lemma ReplyShownFirst(s: State, text: string, timestamp: int, reply: Incoming)
    requires s.log == [] && s.chat == Friend(reply.fromUserId) && !Blank(text)
    requires reply.fromUserId != 0 && reply.fromUserId != s.userId && reply.toUserId == s.userId
    requires reply.messageId < s.nextId
    ensures var t := Run(s, [Submit(text, timestamp), Text(reply)]);
            Rebuilt(t.log, s.userId, reply.fromUserId) != Exchange(t.log, s.userId, reply.fromUserId)
  {
    hide Rebuilt, Exchange, Run;
    var f := reply.fromUserId;
    RunOfTwo(s, Submit(text, timestamp), Text(reply));
    var a, b := SubmittedEntry(s, text, timestamp), EntryOf(reply, ParsedContent(reply, s.content));
    assert Next(Next(s, Submit(text, timestamp)), Text(reply)).log == [a, b];
    ExchangeOfTwo(a, b, s.userId, f);
    var ts := [Tagged(a, true), Tagged(b, false)];
    assert Exchange([a, b], s.userId, f) == ts && OrderKey(ts[0]) > OrderKey(ts[1]);
    ArrivalOrderExactly([a, b], s.userId, f);
  }

  // ---- The user's own messages keep their sending order ---------------------

  lemma {:induction false} WithKeyKeepsSorted<T>(s: seq<T>, pick: T -> int, k: int, key: T -> int)
    requires SortedBy(s, key)
    ensures SortedBy(WithKey(s, pick, k), key)
  {
    if |s| > 0 {
      var s', x := s[..|s| - 1], s[|s| - 1];
      WithKeyKeepsSorted(s', pick, k, key);
      WithKeySound(s', pick, k);
      forall i | 0 <= i < |WithKey(s', pick, k)| ensures key(WithKey(s', pick, k)[i]) <= key(x) {
        assert WithKey(s', pick, k)[i] in s';
      }
    }
  }

  /** One side of the view is that side of the log exactly when its ids are in order. */
  lemma OwnOrderExactly(log: seq<Entry>, userId: int, friendId: int)
    requires userId != friendId
    ensures var sent := WithKey(Exchange(log, userId, friendId), OwnerKey, 0);
            WithKey(Rebuilt(log, userId, friendId), OwnerKey, 0) == sent <==> SortedBy(sent, IdKey)
  {
    var ts := Exchange(log, userId, friendId);
    var out := Sort(ts, OrderKey);
    var shown, sent := WithKey(out, OwnerKey, 0), WithKey(ts, OwnerKey, 0);
    RebuiltIsSortedExchange(log, userId, friendId);
    SortIsStable(ts, OrderKey);
    WithKeyKeepsSorted(out, OwnerKey, 0, OrderKey);
    OrderImpliesIdOrder(shown);
    forall id ensures WithKey(shown, IdKey, id) == WithKey(sent, IdKey, id) {
      OwnSideAgreesOnId(ts, out, id);
    }
    SortExact(shown, sent, IdKey);
    SortFixpoint(sent, IdKey);
  }

  lemma OwnSideAgreesOnId(ts: seq<Tagged>, out: seq<Tagged>, id: int)
    requires SameOrder(out, ts, OrderKey)
    ensures WithKey(WithKey(out, OwnerKey, 0), IdKey, id) == WithKey(WithKey(ts, OwnerKey, 0), IdKey, id)
  {
    hide WithKey, SameOrder;
    calc {
      WithKey(WithKey(out, OwnerKey, 0), IdKey, id);
      { SideThenId(out, 0, id); }
      WithKey(out, OrderKey, 2 * id + 0);
      { SameOrderAt(out, ts, OrderKey, 2 * id + 0); }
      WithKey(ts, OrderKey, 2 * id + 0);
      { SideThenId(ts, 0, id); }
      WithKey(WithKey(ts, OwnerKey, 0), IdKey, id);
    }
  }

  /** An own message pulled from the history with a higher id than the counter is shown after a newer one. */
  lemma PulledMessageShownLate(s: State, pulled: Incoming, text: string, timestamp: int)
    requires s.log == [] && s.chat == Friend(pulled.toUserId) && !Blank(text)
    requires pulled.fromUserId == s.userId && pulled.toUserId != 0 && pulled.toUserId != s.userId
    requires pulled.messageId > s.nextId
    ensures var t := Run(s, [Text(pulled), Submit(text, timestamp)]);
            WithKey(Rebuilt(t.log, s.userId, pulled.toUserId), OwnerKey, 0)
            != WithKey(Exchange(t.log, s.userId, pulled.toUserId), OwnerKey, 0)
  {
    hide Rebuilt, Exchange, WithKey, Run;
    var f := pulled.toUserId;
    RunOfTwo(s, Text(pulled), Submit(text, timestamp));
    var a, b := EntryOf(pulled, ParsedContent(pulled, s.content)), SubmittedEntry(s, text, timestamp);
    assert Next(Next(s, Text(pulled)), Submit(text, timestamp)).log == [a, b];
    ExchangeOfTwo(a, b, s.userId, f);
    BothOwn(a, b);
    var ts := [Tagged(a, true), Tagged(b, true)];
    assert Exchange([a, b], s.userId, f) == ts && IdKey(ts[0]) > IdKey(ts[1]);
    OwnOrderExactly([a, b], s.userId, f);
  }

  lemma BothOwn(a: Entry, b: Entry)
    ensures var ts := [Tagged(a, true), Tagged(b, true)]; WithKey(ts, OwnerKey, 0) == ts
  {
    WithKeyOne(Tagged(a, true), OwnerKey, 0);
    WithKeyOne(Tagged(b, true), OwnerKey, 0);
    WithKeyConcat([Tagged(a, true)], [Tagged(b, true)], OwnerKey, 0);
    assert [Tagged(a, true)] + [Tagged(b, true)] == [Tagged(a, true), Tagged(b, true)];
  }

  /** Entries sent by `userId` carry increasing ids below `bound`. */
  ghost predicate OwnIdsIncrease(log: seq<Entry>, userId: int, bound: int) {
    && (forall i :: 0 <= i < |log| && log[i].fromUserId == userId ==> log[i].messageId < bound)
    && (forall i, j :: 0 <= i < j < |log| && log[i].fromUserId == userId && log[j].fromUserId == userId
                       ==> log[i].messageId < log[j].messageId)
  }

  lemma OwnIdsBeforeLast(log: seq<Entry>, m: Entry, userId: int, bound: int)
    requires OwnIdsIncrease(log + [m], userId, bound)
    ensures OwnIdsIncrease(log, userId, if m.fromUserId == userId then m.messageId else bound)
    ensures m.fromUserId == userId ==> m.messageId < bound
  {
    var all, n := log + [m], |log|;
    assert all[n] == m && forall i :: 0 <= i < n ==> all[i] == log[i];
  }

  /** In increasing order and below `bound`. */
  ghost predicate OrderedBelow(ts: seq<Tagged>, bound: int) {
    SortedBy(ts, IdKey) && forall t :: t in ts ==> IdKey(t) < bound
  }

  lemma OrderedAppend(ts: seq<Tagged>, t: Tagged, bound: int)
    requires OrderedBelow(ts, IdKey(t)) && IdKey(t) < bound
    ensures OrderedBelow(ts + [t], bound)
  {
    SortedByAppend(ts, t, IdKey);
  }

  lemma OrderedRaise(ts: seq<Tagged>, low: int, bound: int)
    requires OrderedBelow(ts, low) && low <= bound
    ensures OrderedBelow(ts, bound)
  {
  }

  lemma {:induction false} OwnIdsSorted(log: seq<Entry>, userId: int, friendId: int, bound: int)
    requires OwnIdsIncrease(log, userId, bound)
    ensures OrderedBelow(WithKey(Exchange(log, userId, friendId), OwnerKey, 0), bound)
  {
    if |log| > 0 {
      hide WithKey, ExchangeOf, OwnIdsIncrease, OrderedBelow;
      var log', m := log[..|log| - 1], log[|log| - 1];
      var before := WithKey(Exchange(log', userId, friendId), OwnerKey, 0);
      var low := if m.fromUserId == userId then m.messageId else bound;
      assert log == log' + [m];
      OwnIdsBeforeLast(log', m, userId, bound);
      OwnIdsSorted(log', userId, friendId, low);
      WithKeyConcat(Exchange(log', userId, friendId), ExchangeOf(m, userId, friendId), OwnerKey, 0);
      OneSent(m, userId, friendId);
      if m.fromUserId == userId && m.toUserId == friendId {
        OrderedAppend(before, Tagged(m, true), bound);
      } else {
        assert before + [] == before;
        OrderedRaise(before, low, bound);
      }
    }
  }

  lemma OneSent(m: Entry, userId: int, friendId: int)
    ensures WithKey(ExchangeOf(m, userId, friendId), OwnerKey, 0)
            == if m.fromUserId == userId && m.toUserId == friendId then [Tagged(m, true)] else []
  {
  }

  /** An own message that comes back carries a used id above those of all own messages before it. */
  ghost predicate EchoFits(s: State, e: Event) {
    e.Text? && e.msg.fromUserId == s.userId ==>
      && e.msg.messageId < s.nextId
      && forall i :: 0 <= i < |s.log| && s.log[i].fromUserId == s.userId ==> s.log[i].messageId < e.msg.messageId
  }

  ghost predicate EchoesFit(s: State, es: seq<Event>)
    decreases |es|
  {
    |es| > 0 ==> EchoFits(s, es[0]) && EchoesFit(Next(s, es[0]), es[1..])
  }

  lemma OwnIdsStepExact(s: State, e: Event)
    requires OwnIdsIncrease(s.log, s.userId, s.nextId)
    ensures var t := Next(s, e); OwnIdsIncrease(t.log, t.userId, t.nextId) <==> EchoFits(s, e)
  {
    if e.Text? {
      var n, log := |s.log|, Next(s, e).log;
      assert log[n].fromUserId == e.msg.fromUserId && log[n].messageId == e.msg.messageId;
      assert forall i :: 0 <= i < n ==> log[i] == s.log[i];
    }
  }

  ghost predicate OwnIdsInOrder(s: State) {
    OwnIdsIncrease(s.log, s.userId, s.nextId)
  }

  /** At every point of the run, the own ids increase. */
  ghost predicate OwnIdsInOrderThroughout(s: State, es: seq<Event>) {
    forall k :: 0 <= k <= |es| ==> OwnIdsInOrder(Run(s, es[..k]))
  }

  lemma ThroughoutFromFirst(s: State, es: seq<Event>)
    requires |es| > 0
    ensures OwnIdsInOrderThroughout(s, es)
       <==> OwnIdsInOrder(s) && OwnIdsInOrderThroughout(Next(s, es[0]), es[1..])
  {
    hide OwnIdsInOrder;
    var s', rest := Next(s, es[0]), es[1..];
    forall k | 0 <= k <= |rest| ensures Run(s, es[..k + 1]) == Run(s', rest[..k]) {
      assert es[..k + 1][1..] == rest[..k];
    }
    if OwnIdsInOrderThroughout(s, es) {
      assert Run(s, es[..0]) == s;
      forall k | 0 <= k <= |rest| ensures OwnIdsInOrder(Run(s', rest[..k])) {
        assert OwnIdsInOrder(Run(s, es[..k + 1]));
      }
    }
    if OwnIdsInOrder(s) && OwnIdsInOrderThroughout(s', rest) {
      forall k | 0 <= k <= |es| ensures OwnIdsInOrder(Run(s, es[..k])) {
        if k > 0 {
          assert OwnIdsInOrder(Run(s', rest[..k - 1]));
        }
      }
    }
  }

  /** The own ids increase at every point of a run exactly when every echo in it fits in. */
  lemma {:induction false} RunKeepsOwnIds(s: State, es: seq<Event>)
    requires OwnIdsInOrder(s)
    ensures OwnIdsInOrderThroughout(s, es) <==> EchoesFit(s, es)
    ensures Run(s, es).userId == s.userId
    decreases |es|
  {
    if |es| > 0 {
      ThroughoutFromFirst(s, es);
      OwnIdsStepExact(s, es[0]);
      var s' := Next(s, es[0]);
      if OwnIdsInOrder(s') {
        RunKeepsOwnIds(s', es[1..]);
      } else {
        assert Run(s', es[1..][..0]) == s';
        KeepsUser(s, es);
      }
    }
  }

  lemma {:induction false} KeepsUser(s: State, es: seq<Event>)
    ensures Run(s, es).userId == s.userId
    decreases |es|
  {
    if |es| > 0 {
      KeepsUser(Next(s, es[0]), es[1..]);
    }
  }

  /** No incoming private message claims to come from the user. */
  ghost predicate NoEcho(userId: int, es: seq<Event>) {
    forall i :: 0 <= i < |es| && es[i].Text? ==> es[i].msg.fromUserId != userId
  }

  lemma {:induction false} NoEchoFits(s: State, es: seq<Event>)
    requires NoEcho(s.userId, es)
    ensures EchoesFit(s, es)
    decreases |es|
  {
    if |es| > 0 {
      assert forall i :: 0 <= i < |es[1..]| ==> es[1..][i] == es[i + 1];
      NoEchoFits(Next(s, es[0]), es[1..]);
    }
  }

  /**
   After any run, a conversation shows the user's messages in sending order
   exactly when their ids are in order; echoes that fit in, or none, ensure that.
   */
  lemma OwnMessagesInSendingOrder(s: State, es: seq<Event>, friendId: int)
    requires s.log == [] && friendId != s.userId
    ensures var t := Run(s, es);
            var sent := WithKey(Exchange(t.log, s.userId, friendId), OwnerKey, 0);
            && (WithKey(Rebuilt(t.log, s.userId, friendId), OwnerKey, 0) == sent <==> SortedBy(sent, IdKey))
            && (EchoesFit(s, es) || NoEcho(s.userId, es) ==> SortedBy(sent, IdKey))
  {
    hide Rebuilt, Exchange, WithKey, Run;
    var t := Run(s, es);
    if NoEcho(s.userId, es) {
      NoEchoFits(s, es);
    }
    if EchoesFit(s, es) {
      RunKeepsOwnIds(s, es);
      assert es[..|es|] == es;
      assert OwnIdsInOrder(Run(s, es[..|es|]));
      OwnIdsSorted(t.log, s.userId, friendId, t.nextId);
    }
    OwnOrderExactly(t.log, s.userId, friendId);
  }

  // ---- The public cache: pushes and in-place sorts in any order ---------------

  datatype CacheOp = Push(m: Entry) | Display

  /** `publicCache` after a history in which every display sorts it in place. */
  function Cache(ops: seq<CacheOp>): seq<Entry> {
    if |ops| == 0 then [] else
      var before := Cache(ops[..|ops| - 1]);
      match ops[|ops| - 1]
      case Push(m) => before + [m]
      case Display => Sort(before, TimeKey)
  }

  function Arrivals(ops: seq<CacheOp>): seq<Entry> {
    if |ops| == 0 then [] else
      Arrivals(ops[..|ops| - 1]) + match ops[|ops| - 1] case Push(m) => [m] case Display => []
  }

  lemma SortAppend(a: seq<Entry>, m: Entry)
    ensures Sort(a + [m], TimeKey) == Insert(Sort(a, TimeKey), m, TimeKey)
  {
  }

  lemma SortTwice(a: seq<Entry>)
    ensures Sort(Sort(a, TimeKey), TimeKey) == Sort(a, TimeKey)
  {
    SortAbsorbsEarlierSort(a, [], TimeKey);
    assert Sort(a, TimeKey) + [] == Sort(a, TimeKey) && a + [] == a;
  }

  /** Each display shows the stable sort of every arrival so far; earlier displays leave no trace. */
  lemma {:induction false} DisplaySortsAllArrivals(ops: seq<CacheOp>)
    ensures Sort(Cache(ops), TimeKey) == Sort(Arrivals(ops), TimeKey)
  {
    if |ops| > 0 {
      var ops' := ops[..|ops| - 1];
      DisplaySortsAllArrivals(ops');
      match ops[|ops| - 1]
      case Push(m) =>
        SortAppend(Cache(ops'), m);
        SortAppend(Arrivals(ops'), m);
      case Display =>
        SortTwice(Cache(ops'));
        assert Arrivals(ops) == Arrivals(ops');
    }
  }
}
