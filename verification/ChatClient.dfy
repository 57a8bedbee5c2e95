/**
 The chat client with its caches, as front/script.js keeps them.

 `messageCache` files every private message under its sender and its receiver;
 `publicCache` is sorted in place whenever the room is displayed. Two ghost logs
 record what was sent and received. Every method is a step of `ChatModel`.
 */
module ChatClient {
  import opened Common
  import opened StableSort
  import opened ChatModel
  import opened ChatViews

  class Client {
    const userId: int
    const username: Option<string>
    var inFriendChat: bool                  // currentChatType
    var currentChat: int
    var messageId: nat
    var content: Content                    // the implicit global of handleMessage
    var messageCache: map<int, seq<Entry>>
    var publicCache: seq<Entry>
    var chatMessages: seq<Bubble>
    ghost var log: seq<Entry>
    ghost var publicLog: seq<Entry>

    ghost predicate Valid()
      reads this
    {
      && (!inFriendChat ==> currentChat == 0)
      && IndexAgrees(messageCache, log)
      && Sort(publicCache, TimeKey) == Sort(publicLog, TimeKey)
    }

    ghost function View(): State
      reads this
    {
      State(userId, username, if inFriendChat then Friend(currentChat) else PublicRoom, messageId, content,
            log, publicLog, chatMessages)
    }

    /** Just logged in: the room is open and nothing was received yet. */
    constructor (userId: int, username: Option<string>, messageId: nat, content: Content)
      ensures Valid()
      ensures View() == State(userId, username, PublicRoom, messageId, content, [], [], [])
    {
      this.userId, this.username, this.messageId, this.content := userId, username, messageId, content;
      inFriendChat, currentChat := false, 0;
      messageCache, publicCache, chatMessages := map[], [], [];
      log, publicLog := [], [];
    }

    method GenerateMessageId() returns (id: nat)
      modifies this`messageId
      ensures id == old(messageId) && messageId == id + 1
    {
      id := messageId;
      messageId := messageId + 1;
    }

    method AddMessageToCache(m: Entry)
      requires Valid()
      modifies this`messageCache, this`log
      ensures Valid() && log == old(log) + [m]
    {
      IndexAgreesStep(messageCache, log, m);
      messageCache := messageCache[m.fromUserId := Bucket(messageCache, m.fromUserId) + [m]];
      messageCache := messageCache[m.toUserId := Bucket(messageCache, m.toUserId) + [m]];
      log := log + [m];
    }

    method AddMessageToPublicCache(m: Entry)
      requires Valid()
      modifies this`publicCache, this`publicLog
      ensures Valid() && publicLog == old(publicLog) + [m] && publicCache == old(publicCache) + [m]
    {
      SortAppend(publicCache, m);
      SortAppend(publicLog, m);
      publicCache := publicCache + [m];
      publicLog := publicLog + [m];
    }

    method AddMessageToChat(b: Bubble)
      modifies this`chatMessages
      ensures chatMessages == old(chatMessages) + [b]
    {
      chatMessages := chatMessages + [b];
    }

    method DisplayPublicMessages()
      requires Valid() && chatMessages == []
      modifies this`publicCache, this`chatMessages
      ensures Valid() && chatMessages == PublicView(publicLog, userId)
      ensures publicCache == Sort(old(publicCache), TimeKey)
      ensures InTimeOrder(publicCache, publicLog) && Shows(chatMessages, publicCache, userId)
    {
      SortTwice(publicCache);
      publicCache := SortedCopy(publicCache, TimeKey);
      ShowPublic(publicCache);
      TimeOrderExact(publicCache, publicLog);
      ShowsExact(chatMessages, publicCache, userId);
    }

    /** The `forEach` that shows the sorted room. */
    method ShowPublic(messages: seq<Entry>)
      requires chatMessages == []
      modifies this`chatMessages
      ensures chatMessages == Map(messages, PublicBubble(userId))
    {
      var i := 0;
      while i < |messages|
        invariant 0 <= i <= |messages|
        invariant chatMessages == Map(messages[..i], PublicBubble(userId))
      {
        var m := messages[i];
        assert messages[..i + 1] == messages[..i] + [m];
        MapAppend(messages[..i], m, PublicBubble(userId));
        if m.fromUserId == userId {
          AddMessageToChat(Bubble(m.username, m.text, true));
        } else {
          AddMessageToChat(Bubble(m.username, m.text, false));
        }
        i := i + 1;
      }
      assert messages[..i] == messages;
    }

    /** The `forEach` that picks a bucket's messages to one user. */
    method CollectFrom(k: int, toUserId: int, own: bool, combined: seq<Tagged>) returns (r: seq<Tagged>)
      ensures r == combined + Collect(Bucket(messageCache, k), toUserId, own)
    {
      r := combined;
      if k in messageCache {
        var bucket := messageCache[k];
        var i := 0;
        while i < |bucket|
          invariant 0 <= i <= |bucket|
          invariant r == combined + Collect(bucket[..i], toUserId, own)
        {
          assert bucket[..i + 1][..i] == bucket[..i];
          if bucket[i].toUserId == toUserId {
            r := r + [Tagged(bucket[i], own)];
          }
          i := i + 1;
        }
        assert bucket[..i] == bucket;
      }
    }

    method DisplayCachedMessages(friendId: int)
      requires Valid() && chatMessages == []
      modifies this`chatMessages
      ensures chatMessages == ConversationView(log, userId, friendId)
      ensures friendId != userId ==> IsConversation(chatMessages, log, userId, friendId)
    {
      var combined := CollectFrom(userId, friendId, true, []);
      combined := CollectFrom(friendId, userId, false, combined);
      assert Bucket(messageCache, userId) == Filed(log, userId);
      assert Bucket(messageCache, friendId) == Filed(log, friendId);
      assert combined == Combined(log, userId, friendId);
      combined := SortedCopy(combined, IdKey);
      ShowTagged(combined);
      if friendId != userId {
        ConversationExact(chatMessages, log, userId, friendId);
      }
    }

    /** The `forEach` that shows a rebuilt conversation. */
    method ShowTagged(messages: seq<Tagged>)
      requires chatMessages == []
      modifies this`chatMessages
      ensures chatMessages == Map(messages, BubbleOf)
    {
      var i := 0;
      while i < |messages|
        invariant 0 <= i <= |messages|
        invariant chatMessages == Map(messages[..i], BubbleOf)
      {
        var m := messages[i];
        assert messages[..i + 1] == messages[..i] + [m];
        MapAppend(messages[..i], m, BubbleOf);
        AddMessageToChat(Bubble(m.entry.username, m.entry.text, m.isOwnMessage));
        i := i + 1;
      }
      assert messages[..i] == messages;
    }

    // ---- Events -------------------------------------------------------------

    /** The chat form. */
    method OnSubmit(text: string, timestamp: int)
      requires Valid()
      modifies this
      ensures Valid() && View() == Next(old(View()), Submit(text, timestamp))
      ensures OnlyWhiteSpace(text) ==> View() == old(View())
      ensures !OnlyWhiteSpace(text) ==>
                && messageId == old(messageId) + 1
                && chatMessages == old(chatMessages) + [Bubble(username, Some(text), true)]
                && var m := Entry(userId, currentChat, old(messageId), username, Some(text), timestamp);
                   if currentChat != 0 then log == old(log) + [m] && publicLog == old(publicLog)
                   else publicLog == old(publicLog) + [m] && log == old(log)
    {
      hide Sort, Filed;
      BlankExactly(text);
      if !Blank(text) {
        if currentChat != 0 {
          var id := GenerateMessageId();
          AddMessageToCache(Entry(userId, currentChat, id, username, Some(text), timestamp));
        } else {
          var id := GenerateMessageId();
          AddMessageToPublicCache(Entry(userId, currentChat, id, username, Some(text), timestamp));
        }
        AddMessageToChat(Bubble(username, Some(text), true));
      }
    }

    /** The TEXT branch of `handleMessage`. */
    method OnText(msg: Incoming)
      requires Valid()
      modifies this
      ensures Valid() && View() == Next(old(View()), Text(msg))
      ensures content == if msg.content.Some? then msg.content.value else old(content)
      ensures log == old(log) + [Entry(msg.fromUserId, msg.toUserId, msg.messageId,
                                       content.username, content.text, msg.timestamp)]
      ensures if msg.fromUserId == currentChat
              then exists name :: IsLiveName(name, content.username)
                                  && chatMessages == old(chatMessages) + [Bubble(name, content.text, false)]
              else chatMessages == old(chatMessages)
    {
      hide Sort, Filed;
      if msg.content.Some? {
        content := msg.content.value;
      }
      AddMessageToCache(Entry(msg.fromUserId, msg.toUserId, msg.messageId,
                              content.username, content.text, msg.timestamp));
      if msg.fromUserId == currentChat {
        var name := if Named(content.username) then content.username else Some(UNKNOWN_NAME);
        assert IsLiveName(name, content.username);
        AddMessageToChat(Bubble(name, content.text, false));
      }
    }

    /** The GROUP_CHAT branch of `handleMessage`. */
    method OnGroupChat(msg: Incoming)
      requires Valid()
      modifies this
      ensures Valid() && View() == Next(old(View()), Group(msg))
      ensures content == if msg.content.Some? then msg.content.value else old(content)
      ensures publicLog == old(publicLog) + [Entry(msg.fromUserId, msg.toUserId, msg.messageId,
                                                   content.username, content.text, msg.timestamp)]
      ensures if msg.toUserId == currentChat
              then exists name :: IsLiveName(name, content.username)
                                  && chatMessages == old(chatMessages) + [Bubble(name, content.text, false)]
              else chatMessages == old(chatMessages)
    {
      hide Sort, Filed;
      if msg.content.Some? {
        content := msg.content.value;
      }
      if msg.toUserId == currentChat {
        var name := if Named(content.username) then content.username else Some(UNKNOWN_NAME);
        assert IsLiveName(name, content.username);
        AddMessageToChat(Bubble(name, content.text, false));
      }
      AddMessageToPublicCache(Entry(msg.fromUserId, msg.toUserId, msg.messageId,
                                    content.username, content.text, msg.timestamp));
      assert publicLog == Next(old(View()), Group(msg)).publicLog;
      assert chatMessages == Next(old(View()), Group(msg)).screen;
    }

    /** A click on a friend. */
    method OnOpenFriend(friendId: int)
      requires Valid()
      modifies this
      ensures Valid() && View() == Next(old(View()), OpenFriend(friendId))
      ensures inFriendChat && currentChat == friendId
      ensures friendId != userId ==> IsConversation(chatMessages, log, userId, friendId)
    {
      hide Sort, Filed;
      chatMessages := [];
      inFriendChat := true;
      currentChat := friendId;
      DisplayCachedMessages(currentChat);
    }

    /** A click on the public room. */
    method OnOpenPublic()
      requires Valid()
      modifies this
      ensures Valid() && View() == Next(old(View()), OpenPublic)
      ensures !inFriendChat && currentChat == 0
      ensures InTimeOrder(publicCache, publicLog) && Shows(chatMessages, publicCache, userId)
    {
      hide Sort, Filed;
      chatMessages := [];
      inFriendChat := false;
      currentChat := 0;
      DisplayPublicMessages();
    }

    /** `sendMessage`: friend list, friend requests, logout. */
    method OnControl()
      requires Valid()
      modifies this
      ensures Valid() && View() == Next(old(View()), Control)
      ensures View() == old(View()).(nextId := old(messageId) + 1)
    {
      hide Sort, Filed;
      var _ := GenerateMessageId();
    }
  }
}
