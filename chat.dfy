/** The chat controller: listing a user's conversations and a conversation's
    messages, sending a message (finding or creating the conversation for the
    pair, in either order), marking a message read, listing approved users,
    and the saved-messages self-chat. */
module Chat {
  import opened Common
  import opened Schema
  import opened Query
  import opened Store
  import Events
  import Channels

  /** A row of the conversation list. */
  datatype Summary = Summary(conversation: Conversation, otherUser: UserId, lastMessage: Option<Message>)

  /** A conversation's history as `getMessages` and `getSavedMessages` return it. */
  datatype Thread = Thread(conversationId: ConversationId, otherUser: UserId, messages: seq<Message>)

  /** What `sendMessage` answers with, and the event it broadcasts. */
  datatype Sent = Sent(conversationId: ConversationId, otherUser: UserId, message: Message,
                       event: Events.MessageSent)

  /** Row filters and sort keys of the controller's queries. */
  function Between(a: UserId, b: UserId): Conversation -> bool
  {
    (c: Conversation) => Connects(c, a, b)
  }

  function WithPair(one: UserId, two: UserId): Conversation -> bool
  {
    (c: Conversation) => c.userOne == one && c.userTwo == two
  }

  function Including(u: UserId): Conversation -> bool
  {
    (c: Conversation) => Involves(c, u)
  }

  function InConversation(id: ConversationId): Message -> bool
  {
    (m: Message) => m.conversationId == Some(id)
  }

  /** The participant of `c` who is not `caller`: `userTwo` when the caller
      is `userOne`, else `userOne`. */
  function OtherUser(c: Conversation, caller: UserId): (other: UserId)
    requires Involves(c, caller)
    ensures Connects(c, caller, other)
  {
    if c.userOne == caller then c.userTwo else c.userOne
  }

  /** The either-order lookup of `sendMessage`: a conversation stored as
      (a, b) or as (b, a), the first in key order. */
  function FindConversation(conversations: map<ConversationId, Conversation>, a: UserId, b: UserId)
    : (r: Option<ConversationId>)
    ensures r.Some? ==> r.value in conversations && Connects(conversations[r.value], a, b)
    ensures r.None? <==> forall c | c in conversations :: !Connects(conversations[c], a, b)
    ensures r.Some? ==> forall c | c in conversations && Connects(conversations[c], a, b) :: r.value <= c
  {
    var matches := Where(conversations, Between(a, b));
    if matches == {} then None else Some(Least(matches))
  }

  /** The lookup does not care which of the two users asks. */
  lemma FindConversationSymmetric(conversations: map<ConversationId, Conversation>, a: UserId, b: UserId)
    ensures FindConversation(conversations, a, b) == FindConversation(conversations, b, a)
  {
    var ab := FindConversation(conversations, a, b);
    var ba := FindConversation(conversations, b, a);
    if ab.Some? && ba.Some? {
      assert Connects(conversations[ab.value], b, a);
      assert Connects(conversations[ba.value], a, b);
    }
  }

  /** The ordered lookup of `firstOrCreate` on (`user_one_id`, `user_two_id`). */
  function FindOrdered(conversations: map<ConversationId, Conversation>, one: UserId, two: UserId)
    : (r: Option<ConversationId>)
    ensures r.Some? ==>
      r.value in conversations && conversations[r.value].userOne == one && conversations[r.value].userTwo == two
    ensures r.None? <==> forall c | c in conversations ::
      conversations[c].userOne != one || conversations[c].userTwo != two
  {
    var matches := Where(conversations, WithPair(one, two));
    if matches == {} then None else Some(Least(matches))
  }

  /** Under the unique key the ordered lookup finds the one row with that pair. */
  lemma FindOrderedIsTheRowWithThePair(conversations: map<ConversationId, Conversation>, id: ConversationId)
    requires UniqueOrderedPair(conversations) && id in conversations
    ensures FindOrdered(conversations, conversations[id].userOne, conversations[id].userTwo) == Some(id)
  {
    var r := FindOrdered(conversations, conversations[id].userOne, conversations[id].userTwo);
    assert r.Some?;
  }

  /** For one user talking to themself the two lookups agree. */
  lemma SelfLookupsAgree(conversations: map<ConversationId, Conversation>, u: UserId)
    ensures FindConversation(conversations, u, u) == FindOrdered(conversations, u, u)
  {
    assert Where(conversations, Between(u, u)) == Where(conversations, WithPair(u, u));
  }

  /** A conversation that touches no existing pair can be added without a duplicate. */
  lemma InsertKeepsOnePerPair(conversations: map<ConversationId, Conversation>, id: ConversationId,
                              c: Conversation)
    requires OnePerUnorderedPair(conversations) && id !in conversations
    requires forall k | k in conversations :: !Connects(conversations[k], c.userOne, c.userTwo)
    ensures OnePerUnorderedPair(conversations[id := c])
  {
    var after := conversations[id := c];
    forall x, y | x in after && y in after && x != y
      ensures !Connects(after[y], after[x].userOne, after[x].userTwo)
    {
      if x == id {
        assert !Connects(conversations[y], c.userOne, c.userTwo);
      } else if y == id {
        assert !Connects(conversations[x], c.userOne, c.userTwo);
      }
    }
  }

  /** Rewriting a conversation without changing its pair changes no pair count. */
  lemma TouchKeepsPairs(conversations: map<ConversationId, Conversation>, id: ConversationId,
                        c: Conversation)
    requires id in conversations
    requires c.userOne == conversations[id].userOne && c.userTwo == conversations[id].userTwo
    ensures UniqueOrderedPair(conversations) ==> UniqueOrderedPair(conversations[id := c])
    ensures OnePerUnorderedPair(conversations) ==> OnePerUnorderedPair(conversations[id := c])
  {
  }

  /** The conversation list row for `c`, with its last message loaded. */
  function Summarize(c: Conversation, caller: UserId, messages: map<MessageId, Message>): (s: Summary)
    requires Involves(c, caller)
    ensures s.conversation == c && Connects(c, caller, s.otherUser)
    ensures s.lastMessage.Some? <==> c.lastMessage.Some? && c.lastMessage.value in messages
    ensures s.lastMessage.Some? ==> s.lastMessage.value == messages[c.lastMessage.value]
  {
    var last := match c.lastMessage
      case Some(m) => if m in messages then Some(messages[m]) else None
      case None => None;
    Summary(c, OtherUser(c, caller), last)
  }

  /** One list row per conversation, in the same order. */
  function Summaries(rows: seq<Conversation>, caller: UserId, messages: map<MessageId, Message>)
    : (r: seq<Summary>)
    requires forall i | 0 <= i < |rows| :: Involves(rows[i], caller)
    ensures |r| == |rows|
    ensures forall i | 0 <= i < |r| :: r[i].conversation == rows[i]
    ensures forall i | 0 <= i < |r| :: Connects(rows[i], caller, r[i].otherUser)
    ensures forall i | 0 <= i < |r| ::
      (r[i].lastMessage.Some? <==> rows[i].lastMessage.Some? && rows[i].lastMessage.value in messages)
    ensures forall i | 0 <= i < |r| && r[i].lastMessage.Some? ::
      r[i].lastMessage.value == messages[rows[i].lastMessage.value]
  {
    seq(|rows|, i requires 0 <= i < |rows| => Summarize(rows[i], caller, messages))
  }

  /** The list rows name exactly the conversations they were built from. */
  lemma SummariesCover(rows: seq<Conversation>, caller: UserId, messages: map<MessageId, Message>)
    requires forall i | 0 <= i < |rows| :: Involves(rows[i], caller)
    ensures (set s | s in Summaries(rows, caller, messages) :: s.conversation) == (set c | c in rows)
  {
    var r := Summaries(rows, caller, messages);
    forall c | c in rows ensures c in (set s | s in r :: s.conversation) {
      var i :| 0 <= i < |rows| && rows[i] == c;
      assert r[i] in r;
    }
  }

  /** `getConversations`: the caller's conversations, most recently updated first. */
  function GetConversations(t: Tables, caller: UserId): (r: seq<Summary>)
    ensures |r| == |Where(t.conversations, Including(caller))|
    ensures (set s | s in r :: s.conversation) == Matching(t.conversations, Including(caller))
    ensures forall i, j | 0 <= i < j < |r| :: r[i].conversation.updatedAt >= r[j].conversation.updatedAt
    ensures forall i | 0 <= i < |r| :: Connects(r[i].conversation, caller, r[i].otherUser)
    ensures forall i | 0 <= i < |r| ::
      (r[i].lastMessage.Some? <==>
         r[i].conversation.lastMessage.Some? && r[i].conversation.lastMessage.value in t.messages)
    ensures forall i | 0 <= i < |r| && r[i].lastMessage.Some? ::
      r[i].lastMessage.value == t.messages[r[i].conversation.lastMessage.value]
  {
    var key := (c: Conversation) => -(c.updatedAt as int);
    var rows := SortedRows(t.conversations, Including(caller), key);
    SummariesCover(rows, caller, t.messages);
    Summaries(rows, caller, t.messages)
  }

  /** The messages of conversation `c`, oldest first. */
  function ThreadOf(messages: map<MessageId, Message>, c: ConversationId): (r: seq<Message>)
    ensures |r| == |Where(messages, InConversation(c))|
    ensures (set m | m in r) == Matching(messages, InConversation(c))
    ensures forall i | 0 <= i < |r| :: r[i].conversationId == Some(c)
    ensures forall i, j | 0 <= i < j < |r| :: r[i].createdAt <= r[j].createdAt
  {
    SortedRows(messages, InConversation(c), (m: Message) => m.createdAt)
  }

  /** A message created strictly after every other message of its conversation
      is listed last. */
  lemma NewestMessageIsListedLast(messages: map<MessageId, Message>, c: ConversationId, newest: MessageId)
    requires newest in messages && messages[newest].conversationId == Some(c)
    requires forall k | k in messages && messages[k].conversationId == Some(c) && k != newest ::
      messages[k].createdAt < messages[newest].createdAt
    ensures |ThreadOf(messages, c)| > 0
    ensures ThreadOf(messages, c)[|ThreadOf(messages, c)| - 1] == messages[newest]
  {
    GreatestIsListedLast(messages, InConversation(c), (m: Message) => m.createdAt, newest);
  }

  /** A conversation no message points at has an empty history. */
  lemma NoMessagesYet(messages: map<MessageId, Message>, c: ConversationId)
    requires forall k | k in messages :: messages[k].conversationId != Some(c)
    ensures ThreadOf(messages, c) == []
  {
    assert Where(messages, InConversation(c)) == {};
  }

  /** `getMessages`: the conversation's history, for its participants only. */
  function GetMessages(t: Tables, caller: UserId, conversationId: nat): (r: Result<Thread>)
    ensures conversationId !in t.conversations <==> r == Err(NotFound)
    ensures r == Err(Forbidden) <==>
      conversationId in t.conversations && !Involves(t.conversations[conversationId], caller)
    ensures r.Err? ==> r.failure == NotFound || r.failure == Forbidden
    ensures r.Ok? ==>
      && r.value.conversationId == conversationId
      && Connects(t.conversations[conversationId], caller, r.value.otherUser)
      && r.value.messages == ThreadOf(t.messages, conversationId)
  {
    if conversationId !in t.conversations then Err(NotFound)
    else
      var c := t.conversations[conversationId];
      if c.userOne != caller && c.userTwo != caller then Err(Forbidden)
      else Ok(Thread(conversationId, OtherUser(c, caller), ThreadOf(t.messages, conversationId)))
  }

  /** Reading a conversation's history succeeds for exactly those users the
      channel authorisation callback admits for the same conversation id. */
  lemma ReadAccessMatchesChannelAccess(t: Tables, caller: UserId, conversationId: nat)
    ensures GetMessages(t, caller, conversationId).Ok? <==>
            Channels.Authorize(t.conversations, caller, conversationId)
  {
  }

  /** `getApprovedUsers`: every approved user except the caller. */
  function ApprovedUsers(users: map<UserId, User>, caller: UserId): (r: set<UserId>)
    ensures caller !in r
    ensures forall u :: u in r <==> u in users && users[u].approved && u != caller
  {
    set u | u in users && users[u].approved && u != caller
  }

  /** The message row after `is_read = true; save()`: saving a row that is
      already read writes nothing, otherwise `updated_at` is refreshed. */
  function MarkedRead(m: Message, now: Timestamp): (r: Message)
    ensures r.isRead
    ensures r.(isRead := m.isRead, updatedAt := m.updatedAt) == m
    ensures m.isRead ==> r == m
    ensures !m.isRead ==> r.updatedAt == now
  {
    if m.isRead then m else m.(isRead := true, updatedAt := now)
  }

  /** Marking a message read twice is marking it read once. */
  lemma MarkedReadIdempotent(m: Message, first: Timestamp, second: Timestamp)
    ensures MarkedRead(MarkedRead(m, first), second) == MarkedRead(m, first)
  {
  }

  /** The chat tables after one message is sent, the conversation it went to,
      and the message row. */
  datatype Posting = Posting(tables: Tables, conversationId: ConversationId, message: Message)

  /** What `sendMessage` does to the chat tables when validation passes: find
      the conversation between `sender` and `receiver` in either order, or
      create one under `freshConversation`; insert the message under
      `freshMessage`; make it the conversation's last message and touch the
      conversation. */
  function Send(t: Tables, sender: UserId, receiver: UserId, body: string,
                freshConversation: ConversationId, freshMessage: MessageId, now: Timestamp): (p: Posting)
    ensures p.conversationId in p.tables.conversations
    ensures Connects(p.tables.conversations[p.conversationId], sender, receiver)
    ensures p.tables.conversations[p.conversationId].lastMessage == Some(freshMessage)
    ensures p.message == NewMessage(freshMessage, sender, receiver, p.conversationId, body, now)
    ensures p.tables.messages == t.messages[freshMessage := p.message]
    ensures p.tables.users == t.users
  {
    var found := FindConversation(t.conversations, sender, receiver);
    var cid := if found.Some? then found.value else freshConversation;
    var base := if found.Some? then t.conversations
                else t.conversations[cid := NewConversation(cid, sender, receiver, now)];
    var m := NewMessage(freshMessage, sender, receiver, cid, body, now);
    Posting(Tables(t.users, base[cid := base[cid].(lastMessage := Some(freshMessage), updatedAt := now)],
                   t.messages[freshMessage := m]),
            cid, m)
  }

  /** Sending reuses the pair's conversation when there is one and creates
      exactly one otherwise; it adds exactly one unread message, which becomes
      the conversation's last message, and touches no other row. */
  lemma SendEffect(t: Tables, sender: UserId, receiver: UserId, body: string,
                   fc: ConversationId, fm: MessageId, now: Timestamp)
    requires fc !in t.conversations
    ensures var p := Send(t, sender, receiver, body, fc, fm, now);
      var found := FindConversation(t.conversations, sender, receiver);
      && (found.Some? ==>
            && p.conversationId == found.value
            && p.tables.conversations.Keys == t.conversations.Keys
            && p.tables.conversations[p.conversationId] ==
                 t.conversations[p.conversationId].(lastMessage := Some(fm), updatedAt := now))
      && (found.None? ==>
            && p.conversationId == fc
            && p.tables.conversations.Keys == t.conversations.Keys + {fc}
            && p.tables.conversations[fc] == NewConversation(fc, sender, receiver, now).(lastMessage := Some(fm)))
      && (forall c | c in t.conversations && c != p.conversationId ::
            p.tables.conversations[c] == t.conversations[c])
      && Connects(p.tables.conversations[p.conversationId], sender, receiver)
      && p.tables.users == t.users
      && p.tables.messages == t.messages[fm := p.message]
      && !p.message.isRead && p.message.id == fm && p.message.body == body
      && p.message.senderId == sender && p.message.receiverId == receiver
      && p.message.conversationId == Some(p.conversationId)
  {
  }

  /** Sending keeps every schema constraint and the one-conversation-per-pair
      invariant. */
  lemma SendKeepsConstraints(t: Tables, sender: UserId, receiver: UserId, body: string,
                             fc: ConversationId, fm: MessageId, now: Timestamp)
    requires Valid(t) && sender in t.users && receiver in t.users
    requires fc !in t.conversations && fm !in t.messages
    ensures Valid(Send(t, sender, receiver, body, fc, fm, now).tables)
    ensures OnePerUnorderedPair(t.conversations) ==>
      OnePerUnorderedPair(Send(t, sender, receiver, body, fc, fm, now).tables.conversations)
  {
    var found := FindConversation(t.conversations, sender, receiver);
    var p := Send(t, sender, receiver, body, fc, fm, now);
    var base := t;
    if found.None? {
      var created := NewConversation(fc, sender, receiver, now);
      InsertConversationKeepsValid(t, created);
      if OnePerUnorderedPair(t.conversations) {
        InsertKeepsOnePerPair(t.conversations, fc, created);
      }
      base := t.(conversations := t.conversations[fc := created]);
    }
    PostMessageKeepsValid(base, p.conversationId, p.message, now);
    assert p.tables == base.(messages := base.messages[fm := p.message],
      conversations := base.conversations[p.conversationId :=
        base.conversations[p.conversationId].(lastMessage := Some(fm), updatedAt := now)]);
    TouchKeepsPairs(base.conversations, p.conversationId, p.tables.conversations[p.conversationId]);
  }

  /** The channel authorisation callback, given the id of the conversation
      the message went to, admits both the sender and the receiver. */
  lemma SendAuthorizesBoth(t: Tables, sender: UserId, receiver: UserId, body: string,
                           fc: ConversationId, fm: MessageId, now: Timestamp)
    requires fc !in t.conversations
    ensures var p := Send(t, sender, receiver, body, fc, fm, now);
      && Channels.Authorize(p.tables.conversations, sender, p.conversationId)
      && Channels.Authorize(p.tables.conversations, receiver, p.conversationId)
  {
    SendEffect(t, sender, receiver, body, fc, fm, now);
  }

  /** A reply lands in the conversation the message it answers went to. */
  lemma ReplyJoinsTheSameConversation(t: Tables, a: UserId, b: UserId, first: string, second: string,
                                      fc: ConversationId, fm: MessageId, fc2: ConversationId,
                                      fm2: MessageId, now: Timestamp, later: Timestamp)
    requires fc !in t.conversations
    requires fc2 !in Send(t, a, b, first, fc, fm, now).tables.conversations
    ensures var p := Send(t, a, b, first, fc, fm, now);
      Send(p.tables, b, a, second, fc2, fm2, later).conversationId == p.conversationId
  {
    var p := Send(t, a, b, first, fc, fm, now);
    SendEffect(t, a, b, first, fc, fm, now);
    var after := p.tables.conversations;
    var reply := FindConversation(after, b, a);
    assert Connects(after[p.conversationId], b, a);
    assert reply.Some?;
    assert Connects(after[reply.value], a, b);
    assert Send(p.tables, b, a, second, fc2, fm2, later).conversationId == reply.value;
  }

  /** A message sent after every message already stored is the last entry of
      its conversation's history. */
  lemma SendListsMessageLast(t: Tables, sender: UserId, receiver: UserId, body: string,
                             fc: ConversationId, fm: MessageId, now: Timestamp)
    requires fc !in t.conversations && fm !in t.messages
    requires forall k | k in t.messages :: t.messages[k].createdAt < now
    ensures var p := Send(t, sender, receiver, body, fc, fm, now);
      var thread := ThreadOf(p.tables.messages, p.conversationId);
      |thread| > 0 && thread[|thread| - 1] == p.message
  {
    var p := Send(t, sender, receiver, body, fc, fm, now);
    SendEffect(t, sender, receiver, body, fc, fm, now);
    NewestMessageIsListedLast(p.tables.messages, p.conversationId, fm);
  }

  /** `Conversation::create` for the pair (`one`, `two`): a fresh row under the
      next key. */
  method OpenConversation(db: Database, one: UserId, two: UserId, now: Timestamp)
    returns (cid: ConversationId)
    requires db.Valid() && one in db.users && two in db.users
    requires FindOrdered(db.conversations, one, two).None?
    modifies db
    ensures db.Valid()
    ensures cid == old(db.nextConversationId) && cid !in old(db.conversations)
    ensures db.conversations == old(db.conversations)[cid := NewConversation(cid, one, two, now)]
    ensures db.users == old(db.users) && db.messages == old(db.messages)
    ensures db.books == old(db.books) && db.comments == old(db.comments)
    ensures db.nextConversationId == old(db.nextConversationId) + 1
    ensures db.nextMessageId == old(db.nextMessageId) && db.nextCommentId == old(db.nextCommentId)
  {
    cid := db.nextConversationId;
    var created := NewConversation(cid, one, two, now);
    InsertConversationKeepsValid(db.Chat(), created);
    db.nextConversationId := db.nextConversationId + 1;
    db.conversations := db.conversations[cid := created];
  }

  /** `Message::create` in conversation `cid`, followed by the conversation's
      `last_message_id = id; updated_at = now; save()`. */
  method Post(db: Database, cid: ConversationId, sender: UserId, receiver: UserId, body: string,
              now: Timestamp) returns (m: Message)
    requires db.Valid() && cid in db.conversations && sender in db.users && receiver in db.users
    modifies db
    ensures db.Valid()
    ensures m.id == old(db.nextMessageId) && m.id !in old(db.messages)
    ensures m == NewMessage(m.id, sender, receiver, cid, body, now)
    ensures db.messages == old(db.messages)[m.id := m]
    ensures db.conversations ==
      old(db.conversations)[cid := old(db.conversations)[cid].(lastMessage := Some(m.id), updatedAt := now)]
    ensures db.users == old(db.users) && db.books == old(db.books) && db.comments == old(db.comments)
    ensures db.nextMessageId == old(db.nextMessageId) + 1
    ensures db.nextConversationId == old(db.nextConversationId) && db.nextCommentId == old(db.nextCommentId)
  {
    var mid := db.nextMessageId;
    m := NewMessage(mid, sender, receiver, cid, body, now);
    PostMessageKeepsValid(db.Chat(), cid, m, now);
    db.nextMessageId := db.nextMessageId + 1;
    db.messages := db.messages[mid := m];
    db.conversations := db.conversations[cid := db.conversations[cid].(lastMessage := Some(mid), updatedAt := now)];
  }

  /** `sendMessage`: validation, then the steps of `Send`, with the next
      AUTO_INCREMENT keys as the fresh keys; the response carries the message
      and the event broadcast for it. */
  method SendMessage(db: Database, sender: UserId, receiverId: Option<nat>, text: Option<string>,
                     now: Timestamp) returns (r: Result<Sent>)
    requires db.Valid() && sender in db.users
    modifies db
    ensures db.Valid()
    ensures db.users == old(db.users) && db.books == old(db.books) && db.comments == old(db.comments)
    ensures db.nextCommentId == old(db.nextCommentId)
    ensures r.Err? <==> receiverId.None? || receiverId.value !in old(db.users) || !Present(text)
    ensures r.Err? ==> r.failure == Unprocessable && unchanged(db)
    ensures r.Ok? ==>
      var p := Send(old(db.Chat()), sender, receiverId.value, text.value,
                    old(db.nextConversationId), old(db.nextMessageId), now);
      && db.Chat() == p.tables
      && r.value == Sent(p.conversationId, receiverId.value, p.message, Events.NewMessageSent(p.message))
  {
    if receiverId.None? || receiverId.value !in db.users || !Present(text) {
      return Err(Unprocessable);
    }
    var receiver := receiverId.value;
    var found := FindConversation(db.conversations, sender, receiver);
    var cid: ConversationId;
    if found.Some? {
      cid := found.value;
    } else {
      assert FindOrdered(db.conversations, sender, receiver).None?;
      cid := OpenConversation(db, sender, receiver, now);
    }
    var message := Post(db, cid, sender, receiver, text.value, now);
    r := Ok(Sent(cid, receiver, message, Events.NewMessageSent(message)));
  }

  /** `markAsRead`: only the message's receiver may mark it read. */
  method MarkAsRead(db: Database, caller: UserId, messageId: nat, now: Timestamp) returns (r: Result<()>)
    requires db.Valid()
    modifies db
    ensures db.Valid()
    ensures messageId !in old(db.messages) ==> r == Err(NotFound) && unchanged(db)
    ensures messageId in old(db.messages) && old(db.messages)[messageId].receiverId != caller ==>
      r == Err(Forbidden) && unchanged(db)
    ensures messageId in old(db.messages) && old(db.messages)[messageId].receiverId == caller ==>
      && r == Ok(())
      && db.messages == old(db.messages)[messageId := MarkedRead(old(db.messages)[messageId], now)]
      && db.users == old(db.users) && db.conversations == old(db.conversations)
      && db.books == old(db.books) && db.comments == old(db.comments)
      && db.nextConversationId == old(db.nextConversationId)
      && db.nextMessageId == old(db.nextMessageId) && db.nextCommentId == old(db.nextCommentId)
  {
    if messageId !in db.messages {
      return Err(NotFound);
    }
    var message := db.messages[messageId];
    if message.receiverId != caller {
      return Err(Forbidden);
    }
    db.messages := db.messages[messageId := MarkedRead(message, now)];
    r := Ok(());
  }

  /** `getSavedMessages`: first-or-create the caller's (u, u) conversation,
      then its history. */
  method GetSavedMessages(db: Database, user: UserId, now: Timestamp) returns (thread: Thread)
    requires db.Valid() && user in db.users
    modifies db
    ensures db.Valid()
    ensures OnePerUnorderedPair(old(db.conversations)) ==> OnePerUnorderedPair(db.conversations)
    ensures FindOrdered(old(db.conversations), user, user).Some? ==>
      thread.conversationId == FindOrdered(old(db.conversations), user, user).value && unchanged(db)
    ensures FindOrdered(old(db.conversations), user, user).None? ==>
      && thread.conversationId !in old(db.conversations)
      && db.conversations == old(db.conversations)[thread.conversationId :=
           NewConversation(thread.conversationId, user, user, now)]
      && db.users == old(db.users) && db.messages == old(db.messages)
      && db.books == old(db.books) && db.comments == old(db.comments)
      && db.nextMessageId == old(db.nextMessageId) && db.nextCommentId == old(db.nextCommentId)
      && thread.messages == []
    ensures FindOrdered(db.conversations, user, user) == Some(thread.conversationId)
    ensures thread.otherUser == user
    ensures thread.messages == ThreadOf(db.messages, thread.conversationId)
  {
    var found := FindOrdered(db.conversations, user, user);
    var cid: ConversationId;
    if found.Some? {
      cid := found.value;
    } else {
      if OnePerUnorderedPair(db.conversations) {
        SelfLookupsAgree(db.conversations, user);
        InsertKeepsOnePerPair(db.conversations, db.nextConversationId, NewConversation(db.nextConversationId, user, user, now));
      }
      cid := OpenConversation(db, user, user, now);
      NoMessagesYet(db.messages, cid);
    }
    FindOrderedIsTheRowWithThePair(db.conversations, cid);
    thread := Thread(cid, user, ThreadOf(db.messages, cid));
  }

  /** Asking for saved messages twice lands in the same conversation. */
  method SavedMessagesAreStable(db: Database, user: UserId, first: Timestamp, second: Timestamp)
    returns (a: Thread, b: Thread)
    requires db.Valid() && user in db.users
    modifies db
    ensures db.Valid()
    ensures a.conversationId == b.conversationId
  {
    a := GetSavedMessages(db, user, first);
    b := GetSavedMessages(db, user, second);
  }
}
