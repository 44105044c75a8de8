/** The chat tables as the three chat migrations define them: `users` rows
    referenced by `conversations` and `messages`, the ordered-pair unique key on
    conversations, the nullable `conversation_id` and `last_message_id` foreign
    keys, and what the database does to dependent rows when a referenced row
    is deleted or re-keyed. */
module Schema {
  import opened Common

  /** A `users` row, reduced to what the core reads and writes. */
  datatype User = User(id: UserId, approved: bool, updatedAt: Timestamp)

  /** A `conversations` row. */
  datatype Conversation = Conversation(
    id: ConversationId,
    userOne: UserId,
    userTwo: UserId,
    lastMessage: Option<MessageId>,
    createdAt: Timestamp,
    updatedAt: Timestamp)

  /** A `messages` row; `body` is the `message` column. */
  datatype Message = Message(
    id: MessageId,
    senderId: UserId,
    receiverId: UserId,
    conversationId: Option<ConversationId>,
    body: string,
    isRead: bool,
    createdAt: Timestamp,
    updatedAt: Timestamp)

  datatype Tables = Tables(
    users: map<UserId, User>,
    conversations: map<ConversationId, Conversation>,
    messages: map<MessageId, Message>)

  /** `u` is one of the two participants of `c`. */
  predicate Involves(c: Conversation, u: UserId)
  {
    c.userOne == u || c.userTwo == u
  }

  /** `c` is a conversation between `a` and `b`, stored in either order. */
  predicate Connects(c: Conversation, a: UserId, b: UserId)
  {
    (c.userOne == a && c.userTwo == b) || (c.userOne == b && c.userTwo == a)
  }

  /** Every row carries the primary key it is stored under. */
  predicate Keyed(t: Tables)
  {
    && (forall u | u in t.users :: t.users[u].id == u)
    && (forall c | c in t.conversations :: t.conversations[c].id == c)
    && (forall m | m in t.messages :: t.messages[m].id == m)
  }

  /** The unique key over (`user_one_id`, `user_two_id`), in that order. */
  predicate UniqueOrderedPair(conversations: map<ConversationId, Conversation>)
  {
    forall x, y | x in conversations && y in conversations && x != y ::
      conversations[x].userOne != conversations[y].userOne
      || conversations[x].userTwo != conversations[y].userTwo
  }

  /** Both participant columns reference existing users. */
  predicate ParticipantsExist(t: Tables)
  {
    forall c | c in t.conversations ::
      t.conversations[c].userOne in t.users && t.conversations[c].userTwo in t.users
  }

  /** A non-null `last_message_id` references an existing message. */
  predicate LastMessagesExist(t: Tables)
  {
    forall c | c in t.conversations && t.conversations[c].lastMessage.Some? ::
      t.conversations[c].lastMessage.value in t.messages
  }

  /** `sender_id` and `receiver_id` reference existing users. */
  predicate MessageUsersExist(t: Tables)
  {
    forall m | m in t.messages ::
      t.messages[m].senderId in t.users && t.messages[m].receiverId in t.users
  }

  /** A non-null `conversation_id` references an existing conversation. */
  predicate MessageConversationsExist(t: Tables)
  {
    forall m | m in t.messages && t.messages[m].conversationId.Some? ::
      t.messages[m].conversationId.value in t.conversations
  }

  /** Every constraint the schema enforces. */
  predicate Valid(t: Tables)
  {
    && Keyed(t)
    && UniqueOrderedPair(t.conversations)
    && ParticipantsExist(t)
    && LastMessagesExist(t)
    && MessageUsersExist(t)
    && MessageConversationsExist(t)
  }

  /** At most one conversation per unordered pair of users: stronger than
      the schema's key, kept by the application's either-order lookup. */
  predicate OnePerUnorderedPair(conversations: map<ConversationId, Conversation>)
  {
    forall x, y | x in conversations && y in conversations && x != y ::
      !Connects(conversations[y], conversations[x].userOne, conversations[x].userTwo)
  }

  /** The application's invariant implies the schema's key... */
  lemma OnePerUnorderedPairIsUniqueOrderedPair(conversations: map<ConversationId, Conversation>)
    requires OnePerUnorderedPair(conversations)
    ensures UniqueOrderedPair(conversations)
  {
    forall x, y | x in conversations && y in conversations && x != y
      ensures conversations[x].userOne != conversations[y].userOne
           || conversations[x].userTwo != conversations[y].userTwo
    {
      assert !Connects(conversations[y], conversations[x].userOne, conversations[x].userTwo);
    }
  }

  /** ...but not the other way round: the key admits (1, 2) next to (2, 1). */
  lemma UniqueOrderedPairAdmitsSwappedDuplicate()
    ensures
      var conversations := map[
        1 := Conversation(1, 1, 2, None, 0, 0),
        2 := Conversation(2, 2, 1, None, 0, 0)];
      UniqueOrderedPair(conversations) && !OnePerUnorderedPair(conversations)
  {
    var conversations := map[
      1 := Conversation(1, 1, 2, None, 0, 0),
      2 := Conversation(2, 2, 1, None, 0, 0)];
    assert Connects(conversations[2], conversations[1].userOne, conversations[1].userTwo);
  }

  /** The row `Conversation::create` inserts: `last_message_id` takes its
      default, null. */
  function NewConversation(id: ConversationId, one: UserId, two: UserId, now: Timestamp): (c: Conversation)
    ensures c.lastMessage == None && c.id == id && c.userOne == one && c.userTwo == two
    ensures c.createdAt == now && c.updatedAt == now
  {
    Conversation(id, one, two, None, now, now)
  }

  /** Adding a conversation under a fresh key, between existing users, with
      no last message and a pair not yet stored in that order, keeps every
      schema constraint. */
  lemma InsertConversationKeepsValid(t: Tables, c: Conversation)
    requires Valid(t) && c.id !in t.conversations
    requires c.userOne in t.users && c.userTwo in t.users && c.lastMessage == None
    requires forall k | k in t.conversations ::
      t.conversations[k].userOne != c.userOne || t.conversations[k].userTwo != c.userTwo
    ensures Valid(t.(conversations := t.conversations[c.id := c]))
  {
  }

  /** The row `Message::create` inserts for a sent message: unread, whether
      from the explicit `is_read => false` or the column default. */
  function NewMessage(id: MessageId, sender: UserId, receiver: UserId, conversation: ConversationId,
                      body: string, now: Timestamp): (m: Message)
    ensures !m.isRead && m.id == id && m.body == body
    ensures m.senderId == sender && m.receiverId == receiver && m.conversationId == Some(conversation)
    ensures m.createdAt == now && m.updatedAt == now
  {
    Message(id, sender, receiver, Some(conversation), body, false, now, now)
  }

  /** Adding message `m` to conversation `cid` under a fresh key and making
      it the conversation's last message keeps every schema constraint. */
  lemma PostMessageKeepsValid(t: Tables, cid: ConversationId, m: Message, now: Timestamp)
    requires Valid(t) && cid in t.conversations && m.id !in t.messages
    requires m.senderId in t.users && m.receiverId in t.users && m.conversationId == Some(cid)
    ensures Valid(t.(messages := t.messages[m.id := m],
                     conversations := t.conversations[cid :=
                       t.conversations[cid].(lastMessage := Some(m.id), updatedAt := now)]))
  {
  }

  /** A conversation row whose `last_message_id` is cleared when it names a
      deleted message (ON DELETE SET NULL). */
  function ForgetLastMessage(c: Conversation, gone: set<MessageId>): (r: Conversation)
    ensures r.lastMessage.Some? ==> r.lastMessage.value !in gone
    ensures r.lastMessage == c.lastMessage || r.lastMessage == None
    ensures r.lastMessage == None <==> c.lastMessage == None || c.lastMessage.value in gone
    ensures r.(lastMessage := c.lastMessage) == c
  {
    if c.lastMessage.Some? && c.lastMessage.value in gone then c.(lastMessage := None) else c
  }

  /** A message row whose `conversation_id` is cleared when it names a
      deleted conversation (ON DELETE SET NULL). */
  function Detach(m: Message, gone: set<ConversationId>): (r: Message)
    ensures r.conversationId.Some? ==> r.conversationId.value !in gone
    ensures r.conversationId == m.conversationId || r.conversationId == None
    ensures r.conversationId == None <==> m.conversationId == None || m.conversationId.value in gone
    ensures r.(conversationId := m.conversationId) == m
  {
    if m.conversationId.Some? && m.conversationId.value in gone then m.(conversationId := None) else m
  }

  /** Deleting user `u`: every conversation and every message that names `u`
      goes with it (ON DELETE CASCADE), and the rows that pointed at those go
      null (ON DELETE SET NULL). */
  function DeleteUser(t: Tables, u: UserId): (r: Tables)
    ensures r.users == t.users - {u}
    ensures forall c | c in t.conversations :: c in r.conversations <==> !Involves(t.conversations[c], u)
    ensures forall m | m in t.messages ::
      m in r.messages <==> t.messages[m].senderId != u && t.messages[m].receiverId != u
    ensures r.conversations.Keys <= t.conversations.Keys && r.messages.Keys <= t.messages.Keys
    ensures forall c | c in r.conversations ::
      r.conversations[c].(lastMessage := t.conversations[c].lastMessage) == t.conversations[c]
    ensures forall m | m in r.messages ::
      r.messages[m].(conversationId := t.messages[m].conversationId) == t.messages[m]
    ensures forall c | c in r.conversations ::
      r.conversations[c].lastMessage ==
        (if t.conversations[c].lastMessage.Some? && t.conversations[c].lastMessage.value in t.messages
            && t.conversations[c].lastMessage.value !in r.messages
         then None else t.conversations[c].lastMessage)
    ensures forall m | m in r.messages ::
      r.messages[m].conversationId ==
        (if t.messages[m].conversationId.Some? && t.messages[m].conversationId.value in t.conversations
            && t.messages[m].conversationId.value !in r.conversations
         then None else t.messages[m].conversationId)
  {
    var goneConversations := set c | c in t.conversations && Involves(t.conversations[c], u);
    var goneMessages := set m | m in t.messages &&
      (t.messages[m].senderId == u || t.messages[m].receiverId == u);
    Tables(
      t.users - {u},
      map c | c in t.conversations && c !in goneConversations ::
        ForgetLastMessage(t.conversations[c], goneMessages),
      map m | m in t.messages && m !in goneMessages :: Detach(t.messages[m], goneConversations))
  }

  /** Deleting a user keeps every schema constraint, and the application's
      one-conversation-per-pair invariant. */
  lemma DeleteUserKeepsConstraints(t: Tables, u: UserId)
    requires Valid(t)
    ensures Valid(DeleteUser(t, u))
    ensures OnePerUnorderedPair(t.conversations) ==> OnePerUnorderedPair(DeleteUser(t, u).conversations)
  {
    DeleteUserKeepsKeys(t, u);
    DeleteUserKeepsParticipants(t, u);
    DeleteUserKeepsLastMessages(t, u);
    DeleteUserKeepsMessageConversations(t, u);
  }

  lemma DeleteUserKeepsKeys(t: Tables, u: UserId)
    requires Valid(t)
    ensures Keyed(DeleteUser(t, u)) && UniqueOrderedPair(DeleteUser(t, u).conversations)
    ensures MessageUsersExist(DeleteUser(t, u))
  {
  }

  lemma DeleteUserKeepsParticipants(t: Tables, u: UserId)
    requires ParticipantsExist(t)
    ensures ParticipantsExist(DeleteUser(t, u))
  {
    var r := DeleteUser(t, u);
    forall c | c in r.conversations
      ensures r.conversations[c].userOne in r.users && r.conversations[c].userTwo in r.users
    {
      assert !Involves(t.conversations[c], u);
    }
  }

  lemma DeleteUserKeepsLastMessages(t: Tables, u: UserId)
    requires LastMessagesExist(t)
    ensures LastMessagesExist(DeleteUser(t, u))
  {
    var r := DeleteUser(t, u);
    forall c | c in r.conversations && r.conversations[c].lastMessage.Some?
      ensures r.conversations[c].lastMessage.value in r.messages
    {
      assert r.conversations[c] == ForgetLastMessage(t.conversations[c], set m | m in t.messages &&
        (t.messages[m].senderId == u || t.messages[m].receiverId == u));
    }
  }

  lemma DeleteUserKeepsMessageConversations(t: Tables, u: UserId)
    requires MessageConversationsExist(t)
    ensures MessageConversationsExist(DeleteUser(t, u))
  {
    var r := DeleteUser(t, u);
    forall m | m in r.messages && r.messages[m].conversationId.Some?
      ensures r.messages[m].conversationId.value in r.conversations
    {
      assert r.messages[m] == Detach(t.messages[m], set c | c in t.conversations && Involves(t.conversations[c], u));
    }
  }

  /** After user `u` is deleted, no row anywhere refers to `u`. */
  lemma DeleteUserLeavesNoTrace(t: Tables, u: UserId)
    requires Valid(t)
    ensures var r := DeleteUser(t, u);
      && u !in r.users
      && (forall c | c in r.conversations :: !Involves(r.conversations[c], u))
      && (forall m | m in r.messages :: r.messages[m].senderId != u && r.messages[m].receiverId != u)
  {
    var r := DeleteUser(t, u);
    forall c | c in r.conversations ensures !Involves(r.conversations[c], u) {
      assert r.conversations[c].userOne == t.conversations[c].userOne;
      assert r.conversations[c].userTwo == t.conversations[c].userTwo;
    }
    forall m | m in r.messages ensures r.messages[m].senderId != u && r.messages[m].receiverId != u {
      assert r.messages[m].senderId == t.messages[m].senderId;
      assert r.messages[m].receiverId == t.messages[m].receiverId;
    }
  }

  /** Deleting conversation `c`: its messages stay, with `conversation_id`
      set to null. */
  function DeleteConversation(t: Tables, c: ConversationId): (r: Tables)
    ensures r.users == t.users
    ensures r.conversations == t.conversations - {c}
    ensures r.messages.Keys == t.messages.Keys
    ensures forall m | m in r.messages ::
      r.messages[m].conversationId == (if t.messages[m].conversationId == Some(c) then None
                                       else t.messages[m].conversationId)
    ensures forall m | m in r.messages ::
      r.messages[m].(conversationId := t.messages[m].conversationId) == t.messages[m]
    ensures Valid(t) ==> Valid(r)
    ensures OnePerUnorderedPair(t.conversations) ==> OnePerUnorderedPair(r.conversations)
  {
    Tables(
      t.users,
      t.conversations - {c},
      map m | m in t.messages :: Detach(t.messages[m], {c}))
  }

  /** Deleting message `m`: a conversation whose last message it was keeps
      going with `last_message_id` set to null. */
  function DeleteMessage(t: Tables, m: MessageId): (r: Tables)
    ensures r.users == t.users
    ensures r.messages == t.messages - {m}
    ensures r.conversations.Keys == t.conversations.Keys
    ensures forall c | c in r.conversations ::
      r.conversations[c].lastMessage == (if t.conversations[c].lastMessage == Some(m) then None
                                         else t.conversations[c].lastMessage)
    ensures forall c | c in r.conversations ::
      r.conversations[c].(lastMessage := t.conversations[c].lastMessage) == t.conversations[c]
    ensures Valid(t) ==> Valid(r)
  {
    Tables(
      t.users,
      map c | c in t.conversations :: ForgetLastMessage(t.conversations[c], {m}),
      t.messages - {m})
  }

  /** Changing the primary key of message `from` to `to`: conversations that
      named it as their last message follow it (ON UPDATE CASCADE). */
  function RekeyMessage(t: Tables, from: MessageId, to: MessageId): (r: Tables)
    requires from in t.messages && to !in t.messages
    ensures r.users == t.users
    ensures r.messages.Keys == t.messages.Keys - {from} + {to}
    ensures r.messages[to] == t.messages[from].(id := to)
    ensures forall m | m in r.messages && m != to :: r.messages[m] == t.messages[m]
    ensures r.conversations.Keys == t.conversations.Keys
    ensures forall c | c in r.conversations ::
      r.conversations[c].(lastMessage := t.conversations[c].lastMessage) == t.conversations[c]
    ensures forall c | c in r.conversations ::
      r.conversations[c].lastMessage == (if t.conversations[c].lastMessage == Some(from) then Some(to)
                                         else t.conversations[c].lastMessage)
    ensures Valid(t) ==> Valid(r)
  {
    Tables(
      t.users,
      map c | c in t.conversations ::
        if t.conversations[c].lastMessage == Some(from)
        then t.conversations[c].(lastMessage := Some(to))
        else t.conversations[c],
      (t.messages - {from})[to := t.messages[from].(id := to)])
  }
}
