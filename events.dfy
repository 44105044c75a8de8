/** The `MessageSent` broadcast event: built from a message, published on
    the private channel `conversation.<id>` under the name "MessageSent".
    Its payload reads the message's `text` attribute, which no column
    provides (the body is the `message` column), so the payload's text is
    always null. */
module Events {
  import opened Common
  import opened Schema

  /** The event: the message, and the conversation id copied from it when
      the event is built. */
  datatype MessageSent = MessageSent(message: Message, conversationId: Option<ConversationId>)

  datatype Channel = PrivateChannel(name: string)

  /** The `message` object of the payload. */
  datatype PayloadMessage = PayloadMessage(
    id: MessageId,
    text: Option<string>,
    senderId: UserId,
    receiverId: UserId,
    conversationId: Option<ConversationId>,
    createdAt: Timestamp)

  /** The payload: a single top-level key, `message`. */
  datatype Payload = Payload(message: PayloadMessage)

  const ChannelPrefix: string := "conversation."

  /** The event built for message `m`. */
  function NewMessageSent(m: Message): (e: MessageSent)
    ensures e.message == m && e.conversationId == m.conversationId
  {
    MessageSent(m, m.conversationId)
  }

  /** The channel name: the prefix, then the conversation id in decimal
      (nothing when the id is null, as PHP concatenates null). */
  function BroadcastOn(e: MessageSent): (ch: Channel)
    ensures |ch.name| >= |ChannelPrefix| && ch.name[..|ChannelPrefix|] == ChannelPrefix
    ensures e.conversationId.None? <==> ch.name == ChannelPrefix
    ensures e.conversationId.Some? ==>
      var suffix := ch.name[|ChannelPrefix|..];
      && AllDigits(suffix) && DigitsValue(suffix) == e.conversationId.value
      && (|suffix| == 1 || suffix[0] != '0')
  {
    match e.conversationId
    case None => PrivateChannel(ChannelPrefix)
    case Some(id) =>
      NatToStringRoundTrip(id);
      var name := ChannelPrefix + NatToString(id);
      assert name[|ChannelPrefix|..] == NatToString(id);
      PrivateChannel(name)
  }

  /** Events on the same channel are about the same conversation. */
  lemma ChannelIdentifiesConversation(e1: MessageSent, e2: MessageSent)
    requires BroadcastOn(e1) == BroadcastOn(e2)
    ensures e1.conversationId == e2.conversationId
  {
    var name := BroadcastOn(e1).name;
    if e1.conversationId.Some? && e2.conversationId.Some? {
      assert DigitsValue(name[|ChannelPrefix|..]) == e1.conversationId.value;
    }
  }

  /** The event name clients listen for. */
  function BroadcastAs(e: MessageSent): (name: string)
    ensures name == "MessageSent"
  {
    "MessageSent"
  }

  /** The data sent to subscribers. */
  function BroadcastWith(e: MessageSent): (p: Payload)
    ensures p.message.id == e.message.id
    ensures p.message.senderId == e.message.senderId && p.message.receiverId == e.message.receiverId
    ensures p.message.conversationId == e.message.conversationId
    ensures p.message.createdAt == e.message.createdAt
    ensures p.message.text == None
  {
    Payload(PayloadMessage(
      e.message.id,
      None,
      e.message.senderId,
      e.message.receiverId,
      e.message.conversationId,
      e.message.createdAt))
  }

  /** Subscribers never receive the text of a message. */
  lemma PayloadNeverCarriesBody(m: Message)
    ensures BroadcastWith(NewMessageSent(m)).message.text != Some(m.body)
  {
  }
}
