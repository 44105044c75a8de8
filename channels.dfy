/** The authorisation callback of the private conversation channel: a user
    may subscribe when the conversation exists and they take part in it.
    The one-minute cache in front of the lookup is not modelled. */
module Channels {
  import opened Common
  import opened Schema

  /** The decision for `user` asking to join the channel of `conversationId`. */
  function Authorize(conversations: map<ConversationId, Conversation>, user: UserId,
                     conversationId: nat): (allowed: bool)
    ensures allowed <==> conversationId in conversations
                         && (user == conversations[conversationId].userOne
                             || user == conversations[conversationId].userTwo)
  {
    if conversationId !in conversations then false
    else
      var c := conversations[conversationId];
      user in [c.userOne, c.userTwo]
  }

  /** On a saved-messages conversation only its owner is admitted. */
  lemma SelfChatAdmitsOnlyOwner(conversations: map<ConversationId, Conversation>,
                                conversationId: nat, owner: UserId, user: UserId)
    requires conversationId in conversations
    requires conversations[conversationId].userOne == owner == conversations[conversationId].userTwo
    ensures Authorize(conversations, user, conversationId) <==> user == owner
  {
  }

  /** The decision depends on nothing but the user and the stored participant pair. */
  lemma DecisionDependsOnlyOnPair(before: map<ConversationId, Conversation>,
                                  after: map<ConversationId, Conversation>,
                                  user: UserId, conversationId: nat)
    requires conversationId in before <==> conversationId in after
    requires conversationId in before ==>
      before[conversationId].userOne == after[conversationId].userOne
      && before[conversationId].userTwo == after[conversationId].userTwo
    ensures Authorize(before, user, conversationId) == Authorize(after, user, conversationId)
  {
  }
}
