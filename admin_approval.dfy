/** The admin's user-approval controller: list the users awaiting approval,
    approve one, or decline one (delete the user, with everything the foreign
    keys cascade to). */
module AdminApproval {
  import opened Common
  import opened Schema
  import opened Store
  import Chat

  /** `pending`: the users whose `approved` flag is false. */
  function Pending(users: map<UserId, User>): (r: set<UserId>)
    ensures forall u :: u in r <==> u in users && !users[u].approved
  {
    set u | u in users && !users[u].approved
  }

  /** Every user is either pending or, unless it is the caller, among the
      approved users the chat offers the caller; never both. */
  lemma PendingAndApprovedPartition(users: map<UserId, User>, caller: UserId)
    ensures Pending(users) !! Chat.ApprovedUsers(users, caller)
    ensures Pending(users) + Chat.ApprovedUsers(users, caller) == users.Keys - ({caller} - Pending(users))
  {
    var pending := Pending(users);
    var approved := Chat.ApprovedUsers(users, caller);
    forall u | u in users.Keys - ({caller} - pending) ensures u in pending + approved {
      if !users[u].approved {
        assert u in pending;
      } else {
        assert u != caller;
      }
    }
  }

  /** The user row after `approved = true; save()`: a row that is already
      approved is not dirty, so nothing is written; otherwise `updated_at` is
      refreshed. */
  function ApprovedRow(u: User, now: Timestamp): (r: User)
    ensures r.approved && r.id == u.id
    ensures u.approved ==> r == u
    ensures !u.approved ==> r.updatedAt == now
  {
    if u.approved then u else u.(approved := true, updatedAt := now)
  }

  /** Approving twice is approving once. */
  lemma ApproveIdempotent(u: User, first: Timestamp, second: Timestamp)
    ensures ApprovedRow(ApprovedRow(u, first), second) == ApprovedRow(u, first)
  {
  }

  /** Approving a user takes exactly that user off the pending list. */
  lemma ApproveLeavesPending(users: map<UserId, User>, id: UserId, now: Timestamp)
    requires id in users
    ensures Pending(users[id := ApprovedRow(users[id], now)]) == Pending(users) - {id}
  {
    var after := users[id := ApprovedRow(users[id], now)];
    forall u | u in Pending(users) - {id} ensures u in Pending(after) {
      assert after[u] == users[u];
    }
  }

  /** `approve($id)`: `findOrFail`, then set the flag and save. */
  method Approve(db: Database, id: nat, now: Timestamp) returns (r: Result<()>)
    requires db.Valid()
    modifies db
    ensures db.Valid()
    ensures id !in old(db.users) <==> r == Err(NotFound)
    ensures id in old(db.users) ==> r == Ok(())
    ensures r.Err? ==> unchanged(db)
    ensures r.Ok? ==>
      && db.users == old(db.users)[id := ApprovedRow(old(db.users)[id], now)]
      && db.conversations == old(db.conversations) && db.messages == old(db.messages)
      && db.books == old(db.books) && db.comments == old(db.comments)
      && db.nextConversationId == old(db.nextConversationId)
      && db.nextMessageId == old(db.nextMessageId) && db.nextCommentId == old(db.nextCommentId)
  {
    if id !in db.users {
      return Err(NotFound);
    }
    db.users := db.users[id := ApprovedRow(db.users[id], now)];
    r := Ok(());
  }

  /** `decline($id)`: `findOrFail`, then delete the user; the database
      removes the user's conversations and messages and clears the references
      to them. */
  method Decline(db: Database, id: nat) returns (r: Result<()>)
    requires db.Valid()
    modifies db
    ensures db.Valid()
    ensures id !in old(db.users) <==> r == Err(NotFound)
    ensures id in old(db.users) ==> r == Ok(())
    ensures r.Err? ==> unchanged(db)
    ensures r.Ok? ==>
      && db.Chat() == DeleteUser(old(db.Chat()), id)
      && db.books == old(db.books) && db.comments == old(db.comments)
      && db.nextConversationId == old(db.nextConversationId)
      && db.nextMessageId == old(db.nextMessageId) && db.nextCommentId == old(db.nextCommentId)
  {
    if id !in db.users {
      return Err(NotFound);
    }
    var after := DeleteUser(db.Chat(), id);
    DeleteUserKeepsConstraints(db.Chat(), id);
    db.users := after.users;
    db.conversations := after.conversations;
    db.messages := after.messages;
    r := Ok(());
  }
}
