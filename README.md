# Chat, approval and book backend — a Dafny model

This project models the server side of a reading-and-chat app built on
Laravel.

Users can chat one to one; the list of users to start a chat with shows
only approved ones. A conversation joins two users. Its messages are stored
with a sender, a receiver and a read flag. The conversation points at its
latest message. Each new message is broadcast on a private channel named
after its conversation. A separate authorisation callback, given a
conversation id, admits exactly the two participants of that conversation.
A user may also keep a "saved messages" conversation with themself.

An administrator lists the users waiting for approval. They approve a user
or decline one; declining deletes the user. Books can be listed with public
URLs for their PDF and EPUB files, and downloaded in either format. Readers
leave comments on a book.

## Structure

- **`common.dfy` (Common)**
  - Identifiers, `Option` and `Result`, and the failures a request can end in.
  - The PHP and Laravel rules the controllers rely on: PHP truthiness of a
    string (null, `""` and `"0"` are false) and the `required` rule (the value
    must be present and not blank once trimmed).
  - The decimal form of an integer, with its round trip proved.
- **`query.dfy` (Query)**
  - The two query shapes the controllers use, over a table modelled as a map
    from primary key to row.
  - `where(...)->orderBy(...)->get()` becomes `SortedRows`. It returns each
    matching row once, in ascending order of the sort column. Rows with equal
    sort values are listed by primary key, an order the database does not
    promise.
  - `where(...)->first()` becomes `Least`.
- **`schema.dfy` (Schema)**
  - The three chat migrations: the `users`, `conversations` and `messages`
    rows.
  - The constraints the migrations declare: the foreign keys and the unique
    (`user_one_id`, `user_two_id`) key.
  - What the database does to dependent rows when a row is deleted (ON DELETE
    CASCADE and SET NULL) or when a message is re-keyed (ON UPDATE CASCADE).
  - The invariant the application keeps on top of the schema: at most one
    conversation per unordered pair of users.
- **`store.dfy` (Store)**
  - The database the controllers share. It is a class with one map field per
    table, plus the AUTO_INCREMENT counters.
  - Its `Valid()` invariant is the schema's constraints, plus every counter
    being greater than every key already in use.
- **`channels.dfy` (Channels)**: the authorisation callback of the private
  conversation channel.
- **`events.dfy` (Events)**: the `MessageSent` event. It covers the channel it
  is broadcast on, its name and its payload.
  - The payload reads an attribute `text` that no column provides (the body is
    in the `message` column), so the broadcast text is always null.
  - The model keeps that behaviour as it is.
- **`chat.dfy` (Chat)**: the six actions of the chat controller.
  - Reads are functions over the tables.
  - `sendMessage`, `markAsRead` and `getSavedMessages` are methods on the
    database.
  - `sendMessage` is also specified by a pure function, `Send`, on the chat
    tables. The lemmas about `Send` state what sending promises.
- **`admin_approval.dfy` (AdminApproval)**: `pending`, `approve` and `decline`.
- **`book_comments.dfy` (BookComments)**: listing a book's comments and storing
  a new one.
- **`books.dfy` (Books)**: the book listing, which decorates each loaded model
  in place, and the download, which selects the path, file name and MIME type.

Time is a logical clock: every mutating method takes `now` as a parameter.
File existence on the server is a parameter too, `disk`: the set of files
that exist below the storage directory.

## Model

| member | source | states |
|---|---|---|
| Common.NatToString | backend/app/Events/MessageSent.php:34 | the decimal form PHP writes for an id: non-empty, all digits, and without leading zeros (it starts with `0` only for the id 0, which is written `"0"`) |
| Common.NatToStringRoundTrip | backend/app/Events/MessageSent.php:34 | the decimal form PHP writes for an id is all digits and reads back as that id |
| Common.NatToStringInjective | backend/app/Events/MessageSent.php:34 | distinct ids have distinct decimal forms |
| Query.OrderBy | backend/app/Http/Controllers/ChatController.php:195-197 | `orderBy` lists every selected key exactly once, in ascending order of the sort column |
| Query.SortedRows | backend/app/Http/Controllers/ChatController.php:195-197 | `where->orderBy->get` returns exactly the rows that satisfy the filter, each once, sorted by the column |
| Query.GreatestIsListedLast | backend/app/Http/Controllers/ChatController.php:196 | a matching row whose sort value is strictly above every other matching row's is the last row listed |
| Query.Least | backend/app/Http/Controllers/ChatController.php:100 | `first()` picks the smallest matching key |
| Schema.OnePerUnorderedPairIsUniqueOrderedPair | backend/database/migrations/2025_07_09_193944_create_conversations_table.php:28 | one conversation per unordered pair implies the unique ordered-pair key |
| Schema.UniqueOrderedPairAdmitsSwappedDuplicate | backend/database/migrations/2025_07_09_193944_create_conversations_table.php:28 | the unique key alone allows (1, 2) and (2, 1) to coexist |
| Schema.NewConversation | backend/app/Http/Controllers/ChatController.php:103-106 | a created conversation joins the two users given, has no last message and is stamped with the current time |
| Schema.InsertConversationKeepsValid | backend/database/migrations/2025_07_09_193944_create_conversations_table.php:12-28 | inserting a conversation under a fresh key, between existing users, for a pair not yet stored in that order keeps every constraint |
| Schema.NewMessage | backend/app/Http/Controllers/ChatController.php:110-116 | a created message is unread, carries the given sender, receiver, conversation and body, and is stamped with the current time |
| Schema.PostMessageKeepsValid | backend/database/migrations/2025_07_09_193952_create_messages_table.php:13-36 | inserting a message between existing users into an existing conversation, and making it that conversation's last message, keeps every constraint |
| Schema.ForgetLastMessage | backend/database/migrations/2025_07_09_194157_add_last_message_id_to_conversations_table.php:13-16 | `last_message_id` becomes null exactly when it was null or named a deleted message; otherwise it is kept, and nothing else in the row changes |
| Schema.Detach | backend/database/migrations/2025_07_09_193952_create_messages_table.php:33-36 | `conversation_id` becomes null exactly when it was null or named a deleted conversation; otherwise it is kept, and nothing else in the row changes |
| Schema.DeleteUser | backend/database/migrations/2025_07_09_193944_create_conversations_table.php:17-25 | deleting a user removes exactly the conversations and messages that name the user; every other row survives unchanged except that its nullable foreign key is cleared exactly when it named a removed row |
| Schema.DeleteUserKeepsConstraints | backend/database/migrations/2025_07_09_193952_create_messages_table.php:23-36 | the cascades and null-settings leave every constraint, and one conversation per pair, intact |
| Schema.DeleteUserLeavesNoTrace | backend/database/migrations/2025_07_09_193952_create_messages_table.php:23-31 | after a user is deleted no conversation or message refers to them |
| Schema.DeleteConversation | backend/database/migrations/2025_07_09_193952_create_messages_table.php:33-36 | deleting a conversation keeps its messages with `conversation_id` null, and keeps the constraints |
| Schema.DeleteMessage | backend/database/migrations/2025_07_09_194157_add_last_message_id_to_conversations_table.php:13-16 | deleting a message clears the `last_message_id` of exactly the conversations that named it, and keeps the constraints |
| Schema.RekeyMessage | backend/database/migrations/2025_07_09_194157_add_last_message_id_to_conversations_table.php:13-15 | re-keying a message makes the conversations that named it follow it; every other message, and every other column of every conversation, is unchanged; the constraints are kept |
| Channels.Authorize | backend/routes/channels.php:6-17 | a user may subscribe iff the conversation exists and the user is one of its two participants |
| Channels.SelfChatAdmitsOnlyOwner | backend/routes/channels.php:17 | on a conversation of a user with themself exactly that user is admitted |
| Channels.DecisionDependsOnlyOnPair | backend/routes/channels.php:7-17 | the decision depends only on the user and the stored participant pair |
| Events.NewMessageSent | backend/app/Events/MessageSent.php:23-27 | the event holds the message and a copy of its conversation id |
| Events.BroadcastOn | backend/app/Events/MessageSent.php:32-35 | the channel name is `conversation.` followed by the conversation id in canonical decimal (no leading zeros), and its suffix reads back as that id |
| Events.ChannelIdentifiesConversation | backend/app/Events/MessageSent.php:34 | two events on the same channel concern the same conversation |
| Events.BroadcastAs | backend/app/Events/MessageSent.php:40-43 | the event is published as `MessageSent` |
| Events.BroadcastWith | backend/app/Events/MessageSent.php:48-60 | the payload copies the message's id, sender, receiver, conversation and creation time; its text is null |
| Events.PayloadNeverCarriesBody | backend/app/Events/MessageSent.php:53 | subscribers never receive the body of the message |
| Chat.OtherUser | backend/app/Http/Controllers/ChatController.php:34-36 | the other participant together with the caller makes up the conversation's pair |
| Chat.FindConversation | backend/app/Http/Controllers/ChatController.php:96-100 | finds a conversation between the two users stored in either order, if there is one, and the lowest-keyed such conversation |
| Chat.FindConversationSymmetric | backend/app/Http/Controllers/ChatController.php:96-100 | the lookup gives the same answer whichever of the two users sends |
| Chat.FindOrdered | backend/app/Http/Controllers/ChatController.php:190-193 | finds a conversation with exactly that (`user_one_id`, `user_two_id`), if there is one |
| Chat.FindOrderedIsTheRowWithThePair | backend/app/Http/Controllers/ChatController.php:190-193 | under the unique key, the ordered lookup of a stored row's pair finds that row |
| Chat.SelfLookupsAgree | backend/app/Http/Controllers/ChatController.php:190-193 | for a user with themself, the either-order lookup and `firstOrCreate`'s lookup agree |
| Chat.InsertKeepsOnePerPair | backend/app/Http/Controllers/ChatController.php:102-107 | creating a conversation only when none exists for the pair keeps one conversation per pair |
| Chat.TouchKeepsPairs | backend/app/Http/Controllers/ChatController.php:119-120 | updating a conversation without changing its pair keeps both pair invariants |
| Chat.Summarize | backend/app/Http/Controllers/ChatController.php:32-43 | a list row carries the conversation and the other participant, and it carries the last message exactly when `last_message_id` names an existing message |
| Chat.Summaries | backend/app/Http/Controllers/ChatController.php:32-44 | one list row per conversation, in order, each with the other participant, and carrying the message that `last_message_id` names exactly when that message exists |
| Chat.SummariesCover | backend/app/Http/Controllers/ChatController.php:32-44 | the list rows name exactly the conversations they were built from |
| Chat.GetConversations | backend/app/Http/Controllers/ChatController.php:16-47 | lists exactly the caller's conversations, each once, most recently updated first, each with the other participant and, when `last_message_id` names an existing message, that message |
| Chat.ThreadOf | backend/app/Http/Controllers/ChatController.php:59-61 | a conversation's history is exactly its messages, each once, oldest first |
| Chat.NewestMessageIsListedLast | backend/app/Http/Controllers/ChatController.php:61 | a message newer than every other message of its conversation is the last entry of that conversation's history |
| Chat.NoMessagesYet | backend/app/Http/Controllers/ChatController.php:195-197 | a conversation that no message points at has an empty history |
| Chat.GetMessages | backend/app/Http/Controllers/ChatController.php:52-79 | gives 404 for an unknown conversation, 403 for a non-participant, no other failure, and otherwise the other participant and the history |
| Chat.ReadAccessMatchesChannelAccess | backend/app/Http/Controllers/ChatController.php:66-68 | reading a conversation's history succeeds exactly for the users `Channels.Authorize` admits for the same conversation id, an unknown id included |
| Chat.ApprovedUsers | backend/app/Http/Controllers/ChatController.php:176-178 | exactly the approved users other than the caller |
| Chat.MarkedRead | backend/app/Http/Controllers/ChatController.php:165-166 | after the update the message is read; an unread message gets `updated_at` = now, a read one is unchanged; no other field changes |
| Chat.MarkedReadIdempotent | backend/app/Http/Controllers/ChatController.php:165-166 | marking a message read twice is the same as marking it once |
| Chat.Send | backend/app/Http/Controllers/ChatController.php:95-120 | the message goes to a conversation between sender and receiver, becomes its last message, is unread with the given body, and is the only new message; users are untouched |
| Chat.SendEffect | backend/app/Http/Controllers/ChatController.php:95-120 | sending reuses the pair's conversation or creates exactly one, adds exactly one unread message, makes it the last message and touches only that conversation |
| Chat.SendKeepsConstraints | backend/app/Http/Controllers/ChatController.php:102-120 | sending keeps every schema constraint, and one conversation per pair |
| Chat.SendAuthorizesBoth | backend/app/Http/Controllers/ChatController.php:132 | given the id of the conversation the message went to, `Channels.Authorize` admits both the sender and the receiver |
| Chat.ReplyJoinsTheSameConversation | backend/app/Http/Controllers/ChatController.php:96-107 | a reply from the receiver lands in the conversation of the message it answers |
| Chat.SendListsMessageLast | backend/app/Http/Controllers/ChatController.php:110-120 | a message sent after all stored ones is the last entry of its conversation's history |
| Chat.OpenConversation | backend/app/Http/Controllers/ChatController.php:103-106 | inserts the new conversation under the next key and advances that counter; no other table or counter changes |
| Chat.Post | backend/app/Http/Controllers/ChatController.php:110-120 | inserts the message under the next key, advances that counter only, and points the conversation at it, keeping the invariant |
| Chat.SendMessage | backend/app/Http/Controllers/ChatController.php:84-152 | gives 422 with no change unless the receiver exists and the text is present; otherwise the tables become `Send` of the old tables and the response carries the message and its event |
| Chat.MarkAsRead | backend/app/Http/Controllers/ChatController.php:157-169 | gives 404 for an unknown message and 403 unless the caller is the receiver, both with no change; otherwise only that message changes, to its read form, and no counter moves |
| Chat.GetSavedMessages | backend/app/Http/Controllers/ChatController.php:186-204 | reuses the caller's (u, u) conversation or creates it with an empty history; afterwards the ordered lookup of (u, u) finds that conversation, whose history is returned |
| Chat.SavedMessagesAreStable | backend/app/Http/Controllers/ChatController.php:190-193 | asking for saved messages twice lands in the same conversation |
| AdminApproval.Pending | backend/app/Http/Controllers/AdminUserApprovalController.php:12-16 | exactly the users whose `approved` flag is false |
| AdminApproval.PendingAndApprovedPartition | backend/app/Http/Controllers/AdminUserApprovalController.php:14 | pending users and the approved users offered for chat never overlap, and together they are every user except an approved caller |
| AdminApproval.ApprovedRow | backend/app/Http/Controllers/AdminUserApprovalController.php:22-23 | the saved row is approved; it is unchanged if it was already approved, and otherwise `updated_at` becomes now |
| AdminApproval.ApproveIdempotent | backend/app/Http/Controllers/AdminUserApprovalController.php:22-23 | approving twice is the same as approving once |
| AdminApproval.ApproveLeavesPending | backend/app/Http/Controllers/AdminUserApprovalController.php:22-23 | approving takes exactly that user off the pending list |
| AdminApproval.Approve | backend/app/Http/Controllers/AdminUserApprovalController.php:19-25 | gives 404 with no change for an unknown id and succeeds for every known id; then only that user row changes, to its approved form |
| AdminApproval.Decline | backend/app/Http/Controllers/AdminUserApprovalController.php:28-33 | gives 404 with no change for an unknown id and succeeds for every known id; then the chat tables become `DeleteUser` of the old ones, with constraints kept |
| BookComments.Index | backend/app/Http/Controllers/BookCommentController.php:14-23 | gives 400 exactly for a falsy `book_id`; otherwise exactly that book's comments, each once, oldest first |
| BookComments.SelectsOneBook | backend/app/Http/Controllers/BookCommentController.php:20 | a `book_id` string selects at most one book |
| BookComments.DecimalIdSelectsTheBook | backend/app/Http/Controllers/BookCommentController.php:20 | the decimal form of a book id selects that book and no other |
| BookComments.DecimalFormOfBookZeroIsRefused | backend/app/Http/Controllers/BookCommentController.php:17-19 | the decimal form of book 0 is `"0"`, which is falsy and refused with 400 |
| BookComments.NewComment | backend/app/Http/Controllers/BookCommentController.php:34-38 | the created comment carries the book, the user, the content and the creation time given |
| BookComments.StoreComment | backend/app/Http/Controllers/BookCommentController.php:27-40 | gives 422 with no change unless the book exists and the content is present; otherwise it appends the signed-in user's comment under the next comment key, advancing only that counter, and returns it |
| BookComments.StoredCommentIsListed | backend/app/Http/Controllers/BookCommentController.php:20 | a newly stored comment is the last entry listed under its book's id |
| Books.StorageUrl | backend/app/Http/Controllers/BookController.php:18 | the URL is the application root, then `/storage/books/`, then the stored path |
| Books.StorageUrlInjective | backend/app/Http/Controllers/BookController.php:18 | different stored paths get different URLs, under the concatenation model of `url()` |
| Books.Decorated | backend/app/Http/Controllers/BookController.php:16-23 | each URL is set from its path exactly when the path is truthy; other fields are untouched |
| Books.DecoratedIdempotent | backend/app/Http/Controllers/BookController.php:16-23 | decorating twice is the same as decorating once |
| Books.AllBooks | backend/app/Http/Controllers/BookController.php:15 | `Book::all()` yields every stored book exactly once |
| Books.EveryBookIsListed | backend/app/Http/Controllers/BookController.php:15 | every stored book is among the loaded ones |
| Books.Decorate | backend/app/Http/Controllers/BookController.php:17-22 | the loop body turns one model into its decorated form |
| Books.Load | backend/app/Http/Controllers/BookController.php:15 | loads the books into a fresh array, in key order |
| Books.DecorateAll | backend/app/Http/Controllers/BookController.php:16-23 | every model in the array is replaced by its decorated form, in place |
| Books.Index | backend/app/Http/Controllers/BookController.php:13-25 | returns one decorated model per stored book and writes nothing to the table |
| Books.AfterLastSlash | backend/app/Http/Controllers/BookController.php:75 | the longest suffix without a slash |
| Books.TrimTrailingSlashes | backend/app/Http/Controllers/BookController.php:75 | the longest prefix that does not end in a slash, where only slashes were dropped |
| Books.Basename | backend/app/Http/Controllers/BookController.php:75 | the download name is the last slash-free component of the path once trailing slashes are dropped: a suffix of the trimmed path, preceded by a slash unless it is all of it |
| Books.AfterLastSlashOfJoin | backend/app/Http/Controllers/BookController.php:75 | the name after the last slash of `dir/name` is `name` |
| Books.BasenameOfJoin | backend/app/Http/Controllers/BookController.php:75 | the basename of `dir/name` is `name` for a non-empty name without slashes |
| Books.SelectedPath | backend/app/Http/Controllers/BookController.php:64-66 | the EPUB path when the format is exactly `epub`, the PDF path for any other format or none |
| Books.Download | backend/app/Http/Controllers/BookController.php:62-76 | gives 404 for an unknown book, "File not found." exactly for a falsy selected path, and "File not found on server." exactly when the file is absent; no other failure; a known book whose selected file is on disk is sent under its basename, with the EPUB type iff the format is `epub` |
| Books.DownloadDefaultsToPdf | backend/app/Http/Controllers/BookController.php:64 | leaving the format out is the same as asking for `pdf` |
| Books.MissingPathIgnoresDisk | backend/app/Http/Controllers/BookController.php:67-69 | a falsy path is reported before any look at the disk |
| Books.PublicUrlOfBookFile | backend/app/Http/Controllers/BookController.php:70 | the file's place on the public disk, served under `/storage/`, is the listing's URL for it |
| Books.DownloadServesTheListedFile | backend/app/Http/Controllers/BookController.php:70 | the file a download sends is the file the listing links to for that format |

## Left out

- Query.Least: `first()` without ORDER BY returns whichever row the database finds first. The model fixes that choice as the lowest primary key, which the database does not promise. `Chat.FindConversation` and `Chat.FindOrdered` inherit this choice.
- Query.SortedRows: `orderBy` does not fix the order of rows with equal sort values. The model lists them by primary key, which the database does not promise. `Chat.ThreadOf`, `Chat.GetConversations` and `BookComments.Index` inherit this choice.
- Books.AllBooks: `Book::all()` has no ORDER BY either. The model lists the books in primary-key order.
- BookComments.Index: the integer column is compared with the query string by the database's lenient string-to-number conversion. The model only matches a string of decimal digits, so `"5abc"`, `" 5"` and `"5.0"` select no comment here.
- Chat.GetConversations: the eager-loaded `userOne`/`userTwo`/`sender` profile fields (name, picture) and the date formatting of `updated_at` are not modelled. Rows carry ids and rows.
- Chat.SendMessage: the response body is not modelled beyond the conversation id, the other user, the message and the event. Its shape differs from the event's payload, and no equality between them is claimed. Broadcasting with `toOthers()`, which skips the sender's own socket, is transport and is left out.
- Chat.GetMessages: the `messages` relation of the conversation model is taken to be "messages whose `conversation_id` is this conversation".
- Chat.Summarize: the eager-loaded `lastMessage` relation of the conversation model is taken to be the message that `last_message_id` names (a belongs-to relation); `Chat.Summaries` and `Chat.GetConversations` rely on the same reading. The model classes Conversation.php and Message.php are not part of this model.
- Chat.MarkedRead: saving a message that is already read is taken to write nothing, so `updated_at` stays. That holds only if the Message model casts `is_read` to boolean. Without the cast, the loaded value `1` is not equivalent to `true`, the row is dirty, and `updated_at` is refreshed. Message.php is not part of this model.
- AdminApproval.ApprovedRow: saving a user who is already approved is taken to write nothing, so `updated_at` stays. That holds only if the User model casts `approved` to boolean. Without the cast, `updated_at` is refreshed. User.php is not part of this model.
- Chat.SendAuthorizesBoth: the lemma is about the callback's decision for the conversation id, not about channel names. That the event's channel `conversation.<id>` is routed to the callback registered as `private-conversation.{conversationId}` is assumed, not proved; the broadcaster's handling of the `private-` prefix is not part of this model. `Chat.ReadAccessMatchesChannelAccess` relies on the same reading.
- Channels.Authorize: the one-minute cache in front of the conversation lookup is not modelled. A decision can use a conversation row up to a minute old. The registered channel pattern and the channel name the event uses are modelled separately; no claim is made that one matches the other.
- Events.BroadcastWith: `created_at` is a clock reading, not the formatted date-time string. Re-fetching of the message by the queued broadcast is not modelled.
- AdminApproval.Decline: comments written by the declined user stay as they are. The comments table's migration, and so its foreign keys, are not part of this model.
- Integer and string ids: PHP's `===`/`!==` between an id read from the database and the caller's id is taken to compare numbers. Every id is a natural number, and request ids that are not numbers are not modelled.
- Validation: `required` on a string is modelled (present, and not blank once trimmed). Request values of other types (arrays, numbers given for `message`) are not.
- Timestamps are a logical clock passed in as `now`. No two calls are assumed to see different or increasing times; lemmas that need order take it as a hypothesis.
- Concurrency: the read-then-create race in `sendMessage` (two first messages at once) is out of scope. Calls are sequential.
- ON UPDATE CASCADE for user ids and conversation ids is not modelled, since no operation changes those keys. Re-keying a message is modelled by `Schema.RekeyMessage`.
- Books.StorageUrl: Laravel's `url()` helper is modelled as plain concatenation onto the application root. Its normalisation of slashes is not modelled, so `Books.StorageUrlInjective` holds for the concatenation only: `url()` gives `a` and `a/` the same URL.
- `storage_path` is modelled relative to the storage directory. `file_exists` is the `disk` parameter, and streaming the file is I/O.
- The upload controller, routing, seeding and the users-columns migration are not part of this model.
