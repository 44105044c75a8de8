/** The database the controllers share: one map per table, keyed by primary
    key, and the AUTO_INCREMENT counters that hand out new keys. */
module Store {
  import opened Common
  import opened Schema

  /** A `books` row as the book controller sees it: the stored file paths,
      and the URL attributes `index` adds to the loaded model (absent until
      then). */
  datatype Book = Book(
    id: BookId,
    pdfPath: Option<string>,
    epubPath: Option<string>,
    pdfUrl: Option<string>,
    epubUrl: Option<string>)

  /** A `book_comments` row. */
  datatype BookComment = BookComment(
    id: CommentId,
    bookId: BookId,
    userId: UserId,
    content: string,
    createdAt: Timestamp)

  class Database {
    var users: map<UserId, User>
    var conversations: map<ConversationId, Conversation>
    var messages: map<MessageId, Message>
    var books: map<BookId, Book>
    var comments: map<CommentId, BookComment>
    var nextConversationId: nat
    var nextMessageId: nat
    var nextCommentId: nat

    /** The three chat tables, as one value. */
    function Chat(): Tables
      reads this
    {
      Tables(users, conversations, messages)
    }

    /** The schema's constraints hold, and every counter is past the keys in use. */
    ghost predicate Valid()
      reads this
    {
      && Schema.Valid(Chat())
      && (forall c | c in conversations :: c < nextConversationId)
      && (forall m | m in messages :: m < nextMessageId)
      && (forall k | k in comments :: k < nextCommentId && comments[k].id == k)
      && (forall b | b in books :: books[b].id == b)
    }

    /** A database holding the given users and books and no chat or comment rows. */
    constructor (users: map<UserId, User>, books: map<BookId, Book>)
      requires forall u | u in users :: users[u].id == u
      requires forall b | b in books :: books[b].id == b
      ensures Valid()
      ensures this.users == users && this.books == books
      ensures conversations == map[] && messages == map[] && comments == map[]
    {
      this.users := users;
      this.books := books;
      conversations := map[];
      messages := map[];
      comments := map[];
      nextConversationId := 1;
      nextMessageId := 1;
      nextCommentId := 1;
    }
  }
}
