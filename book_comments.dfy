/** The book comment controller: list a book's comments oldest first, and
    add a comment as the signed-in user. */
module BookComments {
  import opened Common
  import opened Query
  import opened Store

  /** The `book_id` query string selects the comments of book `id`: the
      column is an integer, so a string of decimal digits selects the book
      with that number (leading zeros allowed). */
  predicate Selects(query: string, id: BookId)
  {
    AllDigits(query) && DigitsValue(query) == id
  }

  function OfBook(query: string): BookComment -> bool
  {
    (c: BookComment) => Selects(query, c.bookId)
  }

  /** `index`: 400 for a falsy `book_id`, else that book's comments by
      ascending `created_at`. */
  function Index(comments: map<CommentId, BookComment>, bookId: Option<string>)
    : (r: Result<seq<BookComment>>)
    ensures r.Err? <==> !Truthy(bookId)
    ensures r.Err? ==> r.failure == BadRequest
    ensures r.Ok? ==>
      && (set c | c in r.value) == Matching(comments, OfBook(bookId.value))
      && |r.value| == |Where(comments, OfBook(bookId.value))|
      && (forall i | 0 <= i < |r.value| :: Selects(bookId.value, r.value[i].bookId))
      && (forall i, j | 0 <= i < j < |r.value| :: r.value[i].createdAt <= r.value[j].createdAt)
  {
    if !Truthy(bookId) then Err(BadRequest)
    else Ok(SortedRows(comments, OfBook(bookId.value), (c: BookComment) => c.createdAt))
  }

  /** A query string selects at most one book. */
  lemma SelectsOneBook(query: string, a: BookId, b: BookId)
    requires Selects(query, a) && Selects(query, b)
    ensures a == b
  {
  }

  /** The decimal form of a book's id, as a client would send it, selects
      that book and no other. */
  lemma DecimalIdSelectsTheBook(id: BookId, other: BookId)
    ensures Selects(NatToString(id), id)
    ensures Selects(NatToString(id), other) <==> other == id
  {
    NatToStringRoundTrip(id);
  }

  /** The comment row `BookComment::create` inserts. */
  function NewComment(id: CommentId, book: BookId, user: UserId, content: string, now: Timestamp)
    : (c: BookComment)
    ensures c.id == id && c.bookId == book && c.userId == user && c.content == content
    ensures c.createdAt == now
  {
    BookComment(id, book, user, content, now)
  }

  /** `store`: both inputs are required, the book must exist, and the new
      comment belongs to the signed-in user; the response (201) is the new row. */
  method StoreComment(db: Database, user: UserId, bookId: Option<nat>, content: Option<string>, now: Timestamp)
    returns (r: Result<BookComment>)
    requires db.Valid()
    modifies db
    ensures db.Valid()
    ensures r.Err? <==> bookId.None? || bookId.value !in old(db.books) || !Present(content)
    ensures r.Err? ==> r.failure == Unprocessable && unchanged(db)
    ensures r.Ok? ==>
      && r.value.id == old(db.nextCommentId) && r.value.id !in old(db.comments)
      && r.value == NewComment(r.value.id, bookId.value, user, content.value, now)
      && db.comments == old(db.comments)[r.value.id := r.value]
      && db.Chat() == old(db.Chat()) && db.books == old(db.books)
      && db.nextCommentId == old(db.nextCommentId) + 1
      && db.nextConversationId == old(db.nextConversationId) && db.nextMessageId == old(db.nextMessageId)
  {
    if bookId.None? || bookId.value !in db.books || !Present(content) {
      return Err(Unprocessable);
    }
    var comment := NewComment(db.nextCommentId, bookId.value, user, content.value, now);
    db.nextCommentId := db.nextCommentId + 1;
    db.comments := db.comments[comment.id := comment];
    r := Ok(comment);
  }

  /** The decimal form of book 0 is "0", which PHP treats as missing: the
      listing refuses it before any lookup. A client can still list book 0's
      comments with a form such as "00", which is truthy and selects 0. */
  lemma DecimalFormOfBookZeroIsRefused(comments: map<CommentId, BookComment>)
    ensures NatToString(0) == "0"
    ensures Index(comments, Some(NatToString(0))) == Err(BadRequest)
  {
  }

  /** A stored comment is listed under its book, after every comment that
      was stored earlier. */
  lemma StoredCommentIsListed(comments: map<CommentId, BookComment>, c: BookComment)
    requires c.id !in comments && c.bookId > 0
    requires forall k | k in comments :: comments[k].createdAt < c.createdAt
    ensures var listed := Index(comments[c.id := c], Some(NatToString(c.bookId)));
      && listed.Ok?
      && |listed.value| > 0
      && listed.value[|listed.value| - 1] == c
  {
    NatToStringRoundTrip(c.bookId);
    var query := NatToString(c.bookId);
    GreatestIsListedLast(comments[c.id := c], OfBook(query), (x: BookComment) => x.createdAt, c.id);
  }
}
