/** Adding, updating and deleting reviews. A review is added for a book that exists, at most
    once per user and book; it is updated or deleted only by the user who wrote it. */
module Reviews {
  import opened Js
  import opened Store
  import opened Api

  const BadRating := Response(400, Error("Rating must be between 1 and 5."))
  const CommentRequired := Response(400, Error("Comment is required."))
  const CommentEmpty := Response(400, Error("Comment cannot be empty."))
  const BookNotFound := Response(404, Error("Book not found."))
  const AlreadyReviewed := Response(400, Error("You have already reviewed this book."))
  const NotOwnerOrMissing := Response(403, Error("Unauthorized or review not found"))

  /** `typeof rating === 'number'` and the rating lies in 1..5. */
  predicate RatingOk(rating: Json)
  {
    rating.Num? && 1 <= rating.n <= 5
  }

  /** A comment with something other than whitespace in it. */
  predicate HasText(comment: Json)
  {
    comment.Str? && Trim(comment.s) != ""
  }

  /** `!comment?.trim()` holds: the comment is missing, null or blank. */
  predicate CommentMissing(comment: Json)
  {
    comment.Undefined? || comment.Null? || (comment.Str? && Trim(comment.s) == "")
  }

  /** What the handlers keep true of the review table: ratings in 1..5, comments that are not
      all whitespace (so that they trim to a non-empty string), and no two reviews by the same
      user of the same book. */
  predicate Invariant(rows: seq<Review>)
  {
    && (forall i :: 0 <= i < |rows| ==> 1 <= rows[i].rating <= 5 && !Blank(rows[i].comment))
    && (forall i, j :: 0 <= i < j < |rows| ==>
          rows[i].userId != rows[j].userId || rows[i].bookId != rows[j].bookId)
  }

  /** Some book in `books` has id `id`. */
  predicate HasBook(books: seq<Book>, id: int)
  {
    exists b :: b in books && b.id == id
  }

  /** Every review is of a book in `books`. */
  predicate ReferToBooks(rows: seq<Review>, books: seq<Book>)
  {
    forall i :: 0 <= i < |rows| ==> HasBook(books, rows[i].bookId)
  }

  /** The ownership guard of update and delete: the position of review `reviewId` when it
      exists and `userId` wrote it. A missing review and somebody else's give the same None. */
  function OwnedIndex(reviews: ReviewTable, reviewId: int, userId: nat): (r: Option<nat>)
    reads reviews
    requires reviews.Valid()
    ensures r.Some? ==> r.value < |reviews.rows| && reviews.rows[r.value].id == reviewId
                        && reviews.rows[r.value].userId == userId
    ensures r.None? ==> forall i :: 0 <= i < |reviews.rows| && reviews.rows[i].id == reviewId ==>
                                      reviews.rows[i].userId != userId
  {
    match reviews.IndexOfId(reviewId)
    case None => None
    case Some(i) => if reviews.rows[i].userId == userId then Some(i) else None
  }

  /** POST /books/:id/reviews by the user `userId` of the verified token. */
  method AddReview(reviews: ReviewTable, books: BookTable, userId: nat, bookId: int,
                   rating: Json, comment: Json, storeFails: bool) returns (res: Response)
    requires reviews.Valid()
    modifies reviews
    ensures reviews.Valid()
    ensures !RatingOk(rating) ==> res == BadRating
    ensures RatingOk(rating) && CommentMissing(comment) ==> res == CommentRequired
    ensures RatingOk(rating) && !CommentMissing(comment) && !HasText(comment) ==> res == InternalError
    ensures RatingOk(rating) && HasText(comment) && storeFails ==> res == InternalError
    ensures RatingOk(rating) && HasText(comment) && !storeFails ==>
              books.FindById(bookId).None? ==> res == BookNotFound
    ensures RatingOk(rating) && HasText(comment) && !storeFails && books.FindById(bookId).Some? ==>
              old(reviews.FindFirst(bookId, userId)).Some? ==> res == AlreadyReviewed
    ensures res.status == 201 <==>
              && RatingOk(rating) && HasText(comment) && !storeFails
              && books.FindById(bookId).Some? && old(reviews.FindFirst(bookId, userId)).None?
    ensures res.status != 201 ==> unchanged(reviews)
    ensures res.status == 201 ==>
              var review := Review(old(reviews.nextId), rating.n, comment.s, userId, bookId as nat);
              && reviews.rows == old(reviews.rows) + [review]
              && reviews.nextId == old(reviews.nextId) + 1
              && res == Response(201, ReviewSaved("Review added successfully", review))
    ensures Invariant(old(reviews.rows)) ==> Invariant(reviews.rows)
    ensures ReferToBooks(old(reviews.rows), books.rows) ==> ReferToBooks(reviews.rows, books.rows)
  {
    if !RatingOk(rating) {
      return BadRating;
    }
    if CommentMissing(comment) {
      return CommentRequired;
    }
    if !comment.Str? {
      // `.trim` of a number, boolean, object or array is not a function: a TypeError
      return InternalError;
    }
    if storeFails {
      return InternalError;
    }
    var book := books.FindById(bookId);
    if book.None? {
      return BookNotFound;
    }
    var existing := reviews.FindFirst(bookId, userId);
    if existing.Some? {
      return AlreadyReviewed;
    }
    ghost var before := reviews.rows;
    var review := reviews.Create(rating.n, comment.s, userId, book.value.id);
    TrimEmptyIffBlank(comment.s);
    InsertKeepsInvariant(before, review);
    InsertKeepsReferences(before, review, books.rows, book.value);
    res := Response(201, ReviewSaved("Review added successfully", review));
  }

  /** PUT /reviews/:id by the user `userId` of the verified token. Only the fields the body
      supplies are checked and changed. */
  method UpdateReview(reviews: ReviewTable, userId: nat, reviewId: int,
                      rating: Json, comment: Json, storeFails: bool) returns (res: Response)
    requires reviews.Valid()
    modifies reviews
    ensures reviews.Valid()
    ensures !rating.Undefined? && !RatingOk(rating) ==> res == BadRating
    ensures (rating.Undefined? || RatingOk(rating)) && comment.Str? && Trim(comment.s) == "" ==>
              res == CommentEmpty
    ensures (rating.Undefined? || RatingOk(rating)) && !comment.Undefined? && !comment.Str? ==>
              res == InternalError
    ensures (rating.Undefined? || RatingOk(rating)) && (comment.Undefined? || HasText(comment)) ==>
              && (storeFails ==> res == InternalError)
              && (!storeFails && old(OwnedIndex(reviews, reviewId, userId)).None? ==> res == NotOwnerOrMissing)
    ensures res.status == 200 <==>
              && (rating.Undefined? || RatingOk(rating)) && (comment.Undefined? || HasText(comment))
              && !storeFails && old(OwnedIndex(reviews, reviewId, userId)).Some?
    ensures res.status != 200 ==> unchanged(reviews)
    ensures res.status == 200 ==>
              var i := old(OwnedIndex(reviews, reviewId, userId)).value;
              var was := old(reviews.rows)[i];
              var now := Review(was.id, if rating.Num? then rating.n else was.rating,
                                if comment.Str? then comment.s else was.comment, was.userId, was.bookId);
              && reviews.rows == old(reviews.rows)[i := now]
              && reviews.nextId == old(reviews.nextId)
              && res == Response(200, ReviewSaved("Review updated successfully", now))
    ensures Invariant(old(reviews.rows)) ==> Invariant(reviews.rows)
  {
    if !rating.Undefined? && !RatingOk(rating) {
      return BadRating;
    }
    if !comment.Undefined? {
      if !comment.Str? {
        // `.trim` of null, a number, a boolean, an object or an array: a TypeError
        return InternalError;
      }
      if Trim(comment.s) == "" {
        return CommentEmpty;
      }
    }
    if storeFails {
      return InternalError;
    }
    var owned := OwnedIndex(reviews, reviewId, userId);
    if owned.None? {
      return NotOwnerOrMissing;
    }
    ghost var before := reviews.rows;
    var newRating := if rating.Num? then Some(rating.n) else None;
    var newComment := if comment.Str? then Some(comment.s) else None;
    var updated := reviews.Update(reviewId as nat, newRating, newComment);
    if Invariant(before) {
      if comment.Str? {
        TrimEmptyIffBlank(comment.s);
      }
      ReplaceKeepsInvariant(before, owned.value, updated);
    }
    res := Response(200, ReviewSaved("Review updated successfully", updated));
  }

  /** DELETE /reviews/:id by the user `userId` of the verified token. */
  method DeleteReview(reviews: ReviewTable, userId: nat, reviewId: int, storeFails: bool)
    returns (res: Response)
    requires reviews.Valid()
    modifies reviews
    ensures reviews.Valid()
    ensures storeFails ==> res == InternalError
    ensures !storeFails && old(OwnedIndex(reviews, reviewId, userId)).None? ==> res == NotOwnerOrMissing
    ensures res.status == 200 <==> !storeFails && old(OwnedIndex(reviews, reviewId, userId)).Some?
    ensures res.status != 200 ==> unchanged(reviews)
    ensures res.status == 200 ==>
              var i := old(OwnedIndex(reviews, reviewId, userId)).value;
              && reviews.rows == old(reviews.rows)[..i] + old(reviews.rows)[i + 1..]
              && reviews.nextId == old(reviews.nextId)
              && res == Response(200, Message("Review deleted successfully"))
    ensures res.status == 200 ==>
              forall v :: v in reviews.rows <==> v in old(reviews.rows) && v.id != reviewId
    ensures Invariant(old(reviews.rows)) ==> Invariant(reviews.rows)
  {
    if storeFails {
      return InternalError;
    }
    var owned := OwnedIndex(reviews, reviewId, userId);
    if owned.None? {
      return NotOwnerOrMissing;
    }
    ghost var before := reviews.rows;
    ghost var i := owned.value;
    reviews.Delete(reviewId as nat);
    RemovalKeepsOthers(before, i);
    RemovalKeepsInvariant(before, i);
    res := Response(200, Message("Review deleted successfully"));
  }

  lemma InsertKeepsInvariant(rows: seq<Review>, r: Review)
    requires 1 <= r.rating <= 5 && !Blank(r.comment)
    requires forall v :: v in rows ==> v.bookId != r.bookId || v.userId != r.userId
    ensures Invariant(rows) ==> Invariant(rows + [r])
  {
    if Invariant(rows) {
      var after := rows + [r];
      forall i, j | 0 <= i < j < |after|
        ensures after[i].userId != after[j].userId || after[i].bookId != after[j].bookId
      {
        if j == |rows| {
          assert after[i] in rows;
        }
      }
    }
  }

  lemma InsertKeepsReferences(rows: seq<Review>, r: Review, books: seq<Book>, b: Book)
    requires b in books && b.id == r.bookId
    ensures ReferToBooks(rows, books) ==> ReferToBooks(rows + [r], books)
  {
  }

  lemma ReplaceKeepsInvariant(rows: seq<Review>, i: nat, r: Review)
    requires Invariant(rows)
    requires i < |rows| && 1 <= r.rating <= 5 && !Blank(r.comment)
    requires r.userId == rows[i].userId && r.bookId == rows[i].bookId
    ensures Invariant(rows[i := r])
  {
  }

  lemma RemovalKeepsInvariant(rows: seq<Review>, i: nat)
    requires i < |rows|
    ensures Invariant(rows) ==> Invariant(rows[..i] + rows[i + 1..])
  {
    if Invariant(rows) {
      RemovedRows(rows, i);
      SkippingKeepsInvariant(rows, rows[..i] + rows[i + 1..], i);
    }
  }

  /** The position in a table of row `k` of the table with row `i` removed. */
  function Skip(k: nat, i: nat): nat
  {
    if k < i then k else k + 1
  }

  /** Row `k` of `rows` with row `i` removed is row `Skip(k, i)` of `rows`. */
  lemma RemovedRows(rows: seq<Review>, i: nat)
    requires i < |rows|
    ensures |rows[..i] + rows[i + 1..]| == |rows| - 1
    ensures forall k :: 0 <= k < |rows| - 1 ==> (rows[..i] + rows[i + 1..])[k] == rows[Skip(k, i)]
  {
  }

  lemma SkippingKeepsInvariant(rows: seq<Review>, rest: seq<Review>, i: nat)
    requires Invariant(rows) && i < |rows| && |rest| == |rows| - 1
    requires forall k :: 0 <= k < |rest| ==> rest[k] == rows[Skip(k, i)]
    ensures Invariant(rest)
  {
    forall a, b | 0 <= a < b < |rest|
      ensures rest[a].userId != rest[b].userId || rest[a].bookId != rest[b].bookId
    {
      assert Skip(a, i) < Skip(b, i);
    }
  }

  /** Removing the row at position `i` of a table with increasing ids keeps exactly the rows
      with other ids. */
  lemma RemovalKeepsOthers(rows: seq<Review>, i: nat)
    requires i < |rows|
    requires forall a, b :: 0 <= a < b < |rows| ==> rows[a].id < rows[b].id
    ensures forall v :: v in rows[..i] + rows[i + 1..] <==> v in rows && v.id != rows[i].id
  {
    RemovedRows(rows, i);
    SkippingKeepsOthers(rows, rows[..i] + rows[i + 1..], i);
  }

  lemma SkippingKeepsOthers(rows: seq<Review>, rest: seq<Review>, i: nat)
    requires i < |rows| && |rest| == |rows| - 1
    requires forall k :: 0 <= k < |rest| ==> rest[k] == rows[Skip(k, i)]
    requires forall a, b :: 0 <= a < b < |rows| ==> rows[a].id < rows[b].id
    ensures forall v :: v in rest <==> v in rows && v.id != rows[i].id
  {
    forall v | v in rest ensures v in rows && v.id != rows[i].id {
      var k :| 0 <= k < |rest| && rest[k] == v;
      assert Skip(k, i) != i;
    }
    forall v | v in rows && v.id != rows[i].id ensures v in rest {
      var k :| 0 <= k < |rows| && rows[k] == v;
      var k' := if k < i then k else k - 1;
      assert rest[k'] == v;
    }
  }

  /** The newest review of a table is found at its end. */
  lemma NewestIsLast(reviews: ReviewTable)
    requires reviews.Valid() && reviews.rows != []
    ensures reviews.IndexOfId(reviews.rows[|reviews.rows| - 1].id) == Some(|reviews.rows| - 1)
  {
  }

  /** A review just added by a user can be deleted by that user, and deleting it gives back
      the table's rows as they were before the add. */
  method AddThenDelete(reviews: ReviewTable, books: BookTable, userId: nat, bookId: int,
                       rating: Json, comment: Json) returns (added: Response, deleted: Response)
    requires reviews.Valid()
    modifies reviews
    ensures reviews.Valid()
    ensures added.status == 201 ==> deleted.status == 200 && reviews.rows == old(reviews.rows)
  {
    ghost var before := reviews.rows;
    added := AddReview(reviews, books, userId, bookId, rating, comment, false);
    if added.status != 201 {
      return added, added;
    }
    var id := added.body.review.id;
    NewestIsLast(reviews);
    deleted := DeleteReview(reviews, userId, id, false);
    assert reviews.rows == (before + [added.body.review])[..|before|];
  }
}
