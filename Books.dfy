/** Adding a book, and the detail page of one book: its reviews a page at a time and the
    average of all its ratings. */
module Books {
  import opened Js
  import opened Store
  import opened Api
  import opened Reviews

  const MissingBookFields := Response(400, Error("Title, author, and genre are required"))
  const BookMissing := Response(404, Error("Book not found"))

  /** The page and page size used when the query gives none, or 0. */
  const DefaultPage: nat := 1
  const DefaultLimit: nat := 5

  /** POST /books. */
  method AddBook(books: BookTable, title: Option<string>, author: Option<string>,
                 genre: Option<string>, storeFails: bool) returns (res: Response)
    requires books.Valid()
    modifies books
    ensures books.Valid()
    ensures !(Truthy(title) && Truthy(author) && Truthy(genre)) ==> res == MissingBookFields
    ensures Truthy(title) && Truthy(author) && Truthy(genre) && storeFails ==> res == InternalError
    ensures res.status == 201 <==> Truthy(title) && Truthy(author) && Truthy(genre) && !storeFails
    ensures res.status != 201 ==> unchanged(books)
    ensures res.status == 201 ==>
              var book := Book(old(books.nextId), title.value, author.value, genre.value);
              && books.rows == old(books.rows) + [book]
              && books.nextId == old(books.nextId) + 1
              && res == Response(201, BookSaved("New Book Added Successfully", book))
  {
    if !Truthy(title) || !Truthy(author) || !Truthy(genre) {
      return MissingBookFields;
    }
    if storeFails {
      return InternalError;
    }
    var book := books.Create(title.value, author.value, genre.value);
    res := Response(201, BookSaved("New Book Added Successfully", book));
  }

  /** How many reviews to skip and how many to take. */
  datatype Paging = Paging(skip: nat, take: nat)

  /** `page = parseInt(page) || 1`, `limit = parseInt(limit) || 5`, `skip = (page - 1) * limit`.
      None stands for a query value that does not parse (NaN). */
  function PagingOf(page: Option<nat>, limit: Option<nat>): (p: Paging)
    ensures p.take >= 1
    ensures p.take == (if limit == None || limit == Some(0) then DefaultLimit else limit.value)
    ensures page == None || page == Some(0) ==> p.skip == 0
    ensures page.Some? && page.value >= 1 ==> p.skip == (page.value - 1) * p.take
  {
    var pg: nat := if page == None || page == Some(0) then DefaultPage else page.value;
    var lim: nat := if limit == None || limit == Some(0) then DefaultLimit else limit.value;
    Paging((pg - 1) * lim, lim)
  }

  function Min(a: int, b: int): int
  {
    if a <= b then a else b
  }

  /** The `take` elements of `s` that follow the first `skip`, or fewer at the end. */
  function Window<T>(s: seq<T>, skip: nat, take: nat): (r: seq<T>)
    ensures |r| == if skip >= |s| then 0 else Min(take, |s| - skip)
    ensures forall k :: 0 <= k < |r| ==> r[k] == s[skip + k]
  {
    if skip >= |s| then [] else s[skip..skip + Min(take, |s| - skip)]
  }

  /** The reviews of book `bookId`, in table order. */
  function OfBook(rows: seq<Review>, bookId: int): (r: seq<Review>)
    ensures forall v :: v in r <==> v in rows && v.bookId == bookId
    ensures |r| <= |rows|
  {
    if rows == [] then []
    else (if rows[0].bookId == bookId then [rows[0]] else []) + OfBook(rows[1..], bookId)
  }

  /** Each review of the book occurs in the list exactly as often as in the table, and no other
      review occurs in it: the list is the book's reviews, each counted once per row. */
  lemma {:induction false} OfBookCounts(rows: seq<Review>, bookId: int)
    ensures forall v :: multiset(OfBook(rows, bookId))[v]
                        == if v.bookId == bookId then multiset(rows)[v] else 0
  {
    if rows != [] {
      OfBookCounts(rows[1..], bookId);
      var head := if rows[0].bookId == bookId then [rows[0]] else [];
      assert rows == [rows[0]] + rows[1..];
      assert multiset(rows) == multiset([rows[0]]) + multiset(rows[1..]);
      assert multiset(OfBook(rows, bookId)) == multiset(head) + multiset(OfBook(rows[1..], bookId));
    }
  }

  /** A book that no review refers to has an empty review list. */
  lemma {:induction false} NoReviewsOfUnreviewedBook(rows: seq<Review>, bookId: int)
    requires forall v :: v in rows ==> v.bookId != bookId
    ensures OfBook(rows, bookId) == []
  {
    if rows != [] {
      assert rows[0] in rows;
      assert forall v :: v in rows[1..] ==> v in rows;
      NoReviewsOfUnreviewedBook(rows[1..], bookId);
    }
  }

  /** The sum of the ratings of `rs`. */
  function RatingSum(rs: seq<Review>): int
  {
    if rs == [] then 0 else rs[0].rating + RatingSum(rs[1..])
  }

  /** With every rating in 1..5, the sum of n ratings lies between n and 5n. */
  lemma {:induction false} RatingSumBounds(rs: seq<Review>)
    requires forall i :: 0 <= i < |rs| ==> 1 <= rs[i].rating <= 5
    ensures |rs| <= RatingSum(rs) <= 5 * |rs|
  {
    if rs != [] {
      RatingSumBounds(rs[1..]);
    }
  }

  /** A review as the detail page shows it, with its author's email from the user table. */
  function View(users: UserTable, v: Review): ReviewView
    reads users
  {
    ReviewView(v.id, v.rating, v.comment,
               match users.FindById(v.userId) case None => None case Some(u) => Some(u.email))
  }

  function Views(users: UserTable, rs: seq<Review>): (r: seq<ReviewView>)
    reads users
    ensures |r| == |rs| && forall k :: 0 <= k < |rs| ==> r[k] == View(users, rs[k])
  {
    if rs == [] then [] else [View(users, rs[0])] + Views(users, rs[1..])
  }

  /** The 200 answer for book `b` whose reviews are `all`: the page `p` of them, with the
      authors' emails, and the average over all of them as a sum and a count. */
  function Detail(users: UserTable, b: Book, all: seq<Review>, p: Paging): (res: Response)
    reads users
    ensures res.status == 200 && res.body.BookDetail? && res.body.book == b
    ensures |res.body.reviews| == (if p.skip >= |all| then 0 else Min(p.take, |all| - p.skip))
    ensures forall k :: 0 <= k < |res.body.reviews| ==> res.body.reviews[k] == View(users, all[p.skip + k])
    ensures res.body.averageRating.None? <==> all == []
    ensures all != [] ==> res.body.averageRating == Some(Mean(RatingSum(all), |all|))
  {
    var average := if |all| == 0 then None else Some(Mean(RatingSum(all), |all|));
    Response(200, BookDetail(b, Views(users, Window(all, p.skip, p.take)), average))
  }

  /** GET /books/:id: a read-only query over the three tables. */
  function GetBookById(books: BookTable, reviews: ReviewTable, users: UserTable, id: int,
                       page: Option<nat>, limit: Option<nat>, storeFails: bool): (res: Response)
    reads books, reviews, users
    ensures storeFails ==> res == InternalError
    ensures !storeFails && books.FindById(id).None? ==> res == BookMissing
    ensures res.status == 200 <==> !storeFails && books.FindById(id).Some?
    ensures res.status == 200 ==>
              res == Detail(users, books.FindById(id).value, OfBook(reviews.rows, id), PagingOf(page, limit))
  {
    if storeFails then InternalError
    else
      match books.FindById(id)
      case None => BookMissing
      case Some(b) => Detail(users, b, OfBook(reviews.rows, id), PagingOf(page, limit))
  }

  /** A book without reviews is shown with an empty list and no average, on every page. */
  lemma DetailOfUnreviewedBook(books: BookTable, reviews: ReviewTable, users: UserTable, id: int,
                               page: Option<nat>, limit: Option<nat>)
    requires books.FindById(id).Some? && OfBook(reviews.rows, id) == []
    ensures GetBookById(books, reviews, users, id, page, limit, false)
            == Response(200, BookDetail(books.FindById(id).value, [], None))
  {
    var p := PagingOf(page, limit);
    assert Window(OfBook(reviews.rows, id), p.skip, p.take) == [];
  }

  /** The average covers all of the book's reviews, whatever page is asked for; with every
      rating in 1..5 it lies between 1 and 5 (as a sum and a count). */
  lemma AverageCoversAllReviews(books: BookTable, reviews: ReviewTable, users: UserTable, id: int,
                                page: Option<nat>, limit: Option<nat>,
                                page': Option<nat>, limit': Option<nat>)
    requires books.FindById(id).Some?
    requires Invariant(reviews.rows)
    ensures var res := GetBookById(books, reviews, users, id, page, limit, false);
            var all := OfBook(reviews.rows, id);
            && res.body.averageRating == GetBookById(books, reviews, users, id, page', limit', false).body.averageRating
            && (all != [] ==> res.body.averageRating == Some(Mean(RatingSum(all), |all|)))
            && (res.body.averageRating.Some? ==>
                  var m := res.body.averageRating.value;
                  1 <= m.count && m.count <= m.sum <= 5 * m.count)
  {
    var all := OfBook(reviews.rows, id);
    forall i | 0 <= i < |all| ensures 1 <= all[i].rating <= 5 {
      assert all[i] in reviews.rows;
    }
    RatingSumBounds(all);
  }

  /** Position `pos` of page `page` lists review number (page - 1) * limit + pos of the book. */
  lemma PageListsItsReviews(books: BookTable, reviews: ReviewTable, users: UserTable, id: int,
                            page: nat, limit: nat, pos: nat, k: nat)
    requires books.FindById(id).Some? && page >= 1 && limit >= 1 && pos < limit
    requires k == (page - 1) * limit + pos && k < |OfBook(reviews.rows, id)|
    ensures var res := GetBookById(books, reviews, users, id, Some(page), Some(limit), false);
            pos < |res.body.reviews| && res.body.reviews[pos] == View(users, OfBook(reviews.rows, id)[k])
  {
    var p := PagingOf(Some(page), Some(limit));
    assert p.skip + pos == k;
    DetailEntry(users, books.FindById(id).value, OfBook(reviews.rows, id), p, pos);
  }

  lemma DetailEntry(users: UserTable, b: Book, all: seq<Review>, p: Paging, pos: nat)
    requires pos < p.take && p.skip + pos < |all|
    ensures var listed := Detail(users, b, all, p).body.reviews;
            pos < |listed| && listed[pos] == View(users, all[p.skip + pos])
  {
  }

  /** Review number `k` of a book (counting from 0) is listed on page `k / limit + 1`, at
      position `k % limit`: paging reaches every review. */
  lemma EveryReviewIsOnItsPage(books: BookTable, reviews: ReviewTable, users: UserTable, id: int,
                               limit: nat, k: nat)
    requires books.FindById(id).Some? && limit >= 1 && k < |OfBook(reviews.rows, id)|
    ensures var res := GetBookById(books, reviews, users, id, Some(k / limit + 1), Some(limit), false);
            && k % limit < |res.body.reviews|
            && res.body.reviews[k % limit] == View(users, OfBook(reviews.rows, id)[k])
  {
    DivisionSplits(k, limit);
    PageListsItsReviews(books, reviews, users, id, k / limit + 1, limit, k % limit, k);
  }

  lemma DivisionSplits(k: nat, limit: nat)
    requires limit >= 1
    ensures (k / limit + 1 - 1) * limit + k % limit == k && k % limit < limit
  {
  }

  /** No review refers to a book id that has not been handed out yet. */
  lemma NoReviewsForUnusedId(rows: seq<Review>, books: BookTable)
    requires books.Valid() && ReferToBooks(rows, books.rows)
    ensures OfBook(rows, books.nextId) == []
  {
    forall v | v in rows ensures v.bookId != books.nextId {
      var i :| 0 <= i < |rows| && rows[i] == v;
      var b :| b in books.rows && b.id == rows[i].bookId;
      var j :| 0 <= j < |books.rows| && books.rows[j] == b;
    }
    NoReviewsOfUnreviewedBook(rows, books.nextId);
  }

  /** Adding books keeps every review's book in the table. */
  lemma MoreBooksKeepReferences(rows: seq<Review>, books: seq<Book>, extra: seq<Book>)
    requires ReferToBooks(rows, books)
    ensures ReferToBooks(rows, books + extra)
  {
    var all := books + extra;
    forall i | 0 <= i < |rows| ensures HasBook(all, rows[i].bookId) {
      var b :| b in books && b.id == rows[i].bookId;
      assert b in all;
    }
  }

  /** The newest book of a table is the one found by its id. */
  lemma NewestBookIsFound(books: BookTable)
    requires books.Valid() && books.rows != []
    ensures books.FindById(books.rows[|books.rows| - 1].id) == Some(books.rows[|books.rows| - 1])
  {
  }

  /** A book just added is found by its id, with no reviews and no average yet. */
  method AddBookThenGet(books: BookTable, reviews: ReviewTable, users: UserTable,
                        title: Option<string>, author: Option<string>, genre: Option<string>)
    returns (added: Response, detail: Response)
    requires books.Valid() && ReferToBooks(reviews.rows, books.rows)
    modifies books
    ensures books.Valid() && ReferToBooks(reviews.rows, books.rows)
    ensures added.status == 201 ==> added.body.BookSaved?
    ensures added.status == 201 ==> detail == Response(200, BookDetail(added.body.data, [], None))
  {
    ghost var before := books.rows;
    NoReviewsForUnusedId(reviews.rows, books);
    added := AddBook(books, title, author, genre, false);
    if added.status != 201 {
      return added, added;
    }
    MoreBooksKeepReferences(reviews.rows, before, [added.body.data]);
    NewestBookIsFound(books);
    DetailOfUnreviewedBook(books, reviews, users, added.body.data.id, None, None);
    detail := GetBookById(books, reviews, users, added.body.data.id, None, None, false);
  }
}
