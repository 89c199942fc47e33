/** The three database tables behind the handlers (users, books, reviews), as rows kept in
    id order with an auto-increment counter, and the store operations the handlers call. */
module Store {
  import opened Js

  datatype User = User(id: nat, email: string, password: string)
  datatype Book = Book(id: nat, title: string, author: string, genre: string)
  datatype Review = Review(id: nat, rating: int, comment: string, userId: nat, bookId: nat)

  /** The position of the first row that satisfies `p`: what a unique or first-match lookup finds. */
  function First<T>(rows: seq<T>, p: T -> bool): (r: Option<nat>)
    ensures r.Some? ==> r.value < |rows| && p(rows[r.value])
    ensures r.Some? ==> forall j :: 0 <= j < r.value ==> !p(rows[j])
    ensures r.None? ==> forall j :: 0 <= j < |rows| ==> !p(rows[j])
  {
    if rows == [] then None
    else if p(rows[0]) then Some(0)
    else
      match First(rows[1..], p)
      case None => None
      case Some(i) => Some(i + 1)
  }

  class UserTable {
    var rows: seq<User>
    var nextId: nat

    /** Ids increase along the table and stay below the counter; emails are unique. */
    ghost predicate Valid()
      reads this
    {
      && (forall i, j :: 0 <= i < j < |rows| ==> rows[i].id < rows[j].id)
      && (forall i, j :: 0 <= i < j < |rows| ==> rows[i].email != rows[j].email)
      && (forall i :: 0 <= i < |rows| ==> rows[i].id < nextId)
    }

    constructor ()
      ensures Valid() && rows == [] && nextId == 1
    {
      rows := [];
      nextId := 1;
    }

    /** `user.findUnique` by email. */
    function FindByEmail(email: string): (r: Option<User>)
      reads this
      ensures r.Some? ==> r.value in rows && r.value.email == email
      ensures r.None? ==> forall u :: u in rows ==> u.email != email
    {
      match First(rows, (u: User) => u.email == email)
      case None => None
      case Some(i) => Some(rows[i])
    }

    /** The user with the given id, if there is one. */
    function FindById(id: int): (r: Option<User>)
      reads this
      ensures r.Some? ==> r.value in rows && r.value.id == id
      ensures r.None? ==> forall u :: u in rows ==> u.id != id
    {
      match First(rows, (u: User) => u.id == id)
      case None => None
      case Some(i) => Some(rows[i])
    }

    /** `user.create`: the new row gets the next id. */
    method Create(email: string, password: string) returns (user: User)
      requires Valid() && FindByEmail(email).None?
      modifies this
      ensures Valid()
      ensures user == User(old(nextId), email, password)
      ensures rows == old(rows) + [user] && nextId == old(nextId) + 1
    {
      user := User(nextId, email, password);
      assert forall i :: 0 <= i < |rows| ==> rows[i] in rows;
      rows := rows + [user];
      nextId := nextId + 1;
    }
  }

  class BookTable {
    var rows: seq<Book>
    var nextId: nat

    /** Ids increase along the table and stay below the counter. */
    ghost predicate Valid()
      reads this
    {
      && (forall i, j :: 0 <= i < j < |rows| ==> rows[i].id < rows[j].id)
      && (forall i :: 0 <= i < |rows| ==> rows[i].id < nextId)
    }

    constructor ()
      ensures Valid() && rows == [] && nextId == 1
    {
      rows := [];
      nextId := 1;
    }

    /** `book.findUnique` by id. */
    function FindById(id: int): (r: Option<Book>)
      reads this
      ensures r.Some? ==> r.value in rows && r.value.id == id
      ensures r.None? ==> forall b :: b in rows ==> b.id != id
    {
      match First(rows, (b: Book) => b.id == id)
      case None => None
      case Some(i) => Some(rows[i])
    }

    /** `book.create`: the new row gets the next id. */
    method Create(title: string, author: string, genre: string) returns (book: Book)
      requires Valid()
      modifies this
      ensures Valid()
      ensures book == Book(old(nextId), title, author, genre)
      ensures rows == old(rows) + [book] && nextId == old(nextId) + 1
    {
      book := Book(nextId, title, author, genre);
      rows := rows + [book];
      nextId := nextId + 1;
    }
  }

  class ReviewTable {
    var rows: seq<Review>
    var nextId: nat

    /** Ids increase along the table and stay below the counter. */
    ghost predicate Valid()
      reads this
    {
      && (forall i, j :: 0 <= i < j < |rows| ==> rows[i].id < rows[j].id)
      && (forall i :: 0 <= i < |rows| ==> rows[i].id < nextId)
    }

    constructor ()
      ensures Valid() && rows == [] && nextId == 1
    {
      rows := [];
      nextId := 1;
    }

    /** The position of the review with the given id (`review.findUnique` by id). */
    function IndexOfId(id: int): (r: Option<nat>)
      reads this
      ensures r.Some? ==> r.value < |rows| && rows[r.value].id == id
      ensures r.None? ==> forall i :: 0 <= i < |rows| ==> rows[i].id != id
    {
      First(rows, (v: Review) => v.id == id)
    }

    /** `review.findFirst` by book and user. */
    function FindFirst(bookId: int, userId: nat): (r: Option<Review>)
      reads this
      ensures r.Some? ==> r.value in rows && r.value.bookId == bookId && r.value.userId == userId
      ensures r.None? ==> forall v :: v in rows ==> v.bookId != bookId || v.userId != userId
    {
      match First(rows, (v: Review) => v.bookId == bookId && v.userId == userId)
      case None => None
      case Some(i) => Some(rows[i])
    }

    /** `review.create`: the new row gets the next id. */
    method Create(rating: int, comment: string, userId: nat, bookId: nat) returns (review: Review)
      requires Valid()
      modifies this
      ensures Valid()
      ensures review == Review(old(nextId), rating, comment, userId, bookId)
      ensures rows == old(rows) + [review] && nextId == old(nextId) + 1
    {
      review := Review(nextId, rating, comment, userId, bookId);
      rows := rows + [review];
      nextId := nextId + 1;
    }

    /** `review.update` by id: a column given as None keeps its value, as an undefined
        field of the update's data does. */
    method Update(id: nat, rating: Option<int>, comment: Option<string>) returns (updated: Review)
      requires Valid() && IndexOfId(id).Some?
      modifies this
      ensures Valid() && nextId == old(nextId)
      ensures var i := old(IndexOfId(id)).value;
              var was := old(rows)[i];
              && updated == was.(rating := if rating.Some? then rating.value else was.rating,
                                 comment := if comment.Some? then comment.value else was.comment)
              && rows == old(rows)[i := updated]
    {
      var i := IndexOfId(id).value;
      var was := rows[i];
      updated := was.(rating := if rating.Some? then rating.value else was.rating,
                      comment := if comment.Some? then comment.value else was.comment);
      rows := rows[i := updated];
    }

    /** `review.delete` by id. */
    method Delete(id: nat)
      requires Valid() && IndexOfId(id).Some?
      modifies this
      ensures Valid() && nextId == old(nextId)
      ensures var i := old(IndexOfId(id)).value;
              rows == old(rows)[..i] + old(rows)[i + 1..]
    {
      var i := IndexOfId(id).value;
      rows := rows[..i] + rows[i + 1..];
    }
  }
}
