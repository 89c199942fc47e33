/** The HTTP responses the handlers write: a status code and a JSON body. */
module Api {
  import opened Js
  import opened Store

  /** A review as the book detail lists it: its id, rating, comment and its author's email. */
  datatype ReviewView = ReviewView(id: nat, rating: int, comment: string, userEmail: Option<string>)

  /** The average rating before it is formatted: the sum of the ratings and their number. */
  datatype Mean = Mean(sum: int, count: nat)

  datatype Body =
    | Error(error: string)
    | Message(message: string)
    | UserCreated(message: string, userId: nat)
    | ReviewSaved(message: string, review: Review)
    | BookSaved(message: string, data: Book)
    | BookDetail(book: Book, reviews: seq<ReviewView>, averageRating: Option<Mean>)

  datatype Response = Response(status: nat, body: Body)

  /** What every handler answers when the store throws. */
  const InternalError := Response(500, Error("Internal server error"))
}
