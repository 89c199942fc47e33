# Book-review API: handler logic in Dafny

This project models the decision logic of a small book-review REST API (Express handlers over a
Prisma/SQLite store, bcrypt and jsonwebtoken): signup and login, the token gate in front of the
protected routes, adding, updating and deleting reviews, adding a book, and the book detail
page with its paged review list and rating average.

The three tables (users, books, reviews) are classes holding their rows as a sequence in id
order, with an auto-increment counter; create, update and delete reassign those fields. Each
handler that writes is a method over the tables that returns the HTTP response (status code and
JSON body as a datatype); login and the book detail page, which only read, are functions. The
gate is a method on a request/response object that either writes a response or calls `next`.
Password hashing and comparison and token signing and verification are function-valued
parameters: nothing about them is assumed except what a lemma states in its own `requires`.

Modules, leaves first:

- `Js`: `undefined` as `Option`, JSON body values, JavaScript truthiness of a string,
  `String.prototype.trim` with its whitespace set, and `replace` of the first occurrence.
- `Store`: the rows and the three table classes with their lookups and writes.
- `Api`: responses and bodies. `Jwt`: token payload and claims, the 24-hour lifetime, and the
  signer and verifier types.
- `Auth`: signup and login. `Gate`: token extraction and the gate.
- `Reviews`: the three review handlers, the table invariant they keep (ratings in 1..5, comments
  with text, at most one review per user and book) and the ownership guard.
- `Books`: adding a book; the book detail query with page/limit defaulting, the review window and
  the average as an integer sum and count.
- `Session`: the handlers together (signup then login; a login cookie passing the gate once
  request cookies are parsed, and an expired one failing it; the deployed application, which
  parses no cookies, refusing a request that carries only the login cookie).

A failing store is the parameter `storeFails`: the store throws at its first use in the handler,
nothing is written and the handler answers 500 "Internal server error".

## Model

| member | source | states |
|---|---|---|
| `Js.TrimStart` | controllers/reviewController.js:15 | the result is a suffix of the input, what it drops is all whitespace, and it does not start with whitespace |
| `Js.TrimEnd` | controllers/reviewController.js:15 | the result is a prefix of the input, what it drops is all whitespace, and it does not end with whitespace |
| `Js.TrimEmptyIffBlank` | controllers/reviewController.js:15 | a trimmed string is empty exactly when every character of it is whitespace |
| `Js.IndexOf` | middleware/authMiddleware.js:8 | the position of the first occurrence of the pattern, or None exactly when it occurs nowhere |
| `Js.ReplaceFirst` | middleware/authMiddleware.js:8 | without an occurrence the string is unchanged; otherwise the first occurrence, and only it, is replaced |
| `Js.ReplaceLeadingPattern` | middleware/authMiddleware.js:8 | removing the first occurrence of a pattern from pattern + t gives back t |
| `Store.UserTable.FindByEmail` | controllers/authController.js:18 | finds a stored user with that email, or None exactly when no stored user has it |
| `Store.UserTable.FindById` | controllers/bookController.js:72-74 | finds a stored user with that id, or None exactly when no stored user has it |
| `Store.UserTable.Create` | controllers/authController.js:27-29 | appends exactly one user with the next id and the given fields, keeping ids increasing and emails unique |
| `Store.BookTable.FindById` | controllers/reviewController.js:19 | finds a stored book with that id, or None exactly when none has it |
| `Store.BookTable.Create` | controllers/bookController.js:13-15 | appends exactly one book with the next id and the given fields |
| `Store.ReviewTable.IndexOfId` | controllers/reviewController.js:70 | the position of the review with that id, or None exactly when no review has it |
| `Store.ReviewTable.FindFirst` | controllers/reviewController.js:25-27 | finds a review of that book by that user, or None exactly when there is none |
| `Store.ReviewTable.Create` | controllers/reviewController.js:32-39 | appends exactly one review with the next id and the given fields |
| `Store.ReviewTable.Update` | controllers/reviewController.js:75-78 | replaces that one row; an omitted rating or comment keeps its value; id, user and book never change |
| `Store.ReviewTable.Delete` | controllers/reviewController.js:99 | removes that one row and keeps the order of the others |
| `Auth.Signup` | controllers/authController.js:10-36 | 400 on a missing or empty field, 500 on a store fault, 409 on a taken email; 201 exactly otherwise, appending one user whose password is `hash(password, 10)` and answering its new id; every other outcome leaves the table unchanged |
| `Auth.Login` | controllers/authController.js:39-72 | 400 on a missing field; 500 on a store fault once both fields are present; 200 only for a stored user with that email whose hash the password matches, with the token cookie for that user's id and email, for 24 hours; a cookie is set only on 200; every other answer is 400, 401 or 500 |
| `Auth.LoginAcceptsStoredCredentials` | controllers/authController.js:47-67 | stored credentials that compare equal log in, with the cookie signed for that user |
| `Auth.LoginRejectsUnmatchedCredentials` | controllers/authController.js:47-52 | when no stored user with that email matches the password, login answers 401 "Invalid credentials" |
| `Auth.UnknownEmailLooksLikeWrongPassword` | controllers/authController.js:48-52 | an unknown email and a wrong password for a known email get the identical reply |
| `Gate.ExtractToken` | middleware/authMiddleware.js:8 | a non-empty cookie wins; otherwise the header with its first "Bearer " removed, unchanged when it has none, and no token exactly when there is no header |
| `Gate.Decide` | middleware/authMiddleware.js:6-21 | a rejection is 401 or 403; proceeding means a non-empty token was extracted and the verifier returned exactly these claims |
| `Gate.BearerHeaderYieldsToken` | middleware/authMiddleware.js:8 | with no usable cookie, header "Bearer " + t yields exactly t |
| `Gate.MissingTokenIsUnauthenticated` | middleware/authMiddleware.js:8-12 | with no usable cookie and no header, or a header of just "Bearer ", the gate answers 401 |
| `Gate.DecisionIsThreeWay` | middleware/authMiddleware.js:10-20 | 401 exactly when no token is extracted, 403 exactly when verification fails, proceeding with claims c exactly when verification returns c |
| `Gate.AuthenticateToken` | middleware/authMiddleware.js:6-21 | on a rejection the response is written and neither `req.user` nor the `next` count changes; on success `req.user` is the claims, `next` is called once and no response is written; exactly one of the two happens |
| `Reviews.OwnedIndex` | controllers/reviewController.js:70-73 | the position of the review only when it exists and the acting user wrote it; a missing review and another user's give the same None |
| `Reviews.AddReview` | controllers/reviewController.js:5-51 | 400 for a non-number or out-of-range rating, 400 for a missing or blank comment, 500 for a non-string comment or a store fault, 404 for a missing book, 400 for a second review of a book by the same user; 201 exactly otherwise, appending one review with the given rating and untrimmed comment, the acting user and the book; every rejection leaves the table unchanged; the table invariant and book references are kept |
| `Reviews.UpdateReview` | controllers/reviewController.js:55-85 | only supplied fields are checked, before the lookup; 403 for a missing or foreign review; 200 exactly otherwise, changing only the supplied rating and comment of that one row; every rejection leaves the table unchanged; the table invariant is kept |
| `Reviews.DeleteReview` | controllers/reviewController.js:88-105 | 403 for a missing or foreign review; 200 exactly otherwise, removing exactly that review and keeping every other; every rejection leaves the table unchanged; the table invariant is kept |
| `Reviews.InsertKeepsInvariant` | controllers/reviewController.js:25-39 | appending a valid review for a (user, book) pair not yet present keeps ratings in 1..5, comments non-blank and pairs unique |
| `Reviews.InsertKeepsReferences` | controllers/reviewController.js:19-39 | appending a review of an existing book keeps every review's book in the book table |
| `Reviews.ReplaceKeepsInvariant` | controllers/reviewController.js:61-78 | replacing a row by a valid one with the same user and book keeps the invariant |
| `Reviews.RemovalKeepsInvariant` | controllers/reviewController.js:99 | removing a row keeps the invariant |
| `Reviews.RemovalKeepsOthers` | controllers/reviewController.js:99 | removing row i leaves exactly the rows whose id differs from its id |
| `Reviews.NewestIsLast` | controllers/reviewController.js:32-39 | the newest review is found by its id at the end of the table |
| `Reviews.AddThenDelete` | controllers/reviewController.js:32-100 | a review just added can be deleted by its author, which gives back the rows as they were |
| `Books.AddBook` | controllers/bookController.js:5-25 | 400 unless title, author and genre are all non-empty, 500 on a store fault; 201 exactly otherwise, appending exactly one book with the given fields; every rejection leaves the table unchanged |
| `Books.PagingOf` | controllers/bookController.js:58-60 | page defaults to 1 and limit to 5 when absent or 0; skip is (page - 1) * limit |
| `Books.Window` | controllers/bookController.js:64-67 | the elements from position skip on, at most take of them, and fewer only at the end |
| `Books.OfBook` | controllers/bookController.js:83-86 | exactly the reviews of that book, none longer than the table |
| `Books.OfBookCounts` | controllers/bookController.js:83-86 | each review of the book occurs in the list as often as in the table, and no other review occurs, so the average's count is the number of the book's reviews |
| `Books.NoReviewsOfUnreviewedBook` | controllers/bookController.js:83-90 | a book no review refers to has an empty review list |
| `Books.RatingSumBounds` | controllers/bookController.js:88-90 | with every rating in 1..5, the sum of n ratings lies between n and 5n |
| `Books.Views` | controllers/bookController.js:68-75 | one view per review, in order, with the review author's email |
| `Books.Detail` | controllers/bookController.js:62-92 | the 200 body: the book, the reviews from position skip on, at most one page of them, each with its author's email, and no average exactly when the book has no reviews, otherwise the sum and count of all of them |
| `Books.GetBookById` | controllers/bookController.js:55-97 | 500 on a store fault, 404 for a missing book; 200 exactly otherwise, with the detail of that book over all of its reviews and the defaulted paging |
| `Books.DetailOfUnreviewedBook` | controllers/bookController.js:62-92 | a book without reviews is shown with an empty list and a null average, on every page |
| `Books.PageListsItsReviews` | controllers/bookController.js:58-67 | position pos of page p (limit l) lists review number (p - 1) * l + pos of the book |
| `Books.AverageCoversAllReviews` | controllers/bookController.js:83-90 | the average is the same for every page and limit, is the sum and count over all of the book's reviews, and with the review invariant count <= sum <= 5 * count |
| `Books.EveryReviewIsOnItsPage` | controllers/bookController.js:58-67 | review k of a book is listed on page k / limit + 1 at position k % limit |
| `Books.NoReviewsForUnusedId` | controllers/bookController.js:83-86 | when every review refers to a stored book, no review refers to the next book id |
| `Books.MoreBooksKeepReferences` | controllers/bookController.js:13-15 | adding books keeps every review's book in the table |
| `Books.NewestBookIsFound` | controllers/bookController.js:62 | the newest book is found by its id |
| `Books.AddBookThenGet` | controllers/bookController.js:13-92 | a book just added is found with no reviews and no average |
| `Session.LoginTokenPassesGate` | middleware/authMiddleware.js:8-17 | once request cookies are parsed, before expiry the login cookie's token passes the gate, which attaches the id and email of the stored user that logged in |
| `Session.ExpiredLoginTokenIsRejected` | middleware/authMiddleware.js:14-20 | once request cookies are parsed, after expiry the same cookie is answered 403 |
| `Session.DeployedGateIgnoresLoginCookie` | index.js:14 | as deployed, with no cookie parser, the cookie input is absent: a successful login sets the cookie, yet a request carrying only that cookie is answered 401 |
| `Session.SignupThenLogin` | controllers/authController.js:24-57 | when `compare` accepts a password against its own hash, signup then login with the same credentials succeeds with the cookie for the new user |

## Left out

- bcrypt and jsonwebtoken internals: hashing, comparison, signing and verification are
  parameters. The random salt is not modelled: `hash` is a function of password and cost.
  Whether a token verifies before and not after its expiry is stated pointwise in the
  `requires` of `Session.LoginTokenPassesGate` and `Session.ExpiredLoginTokenIsRejected`.
- The signing secret from the environment is part of the signer and verifier parameters.
- Prisma and SQLite: the tables are in-memory sequences. Store exceptions are the single
  `storeFails` flag, taken at the first store access of a handler. The concurrent duplicate
  insert behind the P2002 unique-constraint error in `addReview` is not modelled; its 400
  "Duplicate review not allowed." cannot arise in a sequential model.
- Foreign keys are not enforced by the tables: the review author's email on the detail page is an
  `Option`, None for a user id no user has.
- `getBooks` (the raw SQL title/author/genre filter with its own paging) is not part of this model.
- `.toFixed(1)` on the average is floating point: the average is returned as an integer sum and
  count.
- `parseInt` of path and query strings: path ids are already-parsed integers, page and limit are
  `Option<nat>` with None for a value that does not parse. Negative page or limit values and non-integer
  rating numbers are not modelled.
- Auth and book body fields are strings or absent; numbers, objects and other JSON values there
  are not modelled (bcrypt and Prisma reject them with an error). Review body fields are full
  JSON values, because the review handlers inspect their type themselves.
- Cookie flags other than the name, value and `maxAge` (`httpOnly`, `secure`, `sameSite`).
- Express routing, server start-up, the Swagger comments and the `console.error` logging.
- The route documentation for updating and deleting reviews lists separate 403 and 404 answers,
  and the login test reads a token from the response body; the model follows the handlers,
  which answer 403 for both cases and put the token only in the cookie.
- The gate's `cookie` input stands for `req.cookies?.token`, which needs a cookie parser that
  `index.js` does not install; `Session.LoginTokenPassesGate` and
  `Session.ExpiredLoginTokenIsRejected` describe the gate with one installed, and
  `Session.DeployedGateIgnoresLoginCookie` the application as deployed.

## Findings

| source | as written | input that shows it | evidently intended | confidence | as-written member | corrected member |
|---|---|---|---|---|---|---|
| index.js:14, middleware/authMiddleware.js:8 | only `express.json()` is installed, so `req.cookies` is undefined and the cookie login sets (controllers/authController.js:60) is never read | log in, then request a protected route carrying only the `token` cookie: 401 "Access denied. No token provided." | a cookie parser fills `req.cookies`, so the login cookie passes the gate until it expires | high; not executed | `Session.DeployedGateIgnoresLoginCookie` | `Session.LoginTokenPassesGate` |
