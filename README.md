# Bibliophile backend and frontend helpers, modelled in Dafny

Bibliophile is a social reading site. Users register and log in through a session cookie.
They keep booklists that hold book ids, write reviews of books (a rate of 0..10 half-stars),
save quotes and follow each other. The Kotlin backend (Ktor with Exposed over a relational
database) is the core modelled here: its schema, its repositories and its HTTP routes. Three
small React helpers are modelled as well: the rating histogram, description truncation and
search pagination.

Layout, following the program's structure:

- `common.dfy`: `Option`, the 32-bit range of Kotlin's `Int`.
- `kotlin_text.dfy`: the bits of the Kotlin standard library the routes use. These are
  `isBlank`, `toIntOrNull`, integer-to-string and `contains(…, ignoreCase = true)`.
- `table.dfy`: a table is a sequence of rows `Row(id, cols)`. The module has lookups,
  overwrite, filter and delete by id.
- `schema.dfy`: the six tables and every constraint declared in `db/tables/*.kt`. These are
  the unique indexes, the foreign keys, the varchar limits and the nullable columns. It also
  has the cascading deletes, and a lemma per write stating exactly when that write keeps the
  schema.
- `models.dfy`, `dao_mapper.dfy`: the models and request bodies, and the row-to-model mapping.
- `database.dfy`: class `Db.Database`, the store. Each of its fields is one table, and it keeps
  one id sequence per table. A write commits only when the new state meets the schema;
  otherwise the statement raises and nothing changes. Deletes cascade.
- `*_repository.dfy`: the five repositories. Reads are functions of a snapshot `Tables`.
  Writes are methods on the `Database`, returning `Ok(value)` or `ConstraintViolation` (an
  `SQLException`).
- `http.dfy`, `route_extensions.dfy`: responses, parameters, the session, and the shared route
  helpers.
- `*_routes.dfy`: the handlers. GET handlers are functions of the tables and the parameters.
  Mutating handlers are methods on the `Database`. Each session-gated one first applies the
  session gate (401 without a session), then reads its parameters, then calls the repository.
  `POST /register` and `POST /login` are not gated.
- `review_histogram.dfy`, `description_text.dfy`, `search_page.dfy`: the frontend helpers.

The model follows the code, also where a reader might expect otherwise:

- Adding a book that a list already holds breaks the unique index. The repository does not
  catch the exception, so the answer is a 500, not a 409.
- A non-owner adding a book gets a 409 without a body.
- Removing a book the list does not hold gets the same 403 "You don't own this booklist" as a
  non-owner.
- `DELETE /followers` answers 200 whether or not an edge existed.
- The identifier of `/reviews/user/{identifier}` and `/followers/{identifier}/…` is tried as an
  id first. A numeric username that equals another user's id therefore resolves to that other
  user (see `RouteExtensions.ResolveByUsername`).
- The "negative user id" branch of the follower listings cannot fire on a store whose ids come
  from the sequences (`FollowerRoutes.NegativeIdBranchUnreachable`).

## Model

| member | source | states |
|---|---|---|
| KotlinText.ToIntOrNull | backend/src/main/kotlin/routes/RouteExtensions.kt:32 | a string reads as an integer exactly when it is an optionally signed run of decimal digits whose value fits in 32 bits |
| KotlinText.ParseIntToString | backend/src/main/kotlin/routes/BooklistRoutes.kt:51 | an id written in decimal reads back as the same id |
| DaoMapper.BooklistOf | backend/src/main/kotlin/db/DaoMapper.kt:21-26 | a booklist's description is always present: "" when stored as null, the stored text otherwise |
| DaoMapper.LosslessMappings | backend/src/main/kotlin/db/DaoMapper.kt:14-38 | the user, quote and follow mappings are lossless both ways |
| DaoMapper.BooklistMappingLossy | backend/src/main/kotlin/db/DaoMapper.kt:21-26 | the booklist mapping round-trips exactly when the description is not null; null and "" map to the same record |
| Schema.EmptyValid | backend/src/main/kotlin/db/tables/UsersTable.kt:5-9 | the empty database meets every constraint |
| Schema.InsertUserValid | backend/src/main/kotlin/db/tables/UsersTable.kt:6-8 | a new user keeps the schema iff its email and username are unused and within 255/50/255 characters |
| Schema.UpdateUserValid | backend/src/main/kotlin/db/tables/UsersTable.kt:6-8 | overwriting a user keeps the schema iff the new columns fit and clash with no other user's email or username |
| Schema.SameUserIdsValid | backend/src/main/kotlin/db/tables/BooklistsTable.kt:7-11 | replacing the users by valid ones with the same ids keeps every foreign key |
| Schema.InsertBooklistValid | backend/src/main/kotlin/db/tables/BooklistsTable.kt:6-17 | a new list keeps the schema iff its owner exists, its name fits 50 and its description 255, and the owner has no list of that name |
| Schema.UpdateBooklistValid | backend/src/main/kotlin/db/tables/BooklistsTable.kt:12-16 | overwriting a list keeps the schema iff the owner exists, the columns fit and no other list of the owner has the name |
| Schema.InsertBooklistBookValid | backend/src/main/kotlin/db/tables/BooklistBooksTable.kt:6-16 | a new entry keeps the schema iff its list exists, the book id fits 32 and the pair (book, list) is new |
| Schema.InsertReviewValid | backend/src/main/kotlin/db/tables/ReviewsTable.kt:7-17 | a new review keeps the schema iff its owner exists, the book id fits 32 and the content (nullable) fits 255 |
| Schema.UpdateReviewValid | backend/src/main/kotlin/db/tables/ReviewsTable.kt:8-14 | overwriting a review keeps the schema under the same conditions as inserting |
| Schema.InsertQuoteValid | backend/src/main/kotlin/db/tables/QuotesTable.kt:6-12 | a new quote keeps the schema iff its owner exists and the content fits 255 |
| Schema.UpdateQuoteValid | backend/src/main/kotlin/db/tables/QuotesTable.kt:12 | overwriting a quote keeps the schema under the same conditions |
| Schema.InsertFollowValid | backend/src/main/kotlin/db/tables/FollowersTable.kt:6-18 | a new edge keeps the schema iff both users exist; no uniqueness and no self-edge rule |
| Schema.CascadeDeleteBooklists | backend/src/main/kotlin/db/tables/BooklistBooksTable.kt:7-11 | deleting lists removes exactly them and their entries; the other tables are untouched |
| Schema.CascadeDeleteUsers | backend/src/main/kotlin/db/tables/BooklistsTable.kt:7-11 | deleting users removes exactly them, their lists, those lists' entries, their reviews, their quotes and every edge touching them (the cascades of all five referencing tables) |
| Schema.CascadeDeleteBooklistsValid | backend/src/main/kotlin/db/tables/BooklistBooksTable.kt:7-11 | the list cascade keeps the schema |
| Schema.CascadeDeleteUsersValid | backend/src/main/kotlin/db/tables/FollowersTable.kt:8-18 | the user cascade keeps the schema |
| Schema.FilterLeafTablesValid | backend/src/main/kotlin/db/tables/ReviewsTable.kt:8-12 | dropping rows of the tables nothing references keeps the schema |
| Schema.CascadeDeleteUsersShrinks | backend/src/main/kotlin/repositories/UserRepository.kt:82-83 | the users table shrinks iff some user matched, which is `deletedRows > 0` |
| Db.DropBook | backend/src/main/kotlin/repositories/BooklistRepository.kt:98-101 | the entries left are exactly those not pairing that list with that book |
| Db.DropBookShrinks | backend/src/main/kotlin/repositories/BooklistRepository.kt:98-101 | the delete removes a row iff the list holds the book |
| Db.DeleteUsersKeepsValid | backend/src/main/kotlin/db/tables/FollowersTable.kt:8-18 | the user cascade keeps the store invariant (schema and unused next ids) |
| Db.Database.constructor | backend/src/main/kotlin/db/tables/UsersTable.kt:5-9 | a new store is empty and valid |
| Db.Database.InsertUser | backend/src/main/kotlin/db/tables/UsersTable.kt:5-9 | commits iff `CanInsertUser`, under a fresh id; the sequence advances either way; nothing changes on failure |
| Db.Database.UpdateUser | backend/src/main/kotlin/db/tables/UsersTable.kt:6-8 | commits the new columns iff `CanUpdateUser`, else changes nothing |
| Db.Database.DeleteUsers | backend/src/main/kotlin/db/tables/BooklistsTable.kt:7-11 | the new state is the user cascade of the old |
| Db.Database.InsertBooklist | backend/src/main/kotlin/db/tables/BooklistsTable.kt:6-17 | commits iff `CanInsertBooklist`, under a fresh id |
| Db.Database.UpdateBooklist | backend/src/main/kotlin/db/tables/BooklistsTable.kt:12-16 | commits iff `CanUpdateBooklist` |
| Db.Database.DeleteBooklist | backend/src/main/kotlin/db/tables/BooklistBooksTable.kt:7-11 | the new state is the list cascade of the old |
| Db.Database.InsertBooklistBook | backend/src/main/kotlin/db/tables/BooklistBooksTable.kt:6-16 | commits iff `CanInsertBooklistBook`, under a fresh id |
| Db.Database.DeleteBooklistBooks | backend/src/main/kotlin/repositories/BooklistRepository.kt:98-101 | the entries become `DropBook` of the old ones |
| Db.Database.InsertReview | backend/src/main/kotlin/db/tables/ReviewsTable.kt:7-17 | commits iff `CanWriteReview`, under a fresh id |
| Db.Database.UpdateReview | backend/src/main/kotlin/db/tables/ReviewsTable.kt:7-17 | commits iff `CanWriteReview` |
| Db.Database.DeleteReview | backend/src/main/kotlin/repositories/ReviewRepository.kt:171 | removes that review row only |
| Db.Database.InsertQuote | backend/src/main/kotlin/db/tables/QuotesTable.kt:6-12 | commits iff `CanWriteQuote`, under a fresh id |
| Db.Database.UpdateQuote | backend/src/main/kotlin/db/tables/QuotesTable.kt:12 | commits iff `CanWriteQuote` |
| Db.Database.DeleteQuote | backend/src/main/kotlin/repositories/QuoteRepository.kt:52 | removes that quote row only |
| Db.Database.InsertFollow | backend/src/main/kotlin/db/tables/FollowersTable.kt:6-18 | commits iff `CanInsertFollow`, under a fresh id |
| Db.Database.DeleteFollow | backend/src/main/kotlin/repositories/FollowerRepository.kt:55 | removes that edge row only |
| BooklistRepository.AllBooklists | backend/src/main/kotlin/repositories/BooklistRepository.kt:22-24 | one mapped record per stored list, in table order |
| BooklistRepository.GetBooklist | backend/src/main/kotlin/repositories/BooklistRepository.kt:27-29 | absent iff no list has the id; otherwise the mapping of that row |
| BooklistRepository.OwnsListMeaning | backend/src/main/kotlin/repositories/BooklistRepository.kt:42-43 | the ownership gate holds iff a list with that id belongs to the user |
| BooklistRepository.BooksOf | backend/src/main/kotlin/repositories/BooklistRepository.kt:68-69 | a book is listed iff an entry pairs it with the list |
| BooklistRepository.GetBooklistWithBooks | backend/src/main/kotlin/repositories/BooklistRepository.kt:66-78 | absent for a missing list; otherwise the list's columns (null description as "") with exactly its books |
| BooklistRepository.ReadAfterInsert | backend/src/main/kotlin/repositories/BooklistRepository.kt:32-38 | a list just appended reads back by id and appears in `allBooklists` |
| BooklistRepository.ReadAfterUpdate | backend/src/main/kotlin/repositories/BooklistRepository.kt:41-48 | a list just overwritten reads back with the new columns |
| BooklistRepository.BookAfterInsert | backend/src/main/kotlin/repositories/BooklistRepository.kt:84-88 | an entry just appended to an existing list shows among its books |
| BooklistRepository.AddBooklist | backend/src/main/kotlin/repositories/BooklistRepository.kt:32-38 | succeeds iff `CanInsertBooklist`; the record carries the request's columns and the caller as owner, reads back by id and is in `allBooklists`; on failure nothing changes |
| BooklistRepository.UpdateBooklist | backend/src/main/kotlin/repositories/BooklistRepository.kt:41-52 | false iff the list is missing or not the caller's; true iff owned and the new columns keep the schema, and then the list reads back with them; otherwise nothing changes |
| BooklistRepository.RemoveBooklist | backend/src/main/kotlin/repositories/BooklistRepository.kt:55-63 | true iff owned; then the list and its books are gone by cascade; false changes nothing |
| BooklistRepository.RemoveKeepsOthers | backend/src/main/kotlin/repositories/BooklistRepository.kt:55-63 | after removal the list and its books are gone and every other list reads as before |
| BooklistRepository.AddBookToBooklist | backend/src/main/kotlin/repositories/BooklistRepository.kt:81-92 | false (no row) iff not owned; true iff owned and the entry keeps the schema, and then the book is among the list's books |
| BooklistRepository.RemoveBookFromBooklist | backend/src/main/kotlin/repositories/BooklistRepository.kt:95-105 | true iff owned and the list held the book; an owned list loses the book either way; otherwise nothing changes |
| ReviewRepository.Joined | backend/src/main/kotlin/repositories/ReviewRepository.kt:20-42 | a review joins iff its owner exists, and carries the owner's username |
| ReviewRepository.JoinUsers | backend/src/main/kotlin/repositories/ReviewRepository.kt:47-68 | the inner join keeps exactly the reviews whose owner exists, in order; all of them when every owner exists |
| ReviewRepository.GetReview | backend/src/main/kotlin/repositories/ReviewRepository.kt:19-43 | a found review has that id and is the join of its row |
| ReviewRepository.GetReviewMeaning | backend/src/main/kotlin/repositories/ReviewRepository.kt:19-43 | under the schema a review is found iff the id exists, and it is that row joined with its owner |
| ReviewRepository.AllReviewsInOrder | backend/src/main/kotlin/repositories/ReviewRepository.kt:46-69 | under the schema every review comes back, in table order |
| ReviewRepository.ReviewsByUserExact | backend/src/main/kotlin/repositories/ReviewRepository.kt:72-95 | a review is listed for a user iff it is a stored review of that user, joined |
| ReviewRepository.ReviewsByBookExact | backend/src/main/kotlin/repositories/ReviewRepository.kt:98-121 | every review listed for a book is of that book, and each joined review of the book is listed |
| ReviewRepository.ReadBack | backend/src/main/kotlin/repositories/ReviewRepository.kt:134-147 | a stored review reads back as the request's fields with the owner's username |
| ReviewRepository.ReadBackAfterSet | backend/src/main/kotlin/repositories/ReviewRepository.kt:151-160 | an overwritten review reads back with the new fields |
| ReviewRepository.AddReview | backend/src/main/kotlin/repositories/ReviewRepository.kt:124-148 | succeeds iff `CanWriteReview`; answers the request's fields with the owner's username and a fresh id, which reads back; on failure nothing changes |
| ReviewRepository.UpdateReview | backend/src/main/kotlin/repositories/ReviewRepository.kt:151-165 | false iff not owned; true iff owned and the new columns fit, and then all five fields are replaced and read back; otherwise nothing changes |
| ReviewRepository.DeleteReview | backend/src/main/kotlin/repositories/ReviewRepository.kt:168-176 | true iff owned, deleting only that review; false changes nothing |
| QuoteRepository.AllQuotes | backend/src/main/kotlin/repositories/QuoteRepository.kt:18-20 | one record per stored quote, in table order |
| QuoteRepository.GetQuote | backend/src/main/kotlin/repositories/QuoteRepository.kt:23-25 | absent iff no quote has the id; otherwise that row |
| QuoteRepository.OwnsQuoteMeaning | backend/src/main/kotlin/repositories/QuoteRepository.kt:37-38 | the gate holds iff a quote with that id belongs to the user |
| QuoteRepository.ReadBackAfterSet | backend/src/main/kotlin/repositories/QuoteRepository.kt:39-41 | an overwritten quote reads back with the new content |
| QuoteRepository.AddQuote | backend/src/main/kotlin/repositories/QuoteRepository.kt:28-33 | succeeds iff `CanWriteQuote`, appending exactly one row with the caller and the content under a fresh id; on failure nothing changes |
| QuoteRepository.EditQuote | backend/src/main/kotlin/repositories/QuoteRepository.kt:36-46 | false iff not owned; true iff owned and the content fits 255, and then only the content changes and reads back |
| QuoteRepository.DeleteQuote | backend/src/main/kotlin/repositories/QuoteRepository.kt:49-57 | true iff owned, deleting only that quote; false changes nothing |
| FollowerRepository.EdgeRows | backend/src/main/kotlin/repositories/FollowerRepository.kt:51-54 | exactly the rows of that (follower, followee) edge |
| FollowerRepository.AllFollows | backend/src/main/kotlin/repositories/FollowerRepository.kt:17-19 | one record per stored edge, in table order |
| FollowerRepository.FollowersOf | backend/src/main/kotlin/repositories/FollowerRepository.kt:22-25 | exactly the stored edges pointing at the user |
| FollowerRepository.Following | backend/src/main/kotlin/repositories/FollowerRepository.kt:28-31 | exactly the stored edges starting at the user |
| FollowerRepository.IsFollowingConsistent | backend/src/main/kotlin/repositories/FollowerRepository.kt:42-47 | `isFollowing(a, b)` iff the edge is among `a`'s following iff it is among `b`'s followers |
| FollowerRepository.RepeatedAndSelfEdgesAccepted | backend/src/main/kotlin/db/tables/FollowersTable.kt:6-18 | the table accepts a repeated edge and a self-edge |
| FollowerRepository.AddFollow | backend/src/main/kotlin/repositories/FollowerRepository.kt:34-39 | succeeds iff both users exist; the edge is appended and `isFollowing` holds; on failure nothing changes |
| FollowerRepository.DeleteFollow | backend/src/main/kotlin/repositories/FollowerRepository.kt:50-56 | true iff the edge existed; afterwards every row of that edge is gone, every other edge stays and the other tables are unchanged |
| FollowerRepository.DeleteStep | backend/src/main/kotlin/repositories/FollowerRepository.kt:55 | deleting the next row of the edge keeps the loop's account of what remains |
| FollowerRepository.AllEdgesDeleted | backend/src/main/kotlin/repositories/FollowerRepository.kt:55 | once every row found is deleted no row of the edge remains; the list found was non-empty iff the edge existed |
| UserRepository.AllUsers | backend/src/main/kotlin/repositories/UserRepository.kt:15-17 | one record per stored user, in table order |
| UserRepository.FindById | backend/src/main/kotlin/repositories/UserRepository.kt:20-22 | absent iff no user has the id; otherwise that user |
| UserRepository.FindByUsername | backend/src/main/kotlin/repositories/UserRepository.kt:25-29 | absent iff no user has the username; otherwise a stored user with it |
| UserRepository.FindByUsernameUnique | backend/src/main/kotlin/repositories/UserRepository.kt:25-29 | under the unique index the user found is the only one with that name |
| UserRepository.Profile | backend/src/main/kotlin/repositories/UserRepository.kt:32-52 | absent iff the user is missing; otherwise its id and username with exactly its lists, its quotes and its joined reviews |
| UserRepository.NewUserProfileEmpty | backend/src/main/kotlin/repositories/UserRepository.kt:32-52 | a user just added has a profile with no lists, quotes or reviews |
| UserRepository.Authenticate | backend/src/main/kotlin/repositories/UserRepository.kt:54-57 | a user returned has exactly that username and hash |
| UserRepository.AuthenticateMeaning | backend/src/main/kotlin/repositories/UserRepository.kt:54-57 | under the schema authentication succeeds iff some user has both that username and that hash |
| UserRepository.CreatedReadsBack | backend/src/main/kotlin/repositories/UserRepository.kt:60-66 | a user just inserted is found by id and by username |
| UserRepository.Create | backend/src/main/kotlin/repositories/UserRepository.kt:60-66 | succeeds iff `CanInsertUser`; the user carries the given columns under a fresh id and is found by id and username; on failure nothing changes |
| UserRepository.UpdatedReadsBack | backend/src/main/kotlin/repositories/UserRepository.kt:69-78 | an overwritten user reads back with the new columns |
| UserRepository.Update | backend/src/main/kotlin/repositories/UserRepository.kt:69-78 | false iff the id is missing; true iff the new username fits and is unused; then username and hash change and the email stays |
| UserRepository.DeleteById | backend/src/main/kotlin/repositories/UserRepository.kt:81-84 | true iff the user existed; the state is the user cascade and the user is gone |
| UserRepository.UsersNamed | backend/src/main/kotlin/repositories/UserRepository.kt:88 | exactly the ids of users with that username |
| UserRepository.DeletedByName | backend/src/main/kotlin/repositories/UserRepository.kt:87-90 | deleting the users of a name shrinks the table iff one existed, and leaves none of that name |
| UserRepository.DeleteByUsername | backend/src/main/kotlin/repositories/UserRepository.kt:87-90 | true iff a user had the name; the state is that user's cascade; none of that name remains |
| RouteExtensions.GetParam | backend/src/main/kotlin/routes/RouteExtensions.kt:15-23 | found iff present and not blank, with that value; otherwise exactly the 400 "Missing '…' parameter" |
| RouteExtensions.GetIntParam | backend/src/main/kotlin/routes/RouteExtensions.kt:31-37 | found iff present and readable as a 32-bit integer, with the value `toIntOrNull` reads; otherwise 400 "Invalid or missing '…' parameter" |
| RouteExtensions.GetIntParamRoundTrip | backend/src/main/kotlin/routes/RouteExtensions.kt:31-37 | an id written in decimal is read back as that id |
| RouteExtensions.ServerError | backend/src/main/kotlin/routes/RouteExtensions.kt:44-46 | a 500 with the message |
| RouteExtensions.RespondSqlException | backend/src/main/kotlin/routes/RouteExtensions.kt:54-71 | 409 iff an SQL exception, 400 "Unexpected error: …" otherwise; the 409 message is "Database violation" when the custom check holds, then "Database constraint violation" when the driver message mentions "constraint" (ignoring case), else "Database error: " followed by the driver message ("null" when absent) |
| RouteExtensions.SqlMessagesClassified | backend/src/main/kotlin/routes/BooklistRoutes.kt:53-55 | a "unique constraint" message is "Database violation" under the booklist check and "Database constraint violation" under the default; one without "constraint" is answered "Database error: " + the message under both |
| RouteExtensions.UserByIdentifier | backend/src/main/kotlin/routes/RouteExtensions.kt:88-90 | an identifier that `toIntOrNull` reads as an existing user's id ("7", "007", "+7") names that user; otherwise it names the user with that username, and nobody when no user has it |
| RouteExtensions.ResolveUserId | backend/src/main/kotlin/routes/RouteExtensions.kt:79-98 | 400 iff the identifier is missing or blank; 404 "User not found" iff it is neither an existing user's id nor an existing username; otherwise the id it reads as, or else the id of the user with that username |
| RouteExtensions.ResolveById | backend/src/main/kotlin/routes/RouteExtensions.kt:88-90 | an existing user's id in decimal resolves to that user |
| RouteExtensions.ResolveByUsername | backend/src/main/kotlin/routes/RouteExtensions.kt:88-90 | a username resolves to its user unless it reads as another existing user's id, which then wins |
| BooklistRoutes.WriteFailureAnswer | backend/src/main/kotlin/routes/RouteExtensions.kt:58-69 | a failed booklist write with fitting columns is a 409; a too-long column is a 400 "Unexpected error: …" when the library raises a non-SQL exception for it, a 409 when it raises an `SQLException` |
| BooklistRoutes.ListAll | backend/src/main/kotlin/routes/BooklistRoutes.kt:19-21 | 200 with exactly `allBooklists`: one mapped record per list, in table order |
| BooklistRoutes.Show | backend/src/main/kotlin/routes/BooklistRoutes.kt:23-31 | 400 for an unreadable id; 200 with that list iff it exists; else 404 "Booklist not found" |
| BooklistRoutes.ShowWithBooks | backend/src/main/kotlin/routes/BooklistRoutes.kt:33-41 | 400 for an unreadable id; 200 iff the list exists, with exactly `booklistWithBooks`: its name, its description (null as "") and exactly its books; else 404 |
| BooklistRoutes.CreatedListIsShown | backend/src/main/kotlin/routes/BooklistRoutes.kt:51 | the id announced on creation leads `GET /booklists/{id}` to the list |
| BooklistRoutes.Create | backend/src/main/kotlin/routes/BooklistRoutes.kt:44-57 | 401 without a session; 201 iff the list is stored, announcing its fresh id; the new state is the old with exactly that row appended, which reads back; otherwise `respondSqlException` with the unique-constraint check on the exception the write raised, and no change |
| BooklistRoutes.AddBook | backend/src/main/kotlin/routes/BooklistRoutes.kt:59-69 | 401; 400; 409 without a body iff not owned; 201 iff owned and the entry fits, and then the new state is the old with exactly one entry (list, book) appended and the book is listed; otherwise 500 and no change |
| BooklistRoutes.Update | backend/src/main/kotlin/routes/BooklistRoutes.kt:71-86 | 401; 400; 403 iff not owned; 200 iff owned and the columns fit, and then the new state is the old with only that list overwritten, which reads back; otherwise `respondSqlException` with the default check and no change |
| BooklistRoutes.Remove | backend/src/main/kotlin/routes/BooklistRoutes.kt:88-97 | 401; 400; 200 iff owned, and then the list cascade; else 403 and no change |
| BooklistRoutes.RemoveBook | backend/src/main/kotlin/routes/BooklistRoutes.kt:99-109 | 401; 400 for the id, then for a blank book id; 200 iff owned and the book was listed, else 403; an owned list loses the book |
| ReviewRoutes.Validate | backend/src/main/kotlin/routes/ReviewRoutes.kt:94-100 | passes iff the rate is in 0..10 and the book id is not blank; the rate is checked first |
| ReviewRoutes.ListAll | backend/src/main/kotlin/routes/ReviewRoutes.kt:18-20 | 200 with every joined review |
| ReviewRoutes.Show | backend/src/main/kotlin/routes/ReviewRoutes.kt:22-31 | 400 for an unreadable id; 200 iff the review exists, with exactly `review(id)` joined with its owner's username; else 404 "Review not found" |
| ReviewRoutes.ByUser | backend/src/main/kotlin/routes/ReviewRoutes.kt:33-38 | the resolver's 400/404, else 200 with that user's reviews |
| ReviewRoutes.ByBook | backend/src/main/kotlin/routes/ReviewRoutes.kt:40-45 | 400 for a blank book id, else 200 with exactly `getReviewsById`: every listed review is of that book and every review of the book whose owner exists is listed |
| ReviewRoutes.Create | backend/src/main/kotlin/routes/ReviewRoutes.kt:48-59 | 401; the validation error; 201 iff valid and stored, announcing the fresh id; the new state is the old with exactly that row appended, which reads back as the request's fields with the owner's username; otherwise 500 and no change |
| ReviewRoutes.Update | backend/src/main/kotlin/routes/ReviewRoutes.kt:61-77 | 401; 400; the validation error; 403 iff not owned; 200 iff owned and the columns fit, with the review overwritten; otherwise 500 |
| ReviewRoutes.Remove | backend/src/main/kotlin/routes/ReviewRoutes.kt:79-89 | 401; 400; 200 iff owned, deleting only that review; else 403 and no change |
| QuoteRoutes.ListAll | backend/src/main/kotlin/routes/QuoteRoutes.kt:18-26 | 200 with exactly `allQuotes`: one record per quote, in table order |
| QuoteRoutes.Show | backend/src/main/kotlin/routes/QuoteRoutes.kt:28-42 | 400; 200 iff the quote exists, with exactly `quote(id)`; else 404 "Quote not found" |
| QuoteRoutes.Create | backend/src/main/kotlin/routes/QuoteRoutes.kt:45-56 | 401; 201 iff the quote is stored; the old quotes stay, exactly one row with the caller and the content is appended under a fresh id, and the other tables are unchanged; else 500 "Failed to create quote" and no change |
| QuoteRoutes.Update | backend/src/main/kotlin/routes/QuoteRoutes.kt:58-74 | 401; 400; 403 iff not owned; 200 iff owned and the content fits, and then only that quote's content changes, which reads back; else 500 "Failed to update quote" and no change |
| QuoteRoutes.Remove | backend/src/main/kotlin/routes/QuoteRoutes.kt:76-91 | 401; 400; 200 iff owned, and then the new state is the old without that quote; else 403 and no change |
| FollowerRoutes.ListAll | backend/src/main/kotlin/routes/FollowerRoutes.kt:18-26 | 200 with exactly `getAllFollows`: one record per edge, in table order |
| FollowerRoutes.FollowingOf | backend/src/main/kotlin/routes/FollowerRoutes.kt:28-39 | the resolver's 400/404; 500 for a negative id; else 200 with exactly the user's outgoing edges |
| FollowerRoutes.FollowersOfUser | backend/src/main/kotlin/routes/FollowerRoutes.kt:42-53 | the resolver's 400/404; 500 for a negative id; else 200 with exactly the user's incoming edges |
| FollowerRoutes.NegativeIdBranchUnreachable | backend/src/main/kotlin/routes/FollowerRoutes.kt:32 | on a store whose ids come from the sequences neither listing answers 500 |
| FollowerRoutes.Check | backend/src/main/kotlin/routes/FollowerRoutes.kt:56-72 | 200 iff both ids read as integers, with whether that edge is stored; else 400 "Both user IDs are required" |
| FollowerRoutes.AddEdgeKeepsSimple | backend/src/main/kotlin/routes/FollowerRoutes.kt:82-91 | adding an edge between different users that is not stored yet keeps the graph free of self-edges and duplicates |
| FollowerRoutes.Create | backend/src/main/kotlin/routes/FollowerRoutes.kt:76-97 | 401; 400 for oneself; 409 for an existing edge; 201 iff both users exist (the session's user can have been deleted), and then the new state is the old with exactly one edge (caller, followee) appended under a fresh id; else 500 "Failed to create follow" and no change; a graph without self-edges or duplicates stays so |
| FollowerRoutes.Remove | backend/src/main/kotlin/routes/FollowerRoutes.kt:99-111 | 401; otherwise 200 always, with every row of the edge gone and nothing else changed |
| AuthRoutes.Me | backend/src/main/kotlin/routes/AuthRoutes.kt:48-61 | 401 without a session; 200 with the profile iff the user exists; else 404 "Profile not found" |
| AuthRoutes.Register | backend/src/main/kotlin/routes/AuthRoutes.kt:20-29 | 409 "Username already exists" for a taken name; 200 iff the name is free and the user fits, and then the session names the new user, stored with the hash of the password, whose `/me` is an empty profile; otherwise 500 and no change |
| AuthRoutes.Login | backend/src/main/kotlin/routes/AuthRoutes.kt:31-40 | 200 sets the session to a user with that name whose hash verifies the password; every failure is the same 401 "Invalid credentials" with the session kept |
| AuthRoutes.LoginMeaning | backend/src/main/kotlin/routes/AuthRoutes.kt:31-40 | under the schema login succeeds iff some user has the name and a hash that verifies the password |
| AuthRoutes.LoginAfterRegister | backend/src/main/kotlin/routes/AuthRoutes.kt:20-40 | a user just registered logs in with the same name and password, and the session names it |
| AuthRoutes.Logout | backend/src/main/kotlin/routes/AuthRoutes.kt:42-46 | 200 and the session cleared |
| AuthRoutes.PublicProfile | backend/src/main/kotlin/routes/AuthRoutes.kt:63-71 | 400 for a blank name; 200 iff a user has the name, exposing only the username; else 404 without a body |
| ReviewHistogram.BinOf | frontend/src/components/reviews/ReviewHistogram.jsx:22-23 | a rate falls in a bin iff it is 0..10, and then in bin `rate` |
| ReviewHistogram.GroupRatings | frontend/src/components/reviews/ReviewHistogram.jsx:15-29 | no bins for a missing or empty list; otherwise 11 ascending bins, bin `k` counting the reviews rated `k` |
| ReviewHistogram.ShowsChart | frontend/src/components/reviews/ReviewHistogram.jsx:39 | the chart shows iff there are more than four reviews |
| ReviewHistogram.InRange | frontend/src/components/reviews/ReviewHistogram.jsx:23 | the rates that fall in a bin number at most all of them, all exactly when every rate is valid |
| ReviewHistogram.TotalBumped | frontend/src/components/reviews/ReviewHistogram.jsx:24 | one increment adds one to the total |
| ReviewHistogram.TotalEmpty | frontend/src/components/reviews/ReviewHistogram.jsx:19 | bins all at zero total zero |
| ReviewHistogram.CountsAddUp | frontend/src/components/reviews/ReviewHistogram.jsx:21-26 | the counts add up to the number of valid rates: at most the number of reviews, equal iff every rate is in 0..10 |
| DescriptionText.DescText | frontend/src/components/DescriptionText.jsx:9-11 | the string itself, the object's value, or "" |
| DescriptionText.IsLong | frontend/src/components/DescriptionText.jsx:13 | long iff more than 300 characters |
| DescriptionText.VisibleText | frontend/src/components/DescriptionText.jsx:14 | a prefix of the text: all of it when expanded or short, its first 300 characters otherwise |
| DescriptionText.ShowsEllipsis | frontend/src/components/DescriptionText.jsx:24 | the ellipsis shows iff long and collapsed, which is exactly when text is hidden |
| DescriptionText.ToggleLabel | frontend/src/components/DescriptionText.jsx:25-29 | the link shows iff the text is long, reading "show less" iff expanded |
| DescriptionText.Toggle | frontend/src/components/DescriptionText.jsx:16-19 | toggling flips the state |
| DescriptionText.ToggleRoundTrip | frontend/src/components/DescriptionText.jsx:14-29 | a long text reads as 300 characters and "..."; one toggle shows it whole, a second brings the cut back |
| DescriptionText.ShortTextUnaffected | frontend/src/components/DescriptionText.jsx:13-25 | a short text reads in full in either state, with no link |
| SearchPage.SliceBound | frontend/src/pages/SearchPage.jsx:48-51 | a `slice` bound: negative ones count from the end, all clamped to the length |
| SearchPage.JsSlice | frontend/src/pages/SearchPage.jsx:48-51 | for bounds 0 ≤ start ≤ end, the elements from start up to end, clamped to the length |
| SearchPage.Paginate | frontend/src/pages/SearchPage.jsx:48-51 | page p ≥ 1 holds the results from (p-1)·10 onwards, at most 10, fewer only on the last page |
| SearchPage.PageCount | frontend/src/pages/SearchPage.jsx:79 | `ceil(n/10)`: zero iff no results, else the least count whose pages hold n |
| SearchPage.ShowsPagination | frontend/src/pages/SearchPage.jsx:76 | shown iff there is at least one page |
| SearchPage.PageAfterQuery | frontend/src/pages/SearchPage.jsx:41-46 | a new query resets the page to 1 |
| SearchPage.PagesArePrefix | frontend/src/pages/SearchPage.jsx:48-51 | pages 1..k together are the first 10·k results (or all) |
| SearchPage.PagesCoverResults | frontend/src/pages/SearchPage.jsx:48-51 | paging through all offered pages shows every result once, in order, and no offered page is empty |
| SearchPage.NewQueryShowsFirstPage | frontend/src/pages/SearchPage.jsx:41-51 | after a new query the first ten results show |

## Left out

- Transactions, the connection pool, migrations and concurrency: each repository call is one
  atomic step on the store.
- Every `runCatching` failure branch that fires only when the database itself fails, which the
  model does not represent. These are the GET handlers' "Failed to retrieve …" answers, the
  500 "Failed to delete quote" of `DELETE /quotes/{id}`, and the 500 "Failed to delete follow"
  of `DELETE /followers`. `QuoteRoutes.Remove` and `FollowerRoutes.Remove` therefore never
  answer 500.
- Ktor plumbing: JSON (de)serialisation, a request body that does not parse, cookies and their
  attributes, CORS. The authentication challenge is modelled as its 401 answer. A session is
  the user id it holds.
- The body of an uncaught exception's 500 is modelled as `NoBody`; Ktor's default page is not.
- `hashPassword` and `verifyPassword` are not part of this model; they are parameters.
- Kotlin `Int` arithmetic beyond 32 bits: the id sequences are unbounded integers, and
  `toIntOrNull` refuses values outside the 32-bit range.
- KotlinText.ToIntOrNull: reads ASCII digits only. The JVM also accepts other Unicode decimal
  digits.
- KotlinText.ContainsIgnoreCase: folds ASCII letters only, not the full Unicode case mapping.
- Lengths of strings count characters, not UTF-16 code units, both for the varchar limits and
  for the 300-character cut of the description.
- The review date (`reviewedAt`) is an opaque value; its serialisation and the date logic are
  not modelled.
- The review `favorite` column's default is not modelled, because every write sets it
  explicitly.
- The `user.id!!` null check of `update` is not modelled: a model `User` always has an id.
- The driver message of an `SQLException` is a parameter of the booklist handlers that report
  it; the model does not derive it from the violated constraint.
- BooklistRoutes.WriteFailure: the exception Exposed raises for a value longer than its varchar
  column is a parameter (`lengthFailure`), because the library is not part of this model. If
  it is Exposed's own length check (an `IllegalArgumentException`), `POST`/`PUT /booklists`
  answer 400 "Unexpected error: …". If it is the driver's `SQLException`, they answer 409. The
  model takes the length check to come before the unique index and the foreign key.
- FollowerRoutes.Create: after the 400 and 409 answers the source's `onSuccess` also tries to
  answer 201. That second answer fails because the call is already answered. The model gives
  the first answer and does not model the failed second one.
- FollowerRepository.DeleteFollow: states the edges that remain by membership, not their
  order in the table; SQL promises no order without `ORDER BY`.
- AuthRoutes.Logout: states the 200 status and the cleared session, not the message text or
  the expired cookie.
- The histogram average and the `formatCount` formatting, because they are floating point.
- ReviewHistogram.GroupRatings: takes the list of rates rather than the review objects. A
  non-integer rate is not considered, because the backend stores only integers.
- The rest of the React UI, the fetch wrappers and the OpenLibrary search hook.
