/** The records the backend returns to clients and reads from request bodies
    (the `models` package). */
module Models {
  import opened Common
  import opened Schema

  datatype User = User(id: int, email: string, username: string, passwordHash: string)

  /** `listDescription` is nullable in the record, although the mapper never leaves it null. */
  datatype Booklist = Booklist(id: int, userId: int, listName: string, listDescription: Option<string>)

  datatype BooklistWithBooks = BooklistWithBooks(id: int, userId: int, listName: string,
                                                 listDescription: Option<string>, books: seq<string>)

  datatype Quote = Quote(id: int, userId: int, content: string)

  datatype Follow = Follow(id: int, followerId: int, followeeId: int)

  /** A review as clients see it: the owner appears by username, not by id. */
  datatype Review = Review(id: int, bookId: string, username: string, content: Option<string>,
                           rate: int, favorite: bool, reviewedAt: Date)

  datatype UserProfile = UserProfile(id: int, username: string, booklists: seq<Booklist>,
                                     quotes: seq<Quote>, reviews: seq<Review>)

  /** The body of `GET /users/{username}`: a map with the single key `username`. */
  datatype PublicUser = PublicUser(username: string)

  datatype BookRequest = BookRequest(bookId: string)
  datatype BooklistRequest = BooklistRequest(listName: string, listDescription: Option<string>)
  datatype QuoteRequest = QuoteRequest(content: string)
  datatype FollowRequest = FollowRequest(followeeId: int)
  datatype ReviewRequest = ReviewRequest(bookId: string, content: Option<string>, rate: int,
                                         favorite: bool, reviewedAt: Date)
  datatype RegisterRequest = RegisterRequest(email: string, username: string, password: string)
  datatype LoginRequest = LoginRequest(username: string, password: string)
}
