# Library catalogue data-access layer in Dafny

This project models the data-access layer of a book catalogue backed by a
document store. The catalogue has three entities. A `Book` has an identity
number, isbn, title, publication date, story line and rating, plus ordered
lists of genres and authors. A `Genre` and an `Author` are small field holders.

The gateway `BooksDbImpl` maps these entities to and from documents in the
`books` and `authors` collections. It deletes books by isbn, updates ratings,
and answers the title, isbn, author, genre and rating searches. It also lists
the authors. Each guarded operation first checks that a database is bound.

Everything is a pure function over immutable values:

- `Lang`, `Wrappers`: Java's nullable strings (`JString`), 32-bit `int`, the
  opaque dates, the error outcomes, and `Option`/`Result`.
- `Authors`, `Genres`, `Books`: the entities. Java object identity, which
  `ArrayList.contains`/`remove` use because none of the classes overrides
  `equals`, is an explicit `ObjId` token. `IdentityList` holds the list
  operations on it.
- `Bson`: BSON values, documents as string-keyed maps, and the typed getters
  `getString`/`getDate`/`getInteger`. Their `ClassCastException` becomes an
  error value. It also holds the `eq`, case-insensitive `regex` and
  `elemMatch` filters. `Text` holds the ASCII case folding and `", "` joining
  they rely on.
- `Mapper`: the document `addBook`/`addAuthor` write, and the Book/Author that
  `getBooksFromDb`/`getAllAuthors` rebuild. `Reflects` states what a read book
  denotes.
- `Gateway`: the store state. Collections are sequences of documents in
  natural order. `databaseBound` is the `mongoDatabase != null` guard;
  `clientOpen` says whether the client still serves requests. Every
  guarded operation returns `Result<…, Error>`; `addBook`, `connect` and
  `disconnect` return the new store.
- `IntParse`: `Integer.parseInt` as a grammar (`ParseInt`) and as the JDK's
  negative-accumulator loop (`ParseIntJdk`), proved equal on every input.
- `GatewayProperties`: lemmas that combine several operations.

Objects the reader creates get fresh identities from a counter `next`,
threaded through the read. The two date conversions (driver encoding and
system default zone) are the uninterpreted functions in `DateConversion`.

The model follows the code as written:

- `addBook` embeds the authors list alongside the genres.
- `updateBook` has an empty body.
- `deleteBook` and `updateBookRating` take a `Book` and use its isbn.
- The reader ignores the embedded authors.
- The reader throws on a wrongly typed genre list rather than treating it as empty.
- A rating is any `int`, with no range check.
- A rating update whose first match already carries the new rating is reported as an error.
- Genre order is kept exactly through a write and a read.

## Model

| member | source | states |
|---|---|---|
| Authors.NewAuthor | src/main/java/com/example/labb2dbt/model/Author.java:23-27 | stores identity number, name and birth date unchanged; `getBooks` on the result fails |
| Authors.NewUnnumberedAuthor | src/main/java/com/example/labb2dbt/model/Author.java:35-38 | identity number is 0, name and birth date as given, `getBooks` fails |
| Authors.SetName | src/main/java/com/example/labb2dbt/model/Author.java:54-56 | only the name changes |
| Authors.SetBirthDate | src/main/java/com/example/labb2dbt/model/Author.java:72-74 | only the birth date changes |
| Authors.GetBooks | src/main/java/com/example/labb2dbt/model/Author.java:90-92 | copying a null list is a NullPointerException; a present list is returned |
| Authors.GetBooksAlwaysFails | src/main/java/com/example/labb2dbt/model/Author.java:23-38 | after either constructor and any sequence of setters, `getBooks` fails and identity and identity number are unchanged |
| Authors.MutatorsKeepBooksAndId | src/main/java/com/example/labb2dbt/model/Author.java:54-74 | no sequence of setters touches the book list, identity or identity number |
| Genres.NewGenre | src/main/java/com/example/labb2dbt/model/Genre.java:21-25 | identity number and name as given, empty book list |
| Genres.NewNamedGenre | src/main/java/com/example/labb2dbt/model/Genre.java:32-35 | identity number 0, name as given, empty book list |
| Genres.AddBook | src/main/java/com/example/labb2dbt/model/Genre.java:42-44 | appends the book only when it is already listed, otherwise leaves the list unchanged |
| Genres.AddBookIntended | src/main/java/com/example/labb2dbt/model/Genre.java:37-44 | corrected `addBook`; keeps identity, number and name (association proved in `AddBookIntendedAssociates`) |
| Genres.RemoveBook | src/main/java/com/example/labb2dbt/model/Genre.java:51-54 | the list loses its first occurrence of the book; other fields unchanged |
| Genres.NameIsFinal | src/main/java/com/example/labb2dbt/model/Genre.java:70-73 | after any sequence of add/remove, `getGenreName` returns the constructor's name |
| Genres.BooksStayEmpty | src/main/java/com/example/labb2dbt/model/Genre.java:42-44 | a genre whose list starts empty keeps it empty under any sequence of add/remove |
| Genres.AddBookDropsNewBook | src/main/java/com/example/labb2dbt/model/Genre.java:42-44 | adding a book to a new genre leaves the book unassociated |
| Genres.AddBookIntendedAssociates | src/main/java/com/example/labb2dbt/model/Genre.java:37-44 | the corrected add associates the book, adds it at most once, keeps a duplicate-free list duplicate-free |
| Genres.RemoveUndoesIntendedAdd | src/main/java/com/example/labb2dbt/model/Genre.java:51-54 | removing a book just added by the corrected add restores the list |
| Books.NewBookWithLists | src/main/java/com/example/labb2dbt/model/Book.java:47-55 | stores the given fields and lists; story line null, rating 0 |
| Books.NewNumberedBook | src/main/java/com/example/labb2dbt/model/Book.java:33-35 | given fields, empty genre and author lists, null story line, rating 0 |
| Books.NewBook | src/main/java/com/example/labb2dbt/model/Book.java:73-75 | identity number 0, rating 0, empty lists, null story line, genre string "" |
| Books.SetRating | src/main/java/com/example/labb2dbt/model/Book.java:61-63 | any `int` is stored and `getRating` returns it; every other field unchanged |
| Books.SetBookId | src/main/java/com/example/labb2dbt/model/Book.java:83-85 | only the identity number changes |
| Books.SetIsbn | src/main/java/com/example/labb2dbt/model/Book.java:222-224 | only the isbn changes |
| Books.SetTitle | src/main/java/com/example/labb2dbt/model/Book.java:231-233 | only the title changes |
| Books.SetPublished | src/main/java/com/example/labb2dbt/model/Book.java:213-215 | only the publication date changes |
| Books.SetStoryLine | src/main/java/com/example/labb2dbt/model/Book.java:205-207 | only the story line changes |
| Books.SetGenres | src/main/java/com/example/labb2dbt/model/Book.java:92-94 | only the genre list changes, and `getGenres` returns the new one |
| Books.SetAuthors | src/main/java/com/example/labb2dbt/model/Book.java:101-103 | only the author list changes, and `getAuthors` returns the new one |
| Books.AddAuthor | src/main/java/com/example/labb2dbt/model/Book.java:160-162 | the author is listed afterwards; appended at the end if that object was absent, book unchanged if present |
| Books.RemoveAuthor | src/main/java/com/example/labb2dbt/model/Book.java:169-171 | book unchanged when the author is absent; when present, exactly its first occurrence is removed and the order of the others kept; only the author list changes |
| Books.AddGenre | src/main/java/com/example/labb2dbt/model/Book.java:178-180 | the genre is listed afterwards; appended at the end if that object was absent, book unchanged if present |
| Books.RemoveGenre | src/main/java/com/example/labb2dbt/model/Book.java:187-189 | book unchanged when the genre is absent; when present, exactly its first occurrence is removed and the order of the others kept; only the genre list changes |
| Books.GetGenresAsString | src/main/java/com/example/labb2dbt/model/Book.java:248-252 | "" for no genres, the single name (null as "null") for one, and for more the string of all but the last followed by ", " and the last name |
| Books.GenresAsStringAfterAddGenre | src/main/java/com/example/labb2dbt/model/Book.java:248-252 | adding a new genre extends the string by ", " and its name, or makes the name the whole string; re-adding changes nothing |
| Books.ListOperationsKeepDistinct | src/main/java/com/example/labb2dbt/model/Book.java:160-189 | add/remove keep duplicate-free lists duplicate-free, and a removed item is then absent |
| Books.RemoveUndoesAdd | src/main/java/com/example/labb2dbt/model/Book.java:160-189 | removing an author or genre just added (and absent before) restores the book |
| Bson.GetString | src/main/java/com/example/labb2dbt/model/BooksDbImpl.java:253-257 | null for a missing or null field, the string for a string, a class-cast error otherwise |
| Bson.GetDate | src/main/java/com/example/labb2dbt/model/BooksDbImpl.java:256-256 | null for a missing or null field, the date for a date, a class-cast error otherwise |
| Bson.GetInteger | src/main/java/com/example/labb2dbt/model/BooksDbImpl.java:258-258 | the default for a missing or null field, the value for a 32-bit integer, a class-cast error otherwise |
| Mapper.GenreToDocument | src/main/java/com/example/labb2dbt/model/BooksDbImpl.java:69-73 | exactly the key `name`, holding the genre's name or null |
| Mapper.AuthorToDocument | src/main/java/com/example/labb2dbt/model/BooksDbImpl.java:99-101 | exactly the keys `name` and `dateOfBirth`, holding the author's name and encoded birth date |
| Mapper.BookToDocument | src/main/java/com/example/labb2dbt/model/BooksDbImpl.java:59-87 | exactly the seven keys; scalar fields as given; genres `[{name}]` and authors `[{name, dateOfBirth}]` in list order |
| Mapper.ReadGenre | src/main/java/com/example/labb2dbt/model/BooksDbImpl.java:274-274 | succeeds exactly for a document whose name is a string or null, giving a fresh genre of that name; a null list element is a NullPointerException |
| Mapper.ReadGenres | src/main/java/com/example/labb2dbt/model/BooksDbImpl.java:270-277 | succeeds exactly when every element is readable; one fresh genre per element, in order |
| Mapper.ReadBook | src/main/java/com/example/labb2dbt/model/BooksDbImpl.java:252-279 | succeeds exactly for a readable document; a missing date fails; the result reflects the document (title, isbn, description, rating or 0, genre names, no authors, identity number 0) |
| Mapper.ReadBooks | src/main/java/com/example/labb2dbt/model/BooksDbImpl.java:251-281 | succeeds exactly when every document is readable; one book per document, in order, each reflecting it |
| Mapper.ReadAuthor | src/main/java/com/example/labb2dbt/model/BooksDbImpl.java:317-325 | succeeds exactly when the name is a string or null and a birth date is present; identity number 0 |
| Mapper.ReadAuthors | src/main/java/com/example/labb2dbt/model/BooksDbImpl.java:313-326 | succeeds exactly when every author document reads; one author per document, in order |
| Mapper.ReflectsWrittenBook | src/main/java/com/example/labb2dbt/model/BooksDbImpl.java:59-87 | any book reflecting a written document agrees with the written book on title, isbn, story line, rating and genre names |
| Mapper.BookRoundTrip | src/main/java/com/example/labb2dbt/model/BooksDbImpl.java:251-281 | write then read succeeds exactly when the book has a date; it keeps title, isbn, story line, rating and genre names in order, and loses authors and identity number |
| Mapper.AuthorRoundTrip | src/main/java/com/example/labb2dbt/model/BooksDbImpl.java:309-332 | write then read succeeds exactly when the author has a birth date; it keeps the name and resets the identity number to 0 |
| Gateway.Connect | src/main/java/com/example/labb2dbt/model/BooksDbImpl.java:28-45 | afterwards the gateway is live and both collections are unchanged |
| Gateway.Disconnect | src/main/java/com/example/labb2dbt/model/BooksDbImpl.java:47-56 | the client is closed but the database stays bound |
| Gateway.DisconnectIntended | src/main/java/com/example/labb2dbt/model/BooksDbImpl.java:47-56 | corrected disconnect: client closed and database unbound |
| Gateway.IsbnIs | src/main/java/com/example/labb2dbt/model/BooksDbImpl.java:123-123 | on a string or null isbn, matches exactly the documents whose isbn the reader sees equals the given one (null matching a missing field); an isbn array matches when it holds the value |
| Gateway.RatingIs | src/main/java/com/example/labb2dbt/model/BooksDbImpl.java:295-295 | a missing or null rating never matches; a 32-bit rating matches exactly when equal; any other non-array rating never matches |
| Gateway.FieldContains | src/main/java/com/example/labb2dbt/model/BooksDbImpl.java:219-219 | on a string or null field, matches exactly the strings containing the term ignoring case; a non-string, non-array field never matches |
| Gateway.SomeNameContains | src/main/java/com/example/labb2dbt/model/BooksDbImpl.java:175-175 | a document without the list never matches; with a list of embedded documents whose names are strings or null, it matches exactly when some name contains the term ignoring case |
| Gateway.Unavailable | src/main/java/com/example/labb2dbt/model/BooksDbImpl.java:117-119 | no error exactly when live; "Not connected" when no database is bound; the closed client's refusal when a database is bound but the client is closed |
| Gateway.AddBook | src/main/java/com/example/labb2dbt/model/BooksDbImpl.java:59-90 | appends exactly one document, the book's, and leaves the rest unchanged |
| Gateway.AddAuthor | src/main/java/com/example/labb2dbt/model/BooksDbImpl.java:93-107 | "Not connected" when unbound; succeeds exactly when live and appends the author document |
| Gateway.DeleteBook | src/main/java/com/example/labb2dbt/model/BooksDbImpl.java:116-134 | "Not connected" when unbound; "No book found" when nothing matches; otherwise removes exactly the first isbn match |
| Gateway.UpdateBookRating | src/main/java/com/example/labb2dbt/model/BooksDbImpl.java:138-162 | "Not connected" when unbound; "No book found" when nothing matches; otherwise succeeds, setting only the rating of the first isbn match, or fails with "rating not updated" exactly when that match already has the new rating |
| Gateway.Find | src/main/java/com/example/labb2dbt/model/BooksDbImpl.java:251-281 | guard errors; succeeds exactly when every match is readable; one book per match, in collection order, each reflecting its document |
| Gateway.SearchBooksByTitle | src/main/java/com/example/labb2dbt/model/BooksDbImpl.java:210-227 | the books of the documents whose title contains the term ignoring case, in order; each book's title contains it |
| Gateway.SearchBooksByIsbn | src/main/java/com/example/labb2dbt/model/BooksDbImpl.java:232-249 | the books of the documents whose isbn contains the term ignoring case, in order; each book's isbn contains it |
| Gateway.SearchBooksByAuthor | src/main/java/com/example/labb2dbt/model/BooksDbImpl.java:166-184 | the books of the documents with an embedded author whose name contains the term, in order |
| Gateway.SearchBooksByGenre | src/main/java/com/example/labb2dbt/model/BooksDbImpl.java:188-206 | the books of the documents with an embedded genre matching the term, in order; each book has a genre whose name contains it |
| Gateway.SearchBooksByRating | src/main/java/com/example/labb2dbt/model/BooksDbImpl.java:284-305 | unparsable text gives "Invalid rating format"; otherwise the books of the documents with that rating, in order, each carrying it |
| Gateway.GetAllAuthors | src/main/java/com/example/labb2dbt/model/BooksDbImpl.java:309-332 | succeeds exactly when every author document reads; one fresh author per document, in order, with identity number 0, the stored name and the stored birth date in the local zone |
| IntParse.ParseIntJdk | src/main/java/com/example/labb2dbt/model/BooksDbImpl.java:292-292 | the JDK's `Integer.parseInt` loop accepts exactly the optionally signed decimal numerals within 32 bits and returns their value |
| IntParse.ParseIntInvertsToText | src/main/java/com/example/labb2dbt/model/BooksDbImpl.java:292-292 | every `int` written as `Integer.toString` writes it parses back to itself |
| IntParse.ParseIntEdgeCases | src/main/java/com/example/labb2dbt/model/BooksDbImpl.java:292-292 | empty text, a lone sign, a decimal point, blanks and words are rejected; "+5" and "-07" are read |
| IntParse.ParseIntRangeEdges | src/main/java/com/example/labb2dbt/model/BooksDbImpl.java:292-292 | `Integer.MAX_VALUE` and `Integer.MIN_VALUE` are read; 2147483648 is rejected |
| GatewayProperties.AddThenFind | src/main/java/com/example/labb2dbt/model/BooksDbImpl.java:59-87 | after `addBook`, a search matching the new document finds one more book, the last reflecting it |
| GatewayProperties.AddThenSearchByIsbn | src/main/java/com/example/labb2dbt/model/BooksDbImpl.java:232-249 | after `addBook`, isbn search finds the new book last with its title, isbn, story line, rating and genres; it is the only hit when no earlier isbn matched |
| GatewayProperties.AddAuthorThenGetAllAuthors | src/main/java/com/example/labb2dbt/model/BooksDbImpl.java:93-104 | after `addAuthor`, `getAllAuthors` succeeds exactly when it did before and the new author has a birth date; it then lists the earlier authors unchanged and the new one last, with its name and converted birth date |
| GatewayProperties.DeleteUndoesAdd | src/main/java/com/example/labb2dbt/model/BooksDbImpl.java:116-134 | deleting a book just added, whose isbn was new, restores the collection |
| GatewayProperties.DeleteRemovesOneMatch | src/main/java/com/example/labb2dbt/model/BooksDbImpl.java:116-134 | a delete removes one isbn match and keeps every other document in order |
| GatewayProperties.SetRatingThenRead | src/main/java/com/example/labb2dbt/model/BooksDbImpl.java:148-151 | setting the rating field of a readable document changes only the rating of the book read from it |
| GatewayProperties.UpdateThenSearchSeesRating | src/main/java/com/example/labb2dbt/model/BooksDbImpl.java:138-162 | after a rating update, isbn search finds a book with that isbn and the new rating |
| GatewayProperties.UpdateOutcomeOfFirstMatch | src/main/java/com/example/labb2dbt/model/BooksDbImpl.java:151-158 | on a live gateway the first isbn match is updated unless it already has the new rating, in which case the result is "rating not updated" |
| GatewayProperties.RepeatedRatingUpdateFails | src/main/java/com/example/labb2dbt/model/BooksDbImpl.java:153-158 | repeating a successful rating update fails with "rating not updated" |
| GatewayProperties.TitleSearchIgnoresTermCase | src/main/java/com/example/labb2dbt/model/BooksDbImpl.java:219-219 | a title search for a term and for its lower-cased form give the same result |
| Text.ContainsIgnoreCaseIsLoweredContainment | src/main/java/com/example/labb2dbt/model/BooksDbImpl.java:219-219 | case-insensitive containment of the term is exact containment after lower-casing both strings |
| GatewayProperties.DefaultRatingIsNotSearchable | src/main/java/com/example/labb2dbt/model/BooksDbImpl.java:284-305 | in any live store, a book document without a rating reads back with rating 0, yet the filter of a search for "0" leaves it out; when it is the only book, that search returns nothing |
| GatewayProperties.DisconnectLeavesGuardPassing | src/main/java/com/example/labb2dbt/model/BooksDbImpl.java:47-56 | after connect and disconnect the guard passes, and every guarded operation (delete, rating update, add author, the author, genre, title and isbn searches for a metacharacter-free term, and the rating search for parsable text) fails in the closed client, never with "Not connected" |
| GatewayProperties.IntendedDisconnectFailsNotConnected | src/main/java/com/example/labb2dbt/model/BooksDbImpl.java:47-56 | after the corrected disconnect every guarded operation (delete, rating update, add author, the four text searches for a metacharacter-free term, and the rating search) fails with "Not connected" |

## Left out

- The MongoDB driver, the connection URI and credentials, and driver exceptions (`MongoException`) are not modelled. `connect` always succeeds.
- Store-generated `_id` values are not modelled, and neither are the `genres` collection handle and `updateBook`, whose body is empty.
- Regular expressions with metacharacters and `PatternSyntaxException` are not modelled. Only literal search terms with ASCII case folding are.
- Gateway.SearchBooksByTitle: requires a metacharacter-free term, because the regular-expression engine is not modelled.
- Gateway.SearchBooksByIsbn: requires a metacharacter-free term, for the same reason.
- Gateway.SearchBooksByAuthor: requires a metacharacter-free term. Its hits are stated on the documents found, because the reader drops authors.
- Gateway.SearchBooksByGenre: requires a metacharacter-free term, because the regular-expression engine is not modelled.
- Gateway.AddBook: requires a live gateway. The source has no guard: before `connect` the insert at BooksDbImpl.java line 87 throws a NullPointerException on the null collection handle, and after `disconnect` the closed client refuses the call.
- Gateway.GetAllAuthors: requires a live gateway. The source has no guard: before `connect` the query at BooksDbImpl.java line 313 throws a NullPointerException, and after `disconnect` the closed client refuses it.
- Genres.AddBookIntended: its own contract only frames the other fields. What it does to the book list is stated in `Genres.AddBookIntendedAssociates`.
- IntParse.ParseIntJdk: accepts ASCII digits only. `Character.digit` also accepts other Unicode decimal digits.
- Time zones and date arithmetic are not modelled. Both conversions are uninterpreted functions, so round trips make no claim of date equality.
- Shared mutable objects are not modelled. Entities are values, so the model cannot show the list aliasing of `setGenres` and the six-argument constructor. It also cannot show that `getAuthors`/`getGenres` return shallow copies whose elements are the book's own objects: a `setName` on an author already added to a book changes the name `addBook` later writes, and the model does not see that change through the book.
- Null genre or author lists in a `Book`, and null elements inside them, are not modelled. A null list throws a NullPointerException in `getGenresAsString` (the `genres.stream()` call, Book.java line 249) and, through the copies in `getGenres`/`getAuthors` (Book.java lines 197 and 152), in `addBook`; a null element throws in `addBook` at BooksDbImpl.java lines 71 and 79.
- Numeric cross-type equality in filters is not modelled (an `Int64` or `Double` rating matching an `int`).
- `toString`, console logging, the JavaFX views and the controller's thread dispatch are not modelled.

## Findings

| source | as written | input that shows it | evidently intended | confidence | as-written member | corrected member |
|---|---|---|---|---|---|---|
| src/main/java/com/example/labb2dbt/model/Genre.java:42-44 | `addBook` appends only when the book is already in the list | `new Genre("x").addBook(b)` leaves `getBooks()` empty | append when the book is not yet listed, as the method's comment says | not executed | Genres.AddBookDropsNewBook | Genres.AddBookIntendedAssociates |
| src/main/java/com/example/labb2dbt/model/BooksDbImpl.java:47-56 | `disconnect` closes the client but leaves `mongoDatabase` set | `connect(...)`, `disconnect()`, then `deleteBook(b)` passes the guard and fails in the closed client | clear the database handle so the guard reports "Not connected" | not executed | GatewayProperties.DisconnectLeavesGuardPassing | GatewayProperties.IntendedDisconnectFailsNotConnected |
