/** `BooksDbImpl`: the store gateway over the `books` and `authors`
    collections, each a sequence of documents in the store's natural order.
    Every operation is a pure function from the gateway state to a result. */
module Gateway {
  import opened Wrappers
  import opened Lang
  import opened Bson
  import opened Books
  import opened Authors
  import opened Mapper
  import Seqs
  import Text
  import IntParse

  /** The gateway state. `databaseBound` is `mongoDatabase != null`, the only
      thing the not-connected guard tests; `clientOpen` says whether the client
      that serves the collections is still open. */
  datatype Store = Store(databaseBound: bool, clientOpen: bool, books: seq<Document>, authors: seq<Document>)

  /** Connected and not since disconnected. */
  predicate Live(s: Store) {
    s.databaseBound && s.clientOpen
  }

  /** `connect`: a new client, and the database and collection handles bound.
      A second call silently replaces the first connection. */
  function Connect(s: Store): (r: Store)
    ensures Live(r) && r.books == s.books && r.authors == s.authors
  {
    Store(true, true, s.books, s.authors)
  }

  /** `disconnect` as written: closes the client but leaves `mongoDatabase`
      bound, so the not-connected guard keeps passing afterwards. */
  function Disconnect(s: Store): (r: Store)
    ensures !r.clientOpen && r.databaseBound == s.databaseBound
    ensures r.books == s.books && r.authors == s.authors
  {
    s.(clientOpen := false)
  }

  /** `disconnect` as the guard evidently expects it: the handles are cleared too. */
  function DisconnectIntended(s: Store): (r: Store)
    ensures !r.clientOpen && !r.databaseBound
    ensures r.books == s.books && r.authors == s.authors
  {
    s.(clientOpen := false, databaseBound := false)
  }

  /** The failure of a guarded operation before it reaches the collection: the
      guard's "Not connected", else the driver's refusal of a closed client. */
  function Unavailable(s: Store): (e: Option<Error>)
    ensures e.None? <==> Live(s)
    ensures !s.databaseBound ==> e == Some(NotConnected)
    ensures s.databaseBound && !s.clientOpen ==> e == Some(ClientClosed)
  {
    if !s.databaseBound then Some(NotConnected)
    else if !s.clientOpen then Some(ClientClosed)
    else None
  }

  // ---- filters ----

  /** `Filters.eq("isbn", isbn)`. On a document whose isbn is a string or
      null it selects exactly the isbn the reader sees, a null isbn matching a
      missing one; an isbn array matches when it holds the value. */
  function IsbnIs(isbn: JString): (f: Document -> bool)
    ensures forall d: Document | StringOrNull(d, "isbn") :: f(d) <==> StringAt(d, "isbn") == isbn
    ensures forall d: Document | "isbn" in d && d["isbn"].Array? :: f(d) <==> OfString(isbn) in d["isbn"].items
  {
    d => EqMatches(d, "isbn", OfString(isbn))
  }

  /** The complement of `IsbnIs`: the documents a delete by that isbn keeps. */
  function IsbnIsNot(isbn: JString): Document -> bool {
    d => !EqMatches(d, "isbn", OfString(isbn))
  }

  /** `Filters.eq("rating", rating)`. A missing or null rating never matches,
      although the reader takes it as 0. */
  function RatingIs(rating: int32): (f: Document -> bool)
    ensures forall d: Document | IsNullField(d, "rating") :: !f(d)
    ensures forall d: Document | "rating" in d && d["rating"].Int32? :: f(d) <==> RatingAt(d) == rating
    ensures forall d: Document | "rating" in d && !d["rating"].Int32? && !d["rating"].Array? :: !f(d)
  {
    d => EqMatches(d, "rating", Int32(rating))
  }

  /** A nullable string that contains the term, ignoring case. */
  predicate TextContains(v: JString, term: string) {
    v.Some? && Text.ContainsIgnoreCase(v.value, term)
  }

  /** `Filters.regex(field, term, "i")`. On a string or null field it selects
      the strings containing the term; a null, missing or non-string field
      never matches (an array matches through a string element). */
  function FieldContains(field: string, term: string): (f: Document -> bool)
    ensures forall d: Document | StringOrNull(d, field) :: f(d) <==> TextContains(StringAt(d, field), term)
    ensures forall d: Document | field in d && !d[field].Str? && !d[field].Array? :: !f(d)
  {
    d => RegexFieldMatches(d, field, term)
  }

  /** `Filters.elemMatch(list, Filters.regex("name", term, CASE_INSENSITIVE))`.
      A document without that list never matches; when every element is an
      embedded document with a string or null name, it matches exactly when
      some name contains the term. */
  function SomeNameContains(list: string, term: string): (f: Document -> bool)
    ensures forall d: Document | !(list in d && d[list].Array?) :: !f(d)
    ensures forall d: Document | list in d && d[list].Array? && EmbeddedNamesReadable(d[list].items) ::
      f(d) <==> exists i | 0 <= i < |d[list].items| :: TextContains(StringAt(d[list].items[i].fields, "name"), term)
  {
    d => ElemMatches(d, list, "name", term)
  }

  /** Every element is an embedded document whose name is a string or null.
      Embedded genres and embedded authors both have this `{name: …}` shape, so
      the genre reader's readability test applies to either list. */
  predicate EmbeddedNamesReadable(items: seq<Value>) {
    forall i | 0 <= i < |items| :: GenreReadable(items[i])
  }

  // ---- mutations ----

  /** `addBook`: appends the book's document to `books`. It has no connection
      guard: before `connect` the insert (BooksDbImpl.java line 87) throws a
      NullPointerException on the null `booksCollection`, and after `disconnect`
      the closed client refuses the call. Both are excluded here. */
  function AddBook(s: Store, b: Book, conv: DateConversion): (r: Store)
    requires Live(s)
    ensures |r.books| == |s.books| + 1 && r.books[..|s.books|] == s.books
    ensures r.books[|s.books|] == BookToDocument(b, conv)
    ensures r.authors == s.authors && Live(r)
  {
    s.(books := s.books + [BookToDocument(b, conv)])
  }

  /** `addAuthor`: appends `{name, dateOfBirth}` to `authors`. */
  function AddAuthor(s: Store, a: Author, conv: DateConversion): (r: Result<Store, Error>)
    ensures !s.databaseBound ==> r == Failure(NotConnected)
    ensures r.Success? <==> Live(s)
    ensures r.Success? ==> r.value.authors == s.authors + [AuthorToDocument(a, conv)]
    ensures r.Success? ==> r.value.books == s.books && Live(r.value)
  {
    match Unavailable(s)
    case Some(e) => Failure(e)
    case None => Success(s.(authors := s.authors + [AuthorToDocument(a, conv)]))
  }

  /** `deleteBook`: `deleteOne` removes the first document whose isbn equals the
      book's; no match is "No book found". */
  function DeleteBook(s: Store, b: Book): (r: Result<Store, Error>)
    ensures !s.databaseBound ==> r == Failure(NotConnected)
    ensures Live(s) && (forall j | 0 <= j < |s.books| :: !IsbnIs(b.isbn)(s.books[j])) ==>
      r == Failure(NoBookFound(b.isbn))
    ensures r.Success? ==> Live(s) && r.value.authors == s.authors && Live(r.value)
    ensures r.Success? ==> exists k | 0 <= k < |s.books| ::
      && IsbnIs(b.isbn)(s.books[k])
      && (forall j | 0 <= j < k :: !IsbnIs(b.isbn)(s.books[j]))
      && r.value.books == s.books[..k] + s.books[k + 1..]
    ensures r.Failure? ==> r.error in {NotConnected, ClientClosed, NoBookFound(b.isbn)}
    ensures Live(s) && (exists j | 0 <= j < |s.books| :: IsbnIs(b.isbn)(s.books[j])) ==> r.Success?
  {
    match Unavailable(s)
    case Some(e) => Failure(e)
    case None =>
      var k := Seqs.FirstIndex(s.books, IsbnIs(b.isbn));
      if k < 0 then Failure(NoBookFound(b.isbn))
      else Success(s.(books := Seqs.RemoveAt(s.books, k)))
  }

  /** The first match's rating already equals the new one, so `$set` modifies nothing. */
  predicate AlreadyRated(d: Document, rating: int32) {
    "rating" in d && d["rating"] == Int32(rating)
  }

  /** `updateBookRating`: `updateOne` sets `rating` on the first document whose
      isbn equals the book's. No match is "No book found"; a match whose rating
      is already the new one is modified by nothing and also fails. */
  function UpdateBookRating(s: Store, b: Book, rating: int32): (r: Result<Store, Error>)
    ensures !s.databaseBound ==> r == Failure(NotConnected)
    ensures Live(s) && (forall j | 0 <= j < |s.books| :: !IsbnIs(b.isbn)(s.books[j])) ==>
      r == Failure(NoBookFound(b.isbn))
    ensures r.Failure? ==> r.error in {NotConnected, ClientClosed, NoBookFound(b.isbn), RatingNotUpdated(b.isbn)}
    ensures r.Success? ==> Live(s) && r.value.authors == s.authors && Live(r.value)
    ensures r.Success? ==> |r.value.books| == |s.books| && exists k | 0 <= k < |s.books| ::
      && IsbnIs(b.isbn)(s.books[k])
      && (forall j | 0 <= j < k :: !IsbnIs(b.isbn)(s.books[j]))
      && !AlreadyRated(s.books[k], rating)
      && r.value.books[k] == s.books[k]["rating" := Int32(rating)]
      && (forall j | 0 <= j < |s.books| && j != k :: r.value.books[j] == s.books[j])
    ensures Live(s) && (exists j | 0 <= j < |s.books| :: IsbnIs(b.isbn)(s.books[j])) ==>
      r.Success? || r == Failure(RatingNotUpdated(b.isbn))
    ensures r == Failure(RatingNotUpdated(b.isbn)) ==>
      exists k | 0 <= k < |s.books| ::
        IsbnIs(b.isbn)(s.books[k]) && AlreadyRated(s.books[k], rating) &&
        forall j | 0 <= j < k :: !IsbnIs(b.isbn)(s.books[j])
  {
    match Unavailable(s)
    case Some(e) => Failure(e)
    case None =>
      var k := Seqs.FirstIndex(s.books, IsbnIs(b.isbn));
      if k < 0 then Failure(NoBookFound(b.isbn))
      else if AlreadyRated(s.books[k], rating) then Failure(RatingNotUpdated(b.isbn))
      else Success(s.(books := s.books[k := s.books[k]["rating" := Int32(rating)]]))
  }

  // ---- queries ----

  /** `find(filter)` followed by `getBooksFromDb`: the matching documents in
      collection order, each read into a Book; a document the reader cannot
      handle aborts the whole query. */
  function Find(s: Store, p: Document -> bool, conv: DateConversion, next: ObjId): (r: Result<(seq<Book>, ObjId), Error>)
    ensures !s.databaseBound ==> r == Failure(NotConnected)
    ensures s.databaseBound && !s.clientOpen ==> r == Failure(ClientClosed)
    ensures Live(s) ==>
      (r.Success? <==> forall j | 0 <= j < |s.books| && p(s.books[j]) :: Readable(s.books[j]))
    ensures r.Success? ==>
      var hits := Seqs.Filter(s.books, p);
      && |r.value.0| == |hits|
      && (forall i | 0 <= i < |hits| :: Reflects(r.value.0[i], hits[i], conv))
      && (forall i | 0 <= i < |hits| :: Readable(hits[i]) && p(hits[i]))
  {
    match Unavailable(s)
    case Some(e) => Failure(e)
    case None =>
      var hits := Seqs.Filter(s.books, p);
      MatchesReadable(s.books, p);
      ReadBooks(hits, conv, next)
  }

  /** Every selected document is readable exactly when every document the
      filter accepts is. */
  lemma MatchesReadable(xs: seq<Document>, p: Document -> bool)
    ensures (forall i | 0 <= i < |Seqs.Filter(xs, p)| :: Readable(Seqs.Filter(xs, p)[i])) <==>
            (forall j | 0 <= j < |xs| && p(xs[j]) :: Readable(xs[j]))
  {
    var hits := Seqs.Filter(xs, p);
    if forall j | 0 <= j < |xs| && p(xs[j]) :: Readable(xs[j]) {
      forall i | 0 <= i < |hits| ensures Readable(hits[i]) {
        var j :| 0 <= j < |xs| && xs[j] == hits[i];
      }
    }
    if forall i | 0 <= i < |hits| :: Readable(hits[i]) {
      forall j | 0 <= j < |xs| && p(xs[j]) ensures Readable(xs[j]) {
        assert xs[j] in hits;
        var i :| 0 <= i < |hits| && hits[i] == xs[j];
      }
    }
  }

  /** `searchBooksByTitle` for a term without regular-expression metacharacters:
      the books whose title contains the term, ignoring case. */
  function SearchBooksByTitle(s: Store, term: string, conv: DateConversion, next: ObjId): (r: Result<(seq<Book>, ObjId), Error>)
    requires Text.IsLiteral(term)
    ensures !s.databaseBound ==> r == Failure(NotConnected)
    ensures r.Success? ==> |r.value.0| == |Seqs.Filter(s.books, FieldContains("title", term))|
    ensures Live(s) ==> (r.Success? <==>
      forall j | 0 <= j < |s.books| && FieldContains("title", term)(s.books[j]) :: Readable(s.books[j]))
    ensures r.Success? ==> forall i | 0 <= i < |r.value.0| ::
      Reflects(r.value.0[i], Seqs.Filter(s.books, FieldContains("title", term))[i], conv)
    ensures r.Success? ==> forall i | 0 <= i < |r.value.0| ::
      r.value.0[i].title.Some? && Text.ContainsIgnoreCase(r.value.0[i].title.value, term)
  {
    var r := Find(s, FieldContains("title", term), conv, next);
    FoundFieldContains(s, "title", term, conv, next);
    r
  }

  /** `searchBooksByISBN`: as title search, on the isbn. */
  function SearchBooksByIsbn(s: Store, term: string, conv: DateConversion, next: ObjId): (r: Result<(seq<Book>, ObjId), Error>)
    requires Text.IsLiteral(term)
    ensures !s.databaseBound ==> r == Failure(NotConnected)
    ensures r.Success? ==> |r.value.0| == |Seqs.Filter(s.books, FieldContains("isbn", term))|
    ensures Live(s) ==> (r.Success? <==>
      forall j | 0 <= j < |s.books| && FieldContains("isbn", term)(s.books[j]) :: Readable(s.books[j]))
    ensures r.Success? ==> forall i | 0 <= i < |r.value.0| ::
      Reflects(r.value.0[i], Seqs.Filter(s.books, FieldContains("isbn", term))[i], conv)
    ensures r.Success? ==> forall i | 0 <= i < |r.value.0| ::
      r.value.0[i].isbn.Some? && Text.ContainsIgnoreCase(r.value.0[i].isbn.value, term)
  {
    var r := Find(s, FieldContains("isbn", term), conv, next);
    FoundFieldContains(s, "isbn", term, conv, next);
    r
  }

  /** A found document's string field contains the term, and the book read
      from it carries that string. */
  lemma FoundFieldContains(s: Store, field: string, term: string, conv: DateConversion, next: ObjId)
    requires field == "title" || field == "isbn"
    ensures
      var r := Find(s, FieldContains(field, term), conv, next);
      r.Success? ==> forall i | 0 <= i < |r.value.0| ::
        var v := if field == "title" then r.value.0[i].title else r.value.0[i].isbn;
        v.Some? && Text.ContainsIgnoreCase(v.value, term)
  {
    var r := Find(s, FieldContains(field, term), conv, next);
    if r.Success? {
      var hits := Seqs.Filter(s.books, FieldContains(field, term));
      forall i | 0 <= i < |r.value.0|
        ensures var v := if field == "title" then r.value.0[i].title else r.value.0[i].isbn;
                v.Some? && Text.ContainsIgnoreCase(v.value, term)
      {
        ReadFieldMatch(r.value.0[i], hits[i], field, term, conv);
      }
    }
  }

  /** `searchBooksByAuthor`: the books with some embedded author whose name
      contains the term, ignoring case. Authors are not read back, so the
      result is stated on the documents found. */
  function SearchBooksByAuthor(s: Store, term: string, conv: DateConversion, next: ObjId): (r: Result<(seq<Book>, ObjId), Error>)
    requires Text.IsLiteral(term)
    ensures !s.databaseBound ==> r == Failure(NotConnected)
    ensures Live(s) ==> (r.Success? <==>
      forall j | 0 <= j < |s.books| && SomeNameContains("authors", term)(s.books[j]) :: Readable(s.books[j]))
    ensures r.Success? ==>
      var hits := Seqs.Filter(s.books, SomeNameContains("authors", term));
      && |r.value.0| == |hits|
      && (forall i | 0 <= i < |hits| :: Reflects(r.value.0[i], hits[i], conv))
      && (forall i | 0 <= i < |hits| :: ElemMatches(hits[i], "authors", "name", term))
  {
    Find(s, SomeNameContains("authors", term), conv, next)
  }

  /** `searchBooksByGenre`: the books with some genre whose name contains the
      term, ignoring case. */
  function SearchBooksByGenre(s: Store, term: string, conv: DateConversion, next: ObjId): (r: Result<(seq<Book>, ObjId), Error>)
    requires Text.IsLiteral(term)
    ensures !s.databaseBound ==> r == Failure(NotConnected)
    ensures r.Success? ==> |r.value.0| == |Seqs.Filter(s.books, SomeNameContains("genres", term))|
    ensures Live(s) ==> (r.Success? <==>
      forall j | 0 <= j < |s.books| && SomeNameContains("genres", term)(s.books[j]) :: Readable(s.books[j]))
    ensures r.Success? ==> forall i | 0 <= i < |r.value.0| ::
      Reflects(r.value.0[i], Seqs.Filter(s.books, SomeNameContains("genres", term))[i], conv)
    ensures r.Success? ==> forall i | 0 <= i < |r.value.0| ::
      HasGenreContaining(r.value.0[i], term)
  {
    FoundGenreNamesContain(s, term, conv, next);
    Find(s, SomeNameContains("genres", term), conv, next)
  }

  /** A book found by genre has a genre whose name contains the term. */
  lemma FoundGenreNamesContain(s: Store, term: string, conv: DateConversion, next: ObjId)
    ensures
      var r := Find(s, SomeNameContains("genres", term), conv, next);
      r.Success? ==> forall i | 0 <= i < |r.value.0| ::
        HasGenreContaining(r.value.0[i], term)
  {
    var r := Find(s, SomeNameContains("genres", term), conv, next);
    if r.Success? {
      var hits := Seqs.Filter(s.books, SomeNameContains("genres", term));
      forall i | 0 <= i < |r.value.0|
        ensures HasGenreContaining(r.value.0[i], term)
      {
        ReadGenreMatch(r.value.0[i], hits[i], term, conv);
      }
    }
  }

  predicate GenreNameContains(g: Genres.Genre, term: string) {
    g.name.Some? && Text.ContainsIgnoreCase(g.name.value, term)
  }

  /** Some genre of the book has a name containing the term, ignoring case. */
  predicate HasGenreContaining(b: Book, term: string) {
    exists k | 0 <= k < |b.genres| :: GenreNameContains(b.genres[k], term)
  }

  /** `searchBooksByRating`: text that `Integer.parseInt` rejects is "Invalid
      rating format"; otherwise the books whose stored rating equals the value. */
  function SearchBooksByRating(s: Store, text: string, conv: DateConversion, next: ObjId): (r: Result<(seq<Book>, ObjId), Error>)
    ensures !s.databaseBound ==> r == Failure(NotConnected)
    ensures s.databaseBound && IntParse.ParseInt(text).None? ==> r == Failure(InvalidRatingFormat(text))
    ensures r.Success? ==> IntParse.ParseInt(text).Some? && Live(s)
    ensures Live(s) && IntParse.ParseInt(text).Some? ==> (r.Success? <==>
      forall j | 0 <= j < |s.books| && RatingIs(IntParse.ParseInt(text).value)(s.books[j]) :: Readable(s.books[j]))
    ensures r.Success? ==>
      var v := IntParse.ParseInt(text).value;
      && |r.value.0| == |Seqs.Filter(s.books, RatingIs(v))|
      && (forall i | 0 <= i < |r.value.0| :: Reflects(r.value.0[i], Seqs.Filter(s.books, RatingIs(v))[i], conv))
      && forall i | 0 <= i < |r.value.0| :: GetRating(r.value.0[i]) == v
  {
    if !s.databaseBound then Failure(NotConnected)
    else match IntParse.ParseInt(text)
      case None => Failure(InvalidRatingFormat(text))
      case Some(v) =>
        FoundRatingsEqual(s, v, conv, next);
        Find(s, RatingIs(v), conv, next)
  }

  /** Every book found by rating carries exactly that rating: a matching
      document whose rating is not a plain 32-bit integer cannot be read. */
  lemma FoundRatingsEqual(s: Store, v: int32, conv: DateConversion, next: ObjId)
    ensures
      var r := Find(s, RatingIs(v), conv, next);
      r.Success? ==> forall i | 0 <= i < |r.value.0| :: GetRating(r.value.0[i]) == v
  {
    var r := Find(s, RatingIs(v), conv, next);
    if r.Success? {
      var hits := Seqs.Filter(s.books, RatingIs(v));
      forall i | 0 <= i < |r.value.0|
        ensures GetRating(r.value.0[i]) == v
      {
        ReadRatingMatch(r.value.0[i], hits[i], v, conv);
      }
    }
  }

  // ---- what a matching readable document yields ----

  lemma ReadFieldMatch(b: Book, d: Document, field: string, term: string, conv: DateConversion)
    requires field == "title" || field == "isbn"
    requires Readable(d) && Reflects(b, d, conv) && FieldContains(field, term)(d)
    ensures var v := if field == "title" then b.title else b.isbn;
      v.Some? && Text.ContainsIgnoreCase(v.value, term)
  {
    assert StringOrNull(d, field);
  }

  lemma ReadRatingMatch(b: Book, d: Document, v: int32, conv: DateConversion)
    requires Readable(d) && Reflects(b, d, conv) && RatingIs(v)(d)
    ensures GetRating(b) == v
  {
    assert IsNullField(d, "rating") || d["rating"].Int32?;
  }

  lemma ReadGenreMatch(b: Book, d: Document, term: string, conv: DateConversion)
    requires Readable(d) && Reflects(b, d, conv) && SomeNameContains("genres", term)(d)
    ensures HasGenreContaining(b, term)
  {
    assert ElemMatches(d, "genres", "name", term);
    var items := d["genres"].items;
    var k :| 0 <= k < |items| && SubDocMatches(items[k], "name", term);
    assert GenreReadable(items[k]);
    assert GenresAt(d) == items;
    assert GenreNameContains(b.genres[k], term);
  }

  /** `getAllAuthors`: every document of `authors`, read as an Author with
      identity number 0. It has no connection guard; a gateway that is not
      live is excluded. */
  function GetAllAuthors(s: Store, conv: DateConversion, next: ObjId): (r: Result<seq<Author>, Error>)
    requires Live(s)
    ensures r.Success? <==> forall i | 0 <= i < |s.authors| :: ReadAuthor(s.authors[i], conv, next + i).Success?
    ensures r.Success? ==> |r.value| == |s.authors|
    ensures r.Success? ==> forall i | 0 <= i < |s.authors| ::
      r.value[i].authorId == 0 && r.value[i].name == StringAt(s.authors[i], "name")
    ensures r.Success? ==> forall i | 0 <= i < |s.authors| ::
      r.value[i].ref == next + i && r.value[i].birthDate == Some(conv.toLocal(s.authors[i]["dateOfBirth"].t))
  {
    ReadAuthors(s.authors, conv, next)
  }
}
