/** Translation between the entities and store documents: the document `addBook`
    and `addAuthor` insert, and the entities the gateway rebuilds from found
    documents. Reading ignores authors and the stored identity number. */
module Mapper {
  import opened Wrappers
  import opened Lang
  import opened Bson
  import opened Genres
  import opened Authors
  import opened Books

  /** The two date conversions the mapper depends on but cannot see: the
      driver's encoding of a `LocalDate` as a date-time when inserting, and the
      conversion of a date-time to a calendar date in the system's default zone
      when reading. */
  datatype DateConversion = DateConversion(toStore: LocalDate -> Instant, toLocal: Instant -> LocalDate)

  /** A nullable date as a BSON value. */
  function OfDate(d: Option<LocalDate>, conv: DateConversion): Value {
    match d
    case None => Null
    case Some(x) => Date(conv.toStore(x))
  }

  /** The keys of a book document. */
  const BookKeys: set<string> := {"title", "isbn", "dateOfRelease", "description", "rating", "genres", "authors"}

  /** The embedded form of a genre: `{name}`. */
  function GenreToDocument(g: Genre): (d: Document)
    ensures d.Keys == {"name"} && d["name"] == OfString(g.name)
  {
    map["name" := OfString(g.name)]
  }

  /** The document of an author, top-level or embedded: `{name, dateOfBirth}`. */
  function AuthorToDocument(a: Author, conv: DateConversion): (d: Document)
    ensures d.Keys == {"name", "dateOfBirth"}
    ensures d["name"] == OfString(a.name) && d["dateOfBirth"] == OfDate(a.birthDate, conv)
  {
    map["name" := OfString(a.name), "dateOfBirth" := OfDate(a.birthDate, conv)]
  }

  /** The document `addBook` inserts. Genres become `[{name}]` and authors
      `[{name, dateOfBirth}]`, both in the book's list order; the identity
      number is not stored. */
  function BookToDocument(b: Book, conv: DateConversion): (d: Document)
    ensures d.Keys == BookKeys
    ensures d["title"] == OfString(b.title) && d["isbn"] == OfString(b.isbn)
    ensures d["dateOfRelease"] == OfDate(b.published, conv)
    ensures d["description"] == OfString(b.storyLine)
    ensures d["rating"] == Int32(b.rating)
    ensures d["genres"].Array? && |d["genres"].items| == |b.genres|
    ensures forall i | 0 <= i < |b.genres| ::
      d["genres"].items[i] == Doc(map["name" := OfString(b.genres[i].name)])
    ensures d["authors"].Array? && |d["authors"].items| == |b.authors|
    ensures forall i | 0 <= i < |b.authors| ::
      d["authors"].items[i] == Doc(map["name" := OfString(b.authors[i].name),
                                       "dateOfBirth" := OfDate(b.authors[i].birthDate, conv)])
  {
    var genres := seq(|b.genres|, i requires 0 <= i < |b.genres| => Doc(GenreToDocument(b.genres[i])));
    var authors := seq(|b.authors|, i requires 0 <= i < |b.authors| => Doc(AuthorToDocument(b.authors[i], conv)));
    map[
      "title" := OfString(b.title),
      "isbn" := OfString(b.isbn),
      "dateOfRelease" := OfDate(b.published, conv),
      "description" := OfString(b.storyLine),
      "rating" := Int32(b.rating),
      "genres" := Array(genres),
      "authors" := Array(authors)]
  }

  // ---- what a stored document denotes ----

  /** The string a field denotes: null unless it holds a string. */
  function StringAt(d: Document, key: string): JString {
    if key in d && d[key].Str? then Some(d[key].s) else None
  }

  /** The rating a document denotes: its 32-bit integer, 0 when there is none. */
  function RatingAt(d: Document): int32 {
    if "rating" in d && d["rating"].Int32? then d["rating"].i else 0
  }

  predicate StringOrNull(d: Document, key: string) {
    IsNullField(d, key) || d[key].Str?
  }

  /** An embedded genre the reader can rebuild: a document whose name is a string or null. */
  predicate GenreReadable(v: Value) {
    v.Doc? && StringOrNull(v.fields, "name")
  }

  /** The genre list is absent or null, or an array of readable genres. */
  predicate GenresReadable(d: Document) {
    IsNullField(d, "genres") ||
    (d["genres"].Array? && forall i | 0 <= i < |d["genres"].items| :: GenreReadable(d["genres"].items[i]))
  }

  /** The embedded genres of a document (none when the list is absent or null). */
  function GenresAt(d: Document): seq<Value> {
    if "genres" in d && d["genres"].Array? then d["genres"].items else []
  }

  /** A document the reader turns into a Book rather than throwing: every field
      it reads has the expected type or is null, and the release date is present. */
  predicate Readable(d: Document) {
    && StringOrNull(d, "bookId")
    && StringOrNull(d, "title")
    && StringOrNull(d, "isbn")
    && "dateOfRelease" in d && d["dateOfRelease"].Date?
    && StringOrNull(d, "description")
    && (IsNullField(d, "rating") || d["rating"].Int32?)
    && GenresReadable(d)
  }

  /** `b` is the Book the reader builds from `d`: the document's title, isbn,
      description, rating (0 when absent) and genre names in order, the
      release date converted to the local zone, identity number 0, no authors,
      and fresh genres with identity number 0 and no books. */
  predicate Reflects(b: Book, d: Document, conv: DateConversion) {
    && b.bookId == 0
    && b.title == StringAt(d, "title")
    && b.isbn == StringAt(d, "isbn")
    && b.storyLine == StringAt(d, "description")
    && b.rating == RatingAt(d)
    && "dateOfRelease" in d && d["dateOfRelease"].Date?
    && b.published == Some(conv.toLocal(d["dateOfRelease"].t))
    && |b.genres| == |GenresAt(d)|
    && (forall i | 0 <= i < |b.genres| ::
          GenresAt(d)[i].Doc? && b.genres[i].name == StringAt(GenresAt(d)[i].fields, "name"))
    && (forall i | 0 <= i < |b.genres| :: b.genres[i].genreId == 0 && b.genres[i].books == [])
    && b.authors == []
  }

  // ---- reading ----

  /** One element of the genre list: `new Genre(genreDoc.getString("name"))`. */
  function ReadGenre(v: Value, ref: ObjId): (r: Result<Genre, Error>)
    ensures r.Success? <==> GenreReadable(v)
    ensures r.Failure? ==> r.error.ClassCast? || r.error.NullPointer?
    ensures v.Null? ==> r == Failure(NullPointer("genres"))
    ensures r.Success? ==> r.value == NewNamedGenre(ref, StringAt(v.fields, "name"))
  {
    if v.Null? then Failure(NullPointer("genres"))
    else if !v.Doc? then Failure(ClassCast("genres"))
    else
      var name :- GetString(v.fields, "name");
      Success(NewNamedGenre(ref, name))
  }

  /** The genre list, element by element; element `i` is allocated at `next + i`. */
  function ReadGenres(items: seq<Value>, next: ObjId): (r: Result<seq<Genre>, Error>)
    ensures r.Success? <==> forall i | 0 <= i < |items| :: GenreReadable(items[i])
    ensures r.Failure? ==> r.error.ClassCast? || r.error.NullPointer?
    ensures r.Success? ==> |r.value| == |items|
    ensures r.Success? ==> forall i | 0 <= i < |items| ::
      r.value[i] == NewNamedGenre(next + i, StringAt(items[i].fields, "name"))
    decreases |items|
  {
    if |items| == 0 then Success([])
    else
      var first :- ReadGenre(items[0], next);
      var rest :- ReadGenres(items[1..], next + 1);
      assert forall i | 1 <= i < |items| :: items[i] == items[1..][i - 1];
      Success([first] + rest)
  }

  /** One found document to a Book, allocating the book at `next` and its
      genres after it; also yields the next unused identity. Any wrongly typed
      field, or a missing release date, raises the unchecked exception that
      aborts the whole search. */
  function ReadBook(d: Document, conv: DateConversion, next: ObjId): (r: Result<(Book, ObjId), Error>)
    ensures r.Success? <==> Readable(d)
    ensures IsNullField(d, "dateOfRelease") ==> r.Failure?
    ensures r.Failure? ==> r.error.ClassCast? || r.error.NullPointer?
    ensures r.Success? ==> Reflects(r.value.0, d, conv)
    ensures r.Success? ==> r.value.0.ref == next && r.value.1 == next + 1 + |r.value.0.genres|
    ensures r.Success? ==> forall i | 0 <= i < |r.value.0.genres| :: r.value.0.genres[i].ref == next + 1 + i
  {
    var bookId :- GetString(d, "bookId");
    var title :- GetString(d, "title");
    var isbn :- GetString(d, "isbn");
    var released :- GetDate(d, "dateOfRelease");
    var description :- GetString(d, "description");
    var rating :- GetInteger(d, "rating", 0);
    if released.None? then Failure(NullPointer("dateOfRelease"))
    else
      var book := NewBook(next, isbn, title, Some(conv.toLocal(released.value)));
      var book := SetRating(SetStoryLine(book, description), rating);
      if IsNullField(d, "genres") then Success((book, next + 1))
      else if !d["genres"].Array? then Failure(ClassCast("genres"))
      else
        var genres :- ReadGenres(d["genres"].items, next + 1);
        Success((SetGenres(book, genres), next + 1 + |genres|))
  }

  /** `getBooksFromDb`: every found document in order, or the first failure. */
  function ReadBooks(docs: seq<Document>, conv: DateConversion, next: ObjId): (r: Result<(seq<Book>, ObjId), Error>)
    ensures r.Success? <==> forall i | 0 <= i < |docs| :: Readable(docs[i])
    ensures r.Failure? ==> r.error.ClassCast? || r.error.NullPointer?
    ensures r.Success? ==> |r.value.0| == |docs| && r.value.1 >= next
    ensures r.Success? ==> forall i | 0 <= i < |docs| :: Reflects(r.value.0[i], docs[i], conv)
    decreases |docs|
  {
    if |docs| == 0 then Success(([], next))
    else
      var first :- ReadBook(docs[0], conv, next);
      var rest :- ReadBooks(docs[1..], conv, first.1);
      assert forall i | 1 <= i < |docs| :: docs[i] == docs[1..][i - 1];
      Success(([first.0] + rest.0, rest.1))
  }

  /** One document of the authors collection: `new Author(name, date)`. */
  function ReadAuthor(d: Document, conv: DateConversion, ref: ObjId): (r: Result<Author, Error>)
    ensures r.Success? <==> StringOrNull(d, "name") && "dateOfBirth" in d && d["dateOfBirth"].Date?
    ensures r.Success? ==>
      r.value == NewUnnumberedAuthor(ref, StringAt(d, "name"), Some(conv.toLocal(d["dateOfBirth"].t)))
  {
    var name :- GetString(d, "name");
    var born :- GetDate(d, "dateOfBirth");
    if born.None? then Failure(NullPointer("dateOfBirth"))
    else Success(NewUnnumberedAuthor(ref, name, Some(conv.toLocal(born.value))))
  }

  /** Every author document in order; author `i` is allocated at `next + i`. */
  function ReadAuthors(docs: seq<Document>, conv: DateConversion, next: ObjId): (r: Result<seq<Author>, Error>)
    ensures r.Success? <==> forall i | 0 <= i < |docs| :: ReadAuthor(docs[i], conv, next + i).Success?
    ensures r.Success? ==> |r.value| == |docs|
    ensures r.Success? ==> forall i | 0 <= i < |docs| :: Success(r.value[i]) == ReadAuthor(docs[i], conv, next + i)
    decreases |docs|
  {
    if |docs| == 0 then Success([])
    else
      var first :- ReadAuthor(docs[0], conv, next);
      var rest :- ReadAuthors(docs[1..], conv, next + 1);
      assert forall i | 1 <= i < |docs| :: docs[i] == docs[1..][i - 1];
      Success([first] + rest)
  }

  // ---- round trips ----

  /** Any book that reflects the document written for `b` agrees with `b` on
      every field the document carries back. */
  lemma ReflectsWrittenBook(c: Book, b: Book, conv: DateConversion)
    requires Reflects(c, BookToDocument(b, conv), conv)
    ensures b.published.Some?
    ensures c.title == b.title && c.isbn == b.isbn && c.storyLine == b.storyLine && c.rating == b.rating
    ensures Books.GenreNames(c.genres) == Books.GenreNames(b.genres)
    ensures Books.GetGenresAsString(c) == Books.GetGenresAsString(b)
  {
    var d := BookToDocument(b, conv);
    forall i | 0 <= i < |b.genres|
      ensures c.genres[i].name == b.genres[i].name
    {
      assert GenresAt(d)[i] == Doc(map["name" := OfString(b.genres[i].name)]);
    }
    assert Books.GenreNames(c.genres) == Books.GenreNames(b.genres);
  }

  /** Writing a book and reading it back keeps its title, isbn, story line,
      rating and genre names in order; it loses the authors and the identity
      number, and the release date comes back through both zone conversions.
      A book without a publication date cannot be read back at all. */
  lemma BookRoundTrip(b: Book, conv: DateConversion, next: ObjId)
    ensures ReadBook(BookToDocument(b, conv), conv, next).Success? <==> b.published.Some?
    ensures
      var r := ReadBook(BookToDocument(b, conv), conv, next);
      r.Success? ==>
        var c := r.value.0;
        && c.title == b.title && c.isbn == b.isbn && c.storyLine == b.storyLine && c.rating == b.rating
        && |c.genres| == |b.genres|
        && (forall i | 0 <= i < |b.genres| :: c.genres[i].name == b.genres[i].name)
        && Books.GetGenresAsString(c) == Books.GetGenresAsString(b)
        && c.authors == [] && c.bookId == 0
        && c.published == Some(conv.toLocal(conv.toStore(b.published.value)))
  {
    var d := BookToDocument(b, conv);
    assert forall i | 0 <= i < |d["genres"].items| :: GenreReadable(d["genres"].items[i]);
    var r := ReadBook(d, conv, next);
    if r.Success? {
      var c := r.value.0;
      forall i | 0 <= i < |b.genres|
        ensures c.genres[i].name == b.genres[i].name
      {
        assert GenresAt(d)[i] == Doc(map["name" := OfString(b.genres[i].name)]);
      }
      assert Books.GenreNames(c.genres) == Books.GenreNames(b.genres);
    }
  }

  /** Writing an author and reading it back keeps the name; it loses the
      identity number, and an author without a birth date cannot be read back. */
  lemma AuthorRoundTrip(a: Author, conv: DateConversion, ref: ObjId)
    ensures ReadAuthor(AuthorToDocument(a, conv), conv, ref).Success? <==> a.birthDate.Some?
    ensures
      var r := ReadAuthor(AuthorToDocument(a, conv), conv, ref);
      r.Success? ==>
        r.value.name == a.name && r.value.authorId == 0 &&
        r.value.birthDate == Some(conv.toLocal(conv.toStore(a.birthDate.value)))
  {
  }
}
