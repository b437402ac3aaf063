/** The `Book` entity: identity number, isbn, title, publication date, story
    line, rating, and ordered lists of genres and authors. */
module Books {
  import opened Wrappers
  import opened Lang
  import IdentityList
  import Text
  import opened Genres
  import opened Authors

  datatype Book = Book(
    ref: ObjId,
    bookId: int32,
    isbn: JString,
    title: JString,
    published: Option<LocalDate>,
    storyLine: JString,
    rating: int32,
    genres: seq<Genre>,
    authors: seq<Author>)

  /** The fields a setter may target. */
  datatype Field =
    | BookIdField | IsbnField | TitleField | PublishedField | StoryLineField
    | RatingField | GenresField | AuthorsField

  /** `a` and `b` are the same object and agree on every field other than `f`. */
  predicate AgreeExcept(a: Book, b: Book, f: Field) {
    && a.ref == b.ref
    && (f == BookIdField || a.bookId == b.bookId)
    && (f == IsbnField || a.isbn == b.isbn)
    && (f == TitleField || a.title == b.title)
    && (f == PublishedField || a.published == b.published)
    && (f == StoryLineField || a.storyLine == b.storyLine)
    && (f == RatingField || a.rating == b.rating)
    && (f == GenresField || a.genres == b.genres)
    && (f == AuthorsField || a.authors == b.authors)
  }

  /** `new Book(bookId, isbn, title, published, genres, authors)`; the story line
      stays null and the rating keeps Java's default 0. */
  function NewBookWithLists(
    ref: ObjId, bookId: int32, isbn: JString, title: JString, published: Option<LocalDate>,
    genres: seq<Genre>, authors: seq<Author>): (b: Book)
    ensures b.ref == ref && b.bookId == bookId && b.isbn == isbn && b.title == title
    ensures b.published == published && b.genres == genres && b.authors == authors
    ensures b.storyLine == None && GetRating(b) == 0
  {
    Book(ref, bookId, isbn, title, published, None, 0, genres, authors)
  }

  /** `new Book(bookId, isbn, title, published)`: empty genre and author lists. */
  function NewNumberedBook(ref: ObjId, bookId: int32, isbn: JString, title: JString, published: Option<LocalDate>): (b: Book)
    ensures b.ref == ref && b.bookId == bookId && b.isbn == isbn && b.title == title && b.published == published
    ensures b.storyLine == None && GetRating(b) == 0 && GetGenres(b) == [] && GetAuthors(b) == []
  {
    NewBookWithLists(ref, bookId, isbn, title, published, [], [])
  }

  /** `new Book(isbn, title, published)`: identity number 0 as well. */
  function NewBook(ref: ObjId, isbn: JString, title: JString, published: Option<LocalDate>): (b: Book)
    ensures b.ref == ref && b.isbn == isbn && b.title == title && b.published == published
    ensures b.bookId == 0 && b.storyLine == None && GetRating(b) == 0
    ensures GetGenres(b) == [] && GetAuthors(b) == [] && GetGenresAsString(b) == ""
  {
    NewNumberedBook(ref, 0, isbn, title, published)
  }

  /** `setRating`: any `int` is stored, with no range check. */
  function SetRating(b: Book, rating: int32): (r: Book)
    ensures GetRating(r) == rating && AgreeExcept(b, r, RatingField)
  {
    b.(rating := rating)
  }

  function GetRating(b: Book): int32 {
    b.rating
  }

  function SetBookId(b: Book, bookId: int32): (r: Book)
    ensures r.bookId == bookId && AgreeExcept(b, r, BookIdField)
  {
    b.(bookId := bookId)
  }

  function SetIsbn(b: Book, isbn: JString): (r: Book)
    ensures r.isbn == isbn && AgreeExcept(b, r, IsbnField)
  {
    b.(isbn := isbn)
  }

  function SetTitle(b: Book, title: JString): (r: Book)
    ensures r.title == title && AgreeExcept(b, r, TitleField)
  {
    b.(title := title)
  }

  function SetPublished(b: Book, published: Option<LocalDate>): (r: Book)
    ensures r.published == published && AgreeExcept(b, r, PublishedField)
  {
    b.(published := published)
  }

  function SetStoryLine(b: Book, storyLine: JString): (r: Book)
    ensures r.storyLine == storyLine && AgreeExcept(b, r, StoryLineField)
  {
    b.(storyLine := storyLine)
  }

  function SetGenres(b: Book, genres: seq<Genre>): (r: Book)
    ensures GetGenres(r) == genres && AgreeExcept(b, r, GenresField)
  {
    b.(genres := genres)
  }

  function SetAuthors(b: Book, authors: seq<Author>): (r: Book)
    ensures GetAuthors(r) == authors && AgreeExcept(b, r, AuthorsField)
  {
    b.(authors := authors)
  }

  /** `getGenres`: a copy of the list; as a value it cannot alias the book's own. */
  function GetGenres(b: Book): seq<Genre> {
    b.genres
  }

  /** `getAuthors`: a copy of the list. */
  function GetAuthors(b: Book): seq<Author> {
    b.authors
  }

  /** `addAuthor`: appends the author unless that very object is already listed. */
  function AddAuthor(b: Book, a: Author): (r: Book)
    ensures IdentityList.Contains(GetAuthors(r), Authors.Ref, Authors.Ref(a))
    ensures IdentityList.Contains(b.authors, Authors.Ref, Authors.Ref(a)) ==> r == b
    ensures !IdentityList.Contains(b.authors, Authors.Ref, Authors.Ref(a)) ==>
      GetAuthors(r) == GetAuthors(b) + [a]
    ensures AgreeExcept(b, r, AuthorsField)
  {
    b.(authors := IdentityList.AddIfAbsent(b.authors, Authors.Ref, a))
  }

  /** `removeAuthor`: drops the first occurrence of that author object, if any. */
  function RemoveAuthor(b: Book, a: Author): (r: Book)
    ensures !IdentityList.Contains(b.authors, Authors.Ref, Authors.Ref(a)) ==> r == b
    ensures IdentityList.Contains(b.authors, Authors.Ref, Authors.Ref(a)) ==>
      |GetAuthors(r)| == |GetAuthors(b)| - 1
    ensures IdentityList.Contains(b.authors, Authors.Ref, Authors.Ref(a)) ==>
      var k := IdentityList.IndexOf(b.authors, Authors.Ref, Authors.Ref(a));
      GetAuthors(r) == b.authors[..k] + b.authors[k + 1..]
    ensures AgreeExcept(b, r, AuthorsField)
  {
    b.(authors := IdentityList.RemoveFirst(b.authors, Authors.Ref, Authors.Ref(a)))
  }

  /** `addGenre`: appends the genre unless that very object is already listed. */
  function AddGenre(b: Book, g: Genre): (r: Book)
    ensures IdentityList.Contains(GetGenres(r), Genres.Ref, Genres.Ref(g))
    ensures IdentityList.Contains(b.genres, Genres.Ref, Genres.Ref(g)) ==> r == b
    ensures !IdentityList.Contains(b.genres, Genres.Ref, Genres.Ref(g)) ==>
      GetGenres(r) == GetGenres(b) + [g]
    ensures AgreeExcept(b, r, GenresField)
  {
    b.(genres := IdentityList.AddIfAbsent(b.genres, Genres.Ref, g))
  }

  /** `removeGenre`: drops the first occurrence of that genre object, if any. */
  function RemoveGenre(b: Book, g: Genre): (r: Book)
    ensures !IdentityList.Contains(b.genres, Genres.Ref, Genres.Ref(g)) ==> r == b
    ensures IdentityList.Contains(b.genres, Genres.Ref, Genres.Ref(g)) ==>
      |GetGenres(r)| == |GetGenres(b)| - 1
    ensures IdentityList.Contains(b.genres, Genres.Ref, Genres.Ref(g)) ==>
      var k := IdentityList.IndexOf(b.genres, Genres.Ref, Genres.Ref(g));
      GetGenres(r) == b.genres[..k] + b.genres[k + 1..]
    ensures AgreeExcept(b, r, GenresField)
  {
    b.(genres := IdentityList.RemoveFirst(b.genres, Genres.Ref, Genres.Ref(g)))
  }

  /** The genre names in list order, a null name printing as "null". */
  function GenreNames(gs: seq<Genre>): (r: seq<string>)
    ensures |r| == |gs|
    ensures forall i | 0 <= i < |gs| :: r[i] == Show(gs[i].name)
  {
    seq(|gs|, i requires 0 <= i < |gs| => Show(gs[i].name))
  }

  /** `getGenresAsString`: the genre names joined by ", ". */
  function GetGenresAsString(b: Book): (r: string)
    ensures |b.genres| == 0 ==> r == ""
    ensures |b.genres| == 1 ==> r == Show(b.genres[0].name)
    ensures |b.genres| > 1 ==>
      r == GetGenresAsString(b.(genres := b.genres[..|b.genres| - 1])) + ", " + Show(b.genres[|b.genres| - 1].name)
    decreases |b.genres|
  {
    var names := GenreNames(b.genres);
    if |b.genres| > 1 then
      var init := b.genres[..|b.genres| - 1];
      assert names == GenreNames(init) + [Show(b.genres[|b.genres| - 1].name)];
      Text.JoinAppend(GenreNames(init), Show(b.genres[|b.genres| - 1].name), ", ");
      Text.Join(names, ", ")
    else
      Text.Join(names, ", ")
  }

  /** Adding a new genre extends the genre string by ", " and its name (or
      makes it the whole string when it is the first genre); adding a genre
      already present changes nothing. */
  lemma GenresAsStringAfterAddGenre(b: Book, g: Genre)
    ensures
      var s := GetGenresAsString(AddGenre(b, g));
      if IdentityList.Contains(b.genres, Genres.Ref, Genres.Ref(g)) then s == GetGenresAsString(b)
      else if |b.genres| == 0 then s == Show(g.name)
      else s == GetGenresAsString(b) + ", " + Show(g.name)
  {
    if !IdentityList.Contains(b.genres, Genres.Ref, Genres.Ref(g)) && |b.genres| > 0 {
      assert GenreNames(b.genres + [g]) == GenreNames(b.genres) + [Show(g.name)];
      Text.JoinAppend(GenreNames(b.genres), Show(g.name), ", ");
    }
  }

  /** The list operations keep duplicate-free genre and author lists duplicate-free. */
  lemma ListOperationsKeepDistinct(b: Book, g: Genre, a: Author)
    requires IdentityList.Distinct(b.genres, Genres.Ref)
    requires IdentityList.Distinct(b.authors, Authors.Ref)
    ensures IdentityList.Distinct(GetGenres(AddGenre(b, g)), Genres.Ref)
    ensures IdentityList.Distinct(GetGenres(RemoveGenre(b, g)), Genres.Ref)
    ensures IdentityList.Distinct(GetAuthors(AddAuthor(b, a)), Authors.Ref)
    ensures IdentityList.Distinct(GetAuthors(RemoveAuthor(b, a)), Authors.Ref)
    ensures !IdentityList.Contains(GetGenres(RemoveGenre(b, g)), Genres.Ref, Genres.Ref(g))
    ensures !IdentityList.Contains(GetAuthors(RemoveAuthor(b, a)), Authors.Ref, Authors.Ref(a))
  {
    IdentityList.AddIfAbsentKeepsDistinct(b.genres, Genres.Ref, g);
    IdentityList.RemoveFirstKeepsDistinct(b.genres, Genres.Ref, Genres.Ref(g));
    IdentityList.AddIfAbsentKeepsDistinct(b.authors, Authors.Ref, a);
    IdentityList.RemoveFirstKeepsDistinct(b.authors, Authors.Ref, Authors.Ref(a));
  }

  /** Removing a genre or author just added (and not present before) restores the book. */
  lemma RemoveUndoesAdd(b: Book, g: Genre, a: Author)
    ensures !IdentityList.Contains(b.genres, Genres.Ref, Genres.Ref(g)) ==>
      RemoveGenre(AddGenre(b, g), g) == b
    ensures !IdentityList.Contains(b.authors, Authors.Ref, Authors.Ref(a)) ==>
      RemoveAuthor(AddAuthor(b, a), a) == b
  {
    if !IdentityList.Contains(b.genres, Genres.Ref, Genres.Ref(g)) {
      IdentityList.RemoveUndoesAdd(b.genres, Genres.Ref, g);
    }
    if !IdentityList.Contains(b.authors, Authors.Ref, Authors.Ref(a)) {
      IdentityList.RemoveUndoesAdd(b.authors, Authors.Ref, a);
    }
  }
}
