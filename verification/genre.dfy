/** The `Genre` entity: an identity number, a final name, and a list of the
    books (object identities) associated with it. */
module Genres {
  import opened Lang
  import IdentityList

  datatype Genre = Genre(ref: ObjId, genreId: int32, name: JString, books: seq<ObjId>)

  /** The identity of a genre, as `List.contains` sees it. */
  function Ref(g: Genre): ObjId {
    g.ref
  }

  /** Book references are themselves identities. */
  function BookRef(b: ObjId): ObjId {
    b
  }

  /** `new Genre(genreId, name)`, allocated at identity `ref`. */
  function NewGenre(ref: ObjId, genreId: int32, name: JString): (g: Genre)
    ensures Ref(g) == ref && g.genreId == genreId && GetGenreName(g) == name
    ensures GetBooks(g) == []
  {
    Genre(ref, genreId, name, [])
  }

  /** `new Genre(name)`: the identity number keeps Java's default 0. */
  function NewNamedGenre(ref: ObjId, name: JString): (g: Genre)
    ensures Ref(g) == ref && g.genreId == 0 && GetGenreName(g) == name
    ensures GetBooks(g) == []
  {
    Genre(ref, 0, name, [])
  }

  /** `addBook` as written: the book is appended only when it is ALREADY in
      the list, so the set of associated books never grows. */
  function AddBook(g: Genre, book: ObjId): (r: Genre)
    ensures IdentityList.Contains(g.books, BookRef, book) ==> r.books == g.books + [book]
    ensures !IdentityList.Contains(g.books, BookRef, book) ==> r.books == g.books
    ensures r.ref == g.ref && r.genreId == g.genreId && r.name == g.name
  {
    if IdentityList.Contains(g.books, BookRef, book) then g.(books := g.books + [book]) else g
  }

  /** `addBook` as its documentation describes it: associate the book unless it
      already is. */
  function AddBookIntended(g: Genre, book: ObjId): (r: Genre)
    ensures r.ref == g.ref && r.genreId == g.genreId && r.name == g.name
  {
    g.(books := IdentityList.AddIfAbsent(g.books, BookRef, book))
  }

  /** `removeBook`: drops the first occurrence of the book; a no-op when absent. */
  function RemoveBook(g: Genre, book: ObjId): (r: Genre)
    ensures r.books == IdentityList.RemoveFirst(g.books, BookRef, book)
    ensures r.ref == g.ref && r.genreId == g.genreId && r.name == g.name
  {
    g.(books := IdentityList.RemoveFirst(g.books, BookRef, book))
  }

  /** `getBooks`: a copy of the list (a value here, so the copy is the list). */
  function GetBooks(g: Genre): seq<ObjId> {
    g.books
  }

  function GetGenreName(g: Genre): JString {
    g.name
  }

  /** The mutators of the public API. */
  datatype GenreOp = AddBookOp(book: ObjId) | RemoveBookOp(book: ObjId)

  function Apply(g: Genre, op: GenreOp): Genre {
    match op
    case AddBookOp(b) => AddBook(g, b)
    case RemoveBookOp(b) => RemoveBook(g, b)
  }

  function ApplyAll(g: Genre, ops: seq<GenreOp>): Genre
    decreases |ops|
  {
    if |ops| == 0 then g else ApplyAll(Apply(g, ops[0]), ops[1..])
  }

  /** The name is final: whatever is done to a genre, `getGenreName` returns
      the name it was constructed with. */
  lemma {:induction false} NameIsFinal(g: Genre, ops: seq<GenreOp>)
    ensures GetGenreName(ApplyAll(g, ops)) == GetGenreName(g)
    ensures ApplyAll(g, ops).genreId == g.genreId && Ref(ApplyAll(g, ops)) == Ref(g)
    decreases |ops|
  {
    if |ops| > 0 {
      NameIsFinal(Apply(g, ops[0]), ops[1..]);
    }
  }

  /** Consequence of the inverted test in `addBook`: a genre constructed with an
      empty book list keeps it empty whatever is added or removed. */
  lemma {:induction false} BooksStayEmpty(g: Genre, ops: seq<GenreOp>)
    requires GetBooks(g) == []
    ensures GetBooks(ApplyAll(g, ops)) == []
    decreases |ops|
  {
    if |ops| > 0 {
      var g' := Apply(g, ops[0]);
      assert !IdentityList.Contains(g.books, BookRef, ops[0].book);
      BooksStayEmpty(g', ops[1..]);
    }
  }

  /** The counterexample to `addBook`'s documented purpose: adding a book to a
      freshly constructed genre leaves it without that book. */
  lemma AddBookDropsNewBook(ref: ObjId, name: JString, book: ObjId)
    ensures !IdentityList.Contains(GetBooks(AddBook(NewNamedGenre(ref, name), book)), BookRef, book)
  {
  }

  /** The corrected `addBook` associates the book, adds it at most once, and
      keeps a duplicate-free list duplicate-free. */
  lemma AddBookIntendedAssociates(g: Genre, book: ObjId)
    ensures IdentityList.Contains(GetBooks(AddBookIntended(g, book)), BookRef, book)
    ensures IdentityList.Distinct(g.books, BookRef) ==>
      IdentityList.Distinct(GetBooks(AddBookIntended(g, book)), BookRef)
    ensures IdentityList.Contains(g.books, BookRef, book) ==> GetBooks(AddBookIntended(g, book)) == g.books
  {
    if IdentityList.Distinct(g.books, BookRef) {
      IdentityList.AddIfAbsentKeepsDistinct(g.books, BookRef, book);
    }
  }

  /** `removeBook` undoes the corrected `addBook` of a book that was not associated. */
  lemma RemoveUndoesIntendedAdd(g: Genre, book: ObjId)
    requires !IdentityList.Contains(g.books, BookRef, book)
    ensures GetBooks(RemoveBook(AddBookIntended(g, book), book)) == GetBooks(g)
  {
    IdentityList.RemoveUndoesAdd(g.books, BookRef, book);
  }
}
