/** The `Author` entity: an identity number, a name and a birth date. */
module Authors {
  import opened Wrappers
  import opened Lang

  /** An `Author` object. `books` is declared but never assigned by either
      constructor, so it stays null (`None`) for the object's whole life. */
  datatype Author = Author(
    ref: ObjId,
    authorId: int32,
    name: JString,
    birthDate: Option<LocalDate>,
    books: Option<seq<ObjId>>)

  /** The identity of an author, as `List.contains` sees it. */
  function Ref(a: Author): ObjId {
    a.ref
  }

  /** `new Author(authorId, name, birthDate)`, allocated at identity `ref`. */
  function NewAuthor(ref: ObjId, authorId: int32, name: JString, birthDate: Option<LocalDate>): (a: Author)
    ensures Ref(a) == ref && GetAuthorId(a) == authorId
    ensures a.name == name && a.birthDate == birthDate
    ensures GetBooks(a).Failure?
  {
    Author(ref, authorId, name, birthDate, None)
  }

  /** `new Author(name, birthDate)`: the identity number keeps Java's default 0. */
  function NewUnnumberedAuthor(ref: ObjId, name: JString, birthDate: Option<LocalDate>): (a: Author)
    ensures Ref(a) == ref && GetAuthorId(a) == 0
    ensures a.name == name && a.birthDate == birthDate
    ensures GetBooks(a).Failure?
  {
    Author(ref, 0, name, birthDate, None)
  }

  /** `setName`: only the name changes. */
  function SetName(a: Author, name: JString): (r: Author)
    ensures r.name == name
    ensures r.ref == a.ref && r.authorId == a.authorId && r.birthDate == a.birthDate && r.books == a.books
  {
    a.(name := name)
  }

  /** `setBirthDate`: only the birth date changes. */
  function SetBirthDate(a: Author, birthDate: Option<LocalDate>): (r: Author)
    ensures r.birthDate == birthDate
    ensures r.ref == a.ref && r.authorId == a.authorId && r.name == a.name && r.books == a.books
  {
    a.(birthDate := birthDate)
  }

  function GetAuthorId(a: Author): int32 {
    a.authorId
  }

  /** `getBooks`: `new ArrayList<>(books)` throws when `books` is null. */
  function GetBooks(a: Author): (r: Result<seq<ObjId>, Error>)
    ensures a.books.None? ==> r == Failure(NullPointer("books"))
    ensures a.books.Some? ==> r == Success(a.books.value)
  {
    match a.books
    case None => Failure(NullPointer("books"))
    case Some(bs) => Success(bs)
  }

  /** The mutators of the public API. */
  datatype AuthorOp = SetNameOp(name: JString) | SetBirthDateOp(birthDate: Option<LocalDate>)

  function Apply(a: Author, op: AuthorOp): Author {
    match op
    case SetNameOp(n) => SetName(a, n)
    case SetBirthDateOp(d) => SetBirthDate(a, d)
  }

  function ApplyAll(a: Author, ops: seq<AuthorOp>): Author
    decreases |ops|
  {
    if |ops| == 0 then a else ApplyAll(Apply(a, ops[0]), ops[1..])
  }

  /** However an author is constructed and then mutated, `getBooks` fails and
      the identity and identity number never change. */
  lemma {:induction false} GetBooksAlwaysFails(
    ref: ObjId, authorId: int32, numbered: bool, name: JString, birthDate: Option<LocalDate>, ops: seq<AuthorOp>)
    ensures
      var a := if numbered then NewAuthor(ref, authorId, name, birthDate)
               else NewUnnumberedAuthor(ref, name, birthDate);
      var r := ApplyAll(a, ops);
      GetBooks(r) == Failure(NullPointer("books")) && Ref(r) == ref && GetAuthorId(r) == GetAuthorId(a)
  {
    var a := if numbered then NewAuthor(ref, authorId, name, birthDate)
             else NewUnnumberedAuthor(ref, name, birthDate);
    MutatorsKeepBooksAndId(a, ops);
  }

  lemma {:induction false} MutatorsKeepBooksAndId(a: Author, ops: seq<AuthorOp>)
    ensures ApplyAll(a, ops).books == a.books
    ensures ApplyAll(a, ops).ref == a.ref && ApplyAll(a, ops).authorId == a.authorId
    decreases |ops|
  {
    if |ops| > 0 {
      MutatorsKeepBooksAndId(Apply(a, ops[0]), ops[1..]);
    }
  }
}
