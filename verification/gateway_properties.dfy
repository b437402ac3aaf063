/** Properties that relate several gateway operations: what a search finds
    after an insert, deletion as the inverse of insertion, the effect and the
    no-change failure of a rating update, and the state left by `disconnect`. */
module GatewayProperties {
  import opened Wrappers
  import opened Lang
  import opened Bson
  import opened Books
  import opened Mapper
  import opened Gateway
  import Seqs
  import Text
  import IntParse

  /** After `addBook`, a search whose filter matches the written document
      succeeds when every stored document is readable; it finds one more book
      than before, and the last one reflects the new document. */
  lemma AddThenFind(s: Store, b: Book, p: Document -> bool, conv: DateConversion, next: ObjId)
    requires Live(s)
    requires forall j | 0 <= j < |s.books| :: Readable(s.books[j])
    requires b.published.Some? && p(BookToDocument(b, conv))
    ensures
      var r := Find(AddBook(s, b, conv), p, conv, next);
      && r.Success?
      && |r.value.0| == |Seqs.Filter(s.books, p)| + 1
      && Reflects(r.value.0[|r.value.0| - 1], BookToDocument(b, conv), conv)
  {
    var d := BookToDocument(b, conv);
    var t := AddBook(s, b, conv);
    BookRoundTrip(b, conv, next);
    assert t.books == s.books + [d];
    Seqs.FilterAppend(s.books, [d], p);
    assert Seqs.Filter([d], p) == [d];
    forall j | 0 <= j < |t.books| && p(t.books[j])
      ensures Readable(t.books[j])
    {
      if j < |s.books| { assert t.books[j] == s.books[j]; }
    }
  }

  /** After `addBook`, searching by a literal term contained in the book's isbn
      succeeds on a collection of readable documents, and the last book found
      is the one inserted, with its title, isbn, story line, rating and genres.
      When no earlier isbn contains the term it is the only book found. */
  lemma AddThenSearchByIsbn(s: Store, b: Book, term: string, conv: DateConversion, next: ObjId)
    requires Live(s)
    requires forall j | 0 <= j < |s.books| :: Readable(s.books[j])
    requires b.published.Some? && b.isbn.Some?
    requires Text.IsLiteral(term) && Text.ContainsIgnoreCase(b.isbn.value, term)
    ensures
      var r := SearchBooksByIsbn(AddBook(s, b, conv), term, conv, next);
      && r.Success? && |r.value.0| > 0
      && var c := r.value.0[|r.value.0| - 1];
         && c.isbn == b.isbn && c.title == b.title && c.storyLine == b.storyLine
         && GetRating(c) == GetRating(b) && GetGenresAsString(c) == GetGenresAsString(b)
    ensures (forall j | 0 <= j < |s.books| :: !FieldContains("isbn", term)(s.books[j])) ==>
      |SearchBooksByIsbn(AddBook(s, b, conv), term, conv, next).value.0| == 1
  {
    var p := FieldContains("isbn", term);
    assert p(BookToDocument(b, conv));
    AddThenFind(s, b, p, conv, next);
    var r := Find(AddBook(s, b, conv), p, conv, next);
    ReflectsWrittenBook(r.value.0[|r.value.0| - 1], b, conv);
    if forall j | 0 <= j < |s.books| :: !p(s.books[j]) {
      Seqs.FilterNoneIsEmpty(s.books, p);
    }
  }

  /** Deleting a book just added restores the collection when no document
      stored before had the same isbn. */
  lemma DeleteUndoesAdd(s: Store, b: Book, conv: DateConversion)
    requires Live(s)
    requires forall j | 0 <= j < |s.books| :: !IsbnIs(b.isbn)(s.books[j])
    ensures DeleteBook(AddBook(s, b, conv), b) == Success(s)
  {
    var t := AddBook(s, b, conv);
    var k := Seqs.FirstIndex(t.books, IsbnIs(b.isbn));
    assert IsbnIs(b.isbn)(t.books[|s.books|]);
    assert forall j | 0 <= j < |s.books| :: t.books[j] == s.books[j];
    assert k == |s.books|;
    assert Seqs.RemoveAt(t.books, k) == s.books;
  }

  /** A successful delete removes exactly one of the documents with that isbn
      and keeps all the others, in order. */
  lemma DeleteRemovesOneMatch(s: Store, b: Book)
    requires DeleteBook(s, b).Success?
    ensures
      var r := DeleteBook(s, b).value;
      && |Seqs.Filter(r.books, IsbnIs(b.isbn))| == |Seqs.Filter(s.books, IsbnIs(b.isbn))| - 1
      && Seqs.Filter(r.books, IsbnIsNot(b.isbn)) == Seqs.Filter(s.books, IsbnIsNot(b.isbn))
  {
    var r := DeleteBook(s, b).value;
    var k :| 0 <= k < |s.books| && IsbnIs(b.isbn)(s.books[k]) && r.books == s.books[..k] + s.books[k + 1..];
    assert r.books == Seqs.RemoveAt(s.books, k);
    Seqs.FilterRemoveAt(s.books, k, IsbnIs(b.isbn), IsbnIsNot(b.isbn));
  }

  /** `$set` of the rating changes only the rating of the book read back. */
  lemma SetRatingThenRead(d: Document, v: int32, conv: DateConversion, next: ObjId)
    requires Readable(d)
    ensures ReadBook(d["rating" := Int32(v)], conv, next).Success?
    ensures ReadBook(d["rating" := Int32(v)], conv, next).value.0 == SetRating(ReadBook(d, conv, next).value.0, v)
  {
    var d' := d["rating" := Int32(v)];
    assert forall k | k != "rating" :: (k in d <==> k in d') && (k in d ==> d[k] == d'[k]);
    assert GetString(d', "bookId") == GetString(d, "bookId");
    assert GetString(d', "title") == GetString(d, "title");
    assert GetString(d', "isbn") == GetString(d, "isbn");
    assert GetDate(d', "dateOfRelease") == GetDate(d, "dateOfRelease");
    assert GetString(d', "description") == GetString(d, "description");
  }

  /** Setting a 32-bit rating keeps a document readable. */
  lemma SetRatingKeepsReadable(d: Document, v: int32)
    requires Readable(d)
    ensures Readable(d["rating" := Int32(v)])
    ensures StringAt(d["rating" := Int32(v)], "isbn") == StringAt(d, "isbn")
    ensures RatingAt(d["rating" := Int32(v)]) == v
  {
    var d' := d["rating" := Int32(v)];
    assert forall k | k != "rating" :: (k in d <==> k in d') && (k in d ==> d[k] == d'[k]);
  }

  /** When every selected document is readable the search succeeds, and each
      selected document is read into one of the books found. */
  lemma FoundDocumentIsRead(t: Store, p: Document -> bool, k: nat, conv: DateConversion, next: ObjId)
    requires Live(t) && forall j | 0 <= j < |t.books| && p(t.books[j]) :: Readable(t.books[j])
    requires k < |t.books| && p(t.books[k])
    ensures Find(t, p, conv, next).Success?
    ensures exists i | 0 <= i < |Find(t, p, conv, next).value.0| ::
      Reflects(Find(t, p, conv, next).value.0[i], t.books[k], conv)
  {
    var hits := Seqs.Filter(t.books, p);
    assert t.books[k] in hits;
    var i :| 0 <= i < |hits| && hits[i] == t.books[k];
  }

  /** After a successful rating update, searching by the book's isbn finds a
      book carrying the new rating (on a collection of readable documents). */
  lemma UpdateThenSearchSeesRating(s: Store, b: Book, v: int32, conv: DateConversion, next: ObjId)
    requires UpdateBookRating(s, b, v).Success?
    requires forall j | 0 <= j < |s.books| :: Readable(s.books[j])
    requires b.isbn.Some? && Text.IsLiteral(b.isbn.value)
    ensures
      var r := SearchBooksByIsbn(UpdateBookRating(s, b, v).value, b.isbn.value, conv, next);
      r.Success? && exists i | 0 <= i < |r.value.0| :: r.value.0[i].isbn == b.isbn && GetRating(r.value.0[i]) == v
  {
    var t := UpdateBookRating(s, b, v).value;
    var k :| 0 <= k < |s.books| && IsbnIs(b.isbn)(s.books[k])
      && t.books[k] == s.books[k]["rating" := Int32(v)]
      && (forall j | 0 <= j < |s.books| && j != k :: t.books[j] == s.books[j]);
    var d := s.books[k];
    SetRatingKeepsReadable(d, v);
    assert d["isbn"] == Str(b.isbn.value);
    var p := FieldContains("isbn", b.isbn.value);
    assert Text.MatchesAt(b.isbn.value, b.isbn.value, 0);
    assert p(t.books[k]);
    assert forall j | 0 <= j < |t.books| :: Readable(t.books[j]);
    FoundDocumentIsRead(t, p, k, conv, next);
  }

  /** On a live gateway the first isbn match decides the outcome: it is updated
      unless its rating already equals the new one, which is "rating not updated". */
  lemma UpdateOutcomeOfFirstMatch(s: Store, b: Book, v: int32, k: nat)
    requires Live(s) && k < |s.books| && IsbnIs(b.isbn)(s.books[k])
    requires forall j | 0 <= j < k :: !IsbnIs(b.isbn)(s.books[j])
    ensures !AlreadyRated(s.books[k], v) ==> UpdateBookRating(s, b, v).Success?
    ensures AlreadyRated(s.books[k], v) ==> UpdateBookRating(s, b, v) == Failure(RatingNotUpdated(b.isbn))
  {
    var r := UpdateBookRating(s, b, v);
    if r.Success? {
      var k' :| 0 <= k' < |s.books| && IsbnIs(b.isbn)(s.books[k'])
        && (forall j | 0 <= j < k' :: !IsbnIs(b.isbn)(s.books[j])) && !AlreadyRated(s.books[k'], v);
      assert k' == k;
    } else if r == Failure(RatingNotUpdated(b.isbn)) {
      var k' :| 0 <= k' < |s.books| && IsbnIs(b.isbn)(s.books[k']) && AlreadyRated(s.books[k'], v)
        && (forall j | 0 <= j < k' :: !IsbnIs(b.isbn)(s.books[j]));
      assert k' == k;
    }
  }

  /** Lower-casing keeps a literal term literal: no metacharacter is a letter. */
  lemma LowerKeepsLiteral(term: string)
    requires Text.IsLiteral(term)
    ensures Text.IsLiteral(Text.LowerAll(term))
  {
    forall i | 0 <= i < |term|
      ensures Text.LowerAll(term)[i] !in Text.Metacharacters
    {
      assert term[i] !in Text.Metacharacters;
    }
  }

  /** The case-insensitive flag makes the case of the term irrelevant: a title
      search for a term and for its lower-cased form give the same outcome. */
  lemma TitleSearchIgnoresTermCase(s: Store, term: string, conv: DateConversion, next: ObjId)
    requires Text.IsLiteral(term)
    ensures Text.IsLiteral(Text.LowerAll(term))
    ensures SearchBooksByTitle(s, term, conv, next) == SearchBooksByTitle(s, Text.LowerAll(term), conv, next)
  {
    LowerKeepsLiteral(term);
    var p, q := FieldContains("title", term), FieldContains("title", Text.LowerAll(term));
    forall d: Document
      ensures p(d) == q(d)
    {
      if "title" in d {
        match d["title"]
        case Str(x) =>
          Text.CaseOfTermIsIrrelevant(x, term);
        case Array(items) =>
          forall i | 0 <= i < |items|
            ensures StrContains(items[i], term) == StrContains(items[i], Text.LowerAll(term))
          {
            if items[i].Str? {
              Text.CaseOfTermIsIrrelevant(items[i].s, term);
            }
          }
        case _ =>
      }
    }
    Seqs.FilterAgreeing(s.books, p, q);
  }

  /** The no-change flaw: repeating a successful rating update fails, because
      the matched document is then modified by nothing. */
  lemma RepeatedRatingUpdateFails(s: Store, b: Book, v: int32)
    requires UpdateBookRating(s, b, v).Success?
    ensures UpdateBookRating(UpdateBookRating(s, b, v).value, b, v) == Failure(RatingNotUpdated(b.isbn))
  {
    var t := UpdateBookRating(s, b, v).value;
    var k :| 0 <= k < |s.books| && IsbnIs(b.isbn)(s.books[k])
      && (forall j | 0 <= j < k :: !IsbnIs(b.isbn)(s.books[j]))
      && t.books[k] == s.books[k]["rating" := Int32(v)]
      && (forall j | 0 <= j < |s.books| && j != k :: t.books[j] == s.books[j]);
    assert "isbn" != "rating";
    assert IsbnIs(b.isbn)(t.books[k]);
    assert forall j | 0 <= j < k :: !IsbnIs(b.isbn)(t.books[j]);
    assert Seqs.FirstIndex(t.books, IsbnIs(b.isbn)) == k;
  }

  /** An author added through the gateway is listed last by `getAllAuthors`
      with its name and its birth date as the store's conversions return it;
      the listing succeeds exactly when it did before and the author has a
      birth date, and the earlier authors are listed as before. */
  lemma {:induction false} AddAuthorThenGetAllAuthors(s: Store, a: Authors.Author, conv: DateConversion, next: ObjId)
    requires Live(s)
    ensures Gateway.AddAuthor(s, a, conv).Success?
    ensures
      var t := Gateway.AddAuthor(s, a, conv).value;
      var before := GetAllAuthors(s, conv, next);
      var after := GetAllAuthors(t, conv, next);
      && (after.Success? <==> before.Success? && a.birthDate.Some?)
      && (after.Success? ==>
            && |after.value| == |before.value| + 1
            && (forall i | 0 <= i < |before.value| :: after.value[i] == before.value[i])
            && var last := after.value[|before.value|];
               && last.ref == next + |s.authors|
               && last.name == a.name
               && last.birthDate == Some(conv.toLocal(conv.toStore(a.birthDate.value))))
  {
    var t := Gateway.AddAuthor(s, a, conv).value;
    var n := |s.authors|;
    assert t.authors[n] == AuthorToDocument(a, conv);
    assert forall i | 0 <= i < n :: t.authors[i] == s.authors[i];
    Mapper.AuthorRoundTrip(a, conv, next + n);
    var after := ReadAuthors(t.authors, conv, next);
    var before := ReadAuthors(s.authors, conv, next);
    if after.Success? {
      assert forall i | 0 <= i < n :: ReadAuthor(s.authors[i], conv, next + i).Success? by {
        forall i | 0 <= i < n
          ensures ReadAuthor(s.authors[i], conv, next + i).Success?
        {
          assert ReadAuthor(t.authors[i], conv, next + i).Success?;
        }
      }
      assert ReadAuthor(t.authors[n], conv, next + n).Success?;
      forall i | 0 <= i < n
        ensures after.value[i] == before.value[i]
      {
        assert Success(after.value[i]) == ReadAuthor(t.authors[i], conv, next + i);
        assert Success(before.value[i]) == ReadAuthor(s.authors[i], conv, next + i);
      }
      assert Success(after.value[n]) == ReadAuthor(t.authors[n], conv, next + n);
    }
    if before.Success? && a.birthDate.Some? {
      assert forall i | 0 <= i < n + 1 :: ReadAuthor(t.authors[i], conv, next + i).Success? by {
        forall i | 0 <= i < n + 1
          ensures ReadAuthor(t.authors[i], conv, next + i).Success?
        {
          if i < n {
            assert ReadAuthor(s.authors[i], conv, next + i).Success?;
          }
        }
      }
    }
  }

  /** A stored book without a rating field reads back with rating 0, yet a
      search for rating "0" does not find it, whatever else the collection
      holds: the equality filter does not match a missing field. */
  lemma DefaultRatingIsNotSearchable(s: Store, d: Document, conv: DateConversion, next: ObjId)
    requires Live(s) && d in s.books
    requires Readable(d) && "rating" !in d
    ensures ReadBook(d, conv, next).Success? && GetRating(ReadBook(d, conv, next).value.0) == 0
    ensures d !in Seqs.Filter(s.books, RatingIs(0))
    ensures s.books == [d] ==> SearchBooksByRating(s, "0", conv, next) == Success(([], next))
  {
    assert IntParse.ParseInt("0") == Some(0) by {
      assert IntParse.DecimalValue("0") == 0 by {
        assert "0"[..0] == "";
      }
    }
    assert !RatingIs(0)(d);
    if s.books == [d] {
      assert Seqs.Filter(s.books, RatingIs(0)) == [];
    }
  }

  /** `disconnect` as written leaves the guard passing: every guarded
      operation then fails in the driver, never with "Not connected". */
  lemma DisconnectLeavesGuardPassing(s: Store, b: Book, a: Authors.Author, term: string, text: string, v: int32, conv: DateConversion, next: ObjId)
    ensures
      var t := Disconnect(Connect(s));
      && t.databaseBound
      && DeleteBook(t, b) == Failure(ClientClosed)
      && UpdateBookRating(t, b, v) == Failure(ClientClosed)
      && Gateway.AddAuthor(t, a, conv) == Failure(ClientClosed)
      && (Text.IsLiteral(term) ==>
            && SearchBooksByAuthor(t, term, conv, next) == Failure(ClientClosed)
            && SearchBooksByGenre(t, term, conv, next) == Failure(ClientClosed)
            && SearchBooksByTitle(t, term, conv, next) == Failure(ClientClosed)
            && SearchBooksByIsbn(t, term, conv, next) == Failure(ClientClosed))
      && (IntParse.ParseInt(text).Some? ==> SearchBooksByRating(t, text, conv, next) == Failure(ClientClosed))
  {
  }

  /** With the handles cleared, every guarded operation after `disconnect`
      fails with "Not connected", as the guard intends. */
  lemma IntendedDisconnectFailsNotConnected(s: Store, b: Book, a: Authors.Author, term: string, text: string, v: int32, conv: DateConversion, next: ObjId)
    ensures
      var t := DisconnectIntended(Connect(s));
      && DeleteBook(t, b) == Failure(NotConnected)
      && UpdateBookRating(t, b, v) == Failure(NotConnected)
      && Gateway.AddAuthor(t, a, conv) == Failure(NotConnected)
      && (Text.IsLiteral(term) ==>
            && SearchBooksByAuthor(t, term, conv, next) == Failure(NotConnected)
            && SearchBooksByGenre(t, term, conv, next) == Failure(NotConnected)
            && SearchBooksByTitle(t, term, conv, next) == Failure(NotConnected)
            && SearchBooksByIsbn(t, term, conv, next) == Failure(NotConnected))
      && SearchBooksByRating(t, text, conv, next) == Failure(NotConnected)
  {
  }
}
