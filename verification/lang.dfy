/** The handful of Java platform notions the catalogue relies on: 32-bit `int`,
    nullable `String` references, object identity, dates, and the errors that
    surface to callers of the data-access layer. */
module Lang {
  import opened Wrappers

  const INT32_MIN: int := -0x8000_0000
  const INT32_MAX: int := 0x7fff_ffff

  /** Java `int`. */
  type int32 = x: int | INT32_MIN <= x <= INT32_MAX

  /** The identity of a Java object: what `==`, `List.contains` and `List.remove`
      compare for classes that do not override `equals`. Allocation of a new
      object is modelled by the caller supplying a fresh identity. */
  type ObjId = nat

  /** A Java `String` reference, which may be null (`None`). */
  type JString = Option<string>

  /** `java.time.LocalDate`, kept opaque: only equality is used. */
  datatype LocalDate = LocalDate(epochDay: int)

  /** `java.util.Date`, the driver's representation of a BSON date-time. */
  datatype Instant = Instant(millis: int)

  /** `String.valueOf` on a possibly-null string: a null reference prints as "null". */
  function Show(s: JString): (r: string)
    ensures s.Some? ==> r == s.value
    ensures s.None? ==> r == "null"
  {
    match s
    case Some(v) => v
    case None => "null"
  }

  /** Every failure a caller of the data-access layer can observe.
      `NotConnected`, `NoBookFound`, `RatingNotUpdated` and `InvalidRatingFormat`
      carry the messages of the `BooksDbException`s the gateway throws;
      `ClientClosed` is the unchecked `IllegalStateException` the driver raises
      on a closed client; the last two are the unchecked exceptions raised while
      mapping a malformed record. */
  datatype Error =
    | NotConnected                      // "Not connected to the database"
    | ClientClosed                      // the driver refuses work on a closed client
    | NoBookFound(isbn: JString)        // "No book found with ISBN: ..."
    | RatingNotUpdated(isbn: JString)   // "Book rating not updated for ISBN: ..."
    | InvalidRatingFormat(text: string) // "Invalid rating format: ..."
    | ClassCast(field: string)          // a field holds a value of the wrong type
    | NullPointer(field: string)        // a null reference is dereferenced
}
