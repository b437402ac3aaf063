/** The document model of the store: BSON values, string-keyed documents, the
    typed field accessors of `org.bson.Document`, and the filters the gateway
    builds (equality, case-insensitive literal regex, element match). */
module Bson {
  import opened Wrappers
  import opened Lang
  import Text

  /** A BSON value as the driver decodes it. Values the catalogue never writes
      (doubles, 64-bit integers, booleans, object ids, ...) are `Other`. */
  datatype Value =
    | Null
    | Str(s: string)
    | Int32(i: int32)
    | Date(t: Instant)
    | Array(items: seq<Value>)
    | Doc(fields: map<string, Value>)
    | Other(kind: string)

  type Document = map<string, Value>

  /** A nullable Java string as a BSON value. */
  function OfString(s: JString): (v: Value)
    ensures v.Null? <==> s.None?
    ensures s.Some? ==> v == Str(s.value)
  {
    match s
    case None => Null
    case Some(x) => Str(x)
  }

  /** The field holds nothing: absent or explicitly null. Java's `Document.get`
      returns null in both cases. */
  predicate IsNullField(d: Document, key: string) {
    key !in d || d[key].Null?
  }

  /** `getString(key)`: null for a missing or null field, the string for a string,
      `ClassCastException` for anything else. */
  function GetString(d: Document, key: string): (r: Result<JString, Error>)
    ensures r.Success? <==> IsNullField(d, key) || d[key].Str?
    ensures r.Success? ==> (r.value.None? <==> IsNullField(d, key))
    ensures r.Success? && r.value.Some? ==> d[key] == Str(r.value.value)
    ensures r.Failure? ==> r.error == ClassCast(key)
  {
    if IsNullField(d, key) then Success(None)
    else if d[key].Str? then Success(Some(d[key].s))
    else Failure(ClassCast(key))
  }

  /** `getDate(key)`: as `getString`, for date-times. */
  function GetDate(d: Document, key: string): (r: Result<Option<Instant>, Error>)
    ensures r.Success? <==> IsNullField(d, key) || d[key].Date?
    ensures r.Success? ==> (r.value.None? <==> IsNullField(d, key))
    ensures r.Success? && r.value.Some? ==> d[key] == Date(r.value.value)
    ensures r.Failure? ==> r.error == ClassCast(key)
  {
    if IsNullField(d, key) then Success(None)
    else if d[key].Date? then Success(Some(d[key].t))
    else Failure(ClassCast(key))
  }

  /** `getInteger(key, default)`: the default for a missing or null field, the
      value for a 32-bit integer, `ClassCastException` for anything else. */
  function GetInteger(d: Document, key: string, default: int32): (r: Result<int32, Error>)
    ensures r.Success? <==> IsNullField(d, key) || d[key].Int32?
    ensures r.Success? && IsNullField(d, key) ==> r.value == default
    ensures r.Success? && !IsNullField(d, key) ==> d[key] == Int32(r.value)
    ensures r.Failure? ==> r.error == ClassCast(key)
  {
    if IsNullField(d, key) then Success(default)
    else if d[key].Int32? then Success(d[key].i)
    else Failure(ClassCast(key))
  }

  /** `Filters.eq(key, v)`: the field equals `v`, or is an array holding `v`;
      a null `v` also matches a document lacking the field. */
  predicate EqMatches(d: Document, key: string, v: Value) {
    if key in d then d[key] == v || (d[key].Array? && v in d[key].items)
    else v.Null?
  }

  /** A case-insensitive regular expression made of the literal `term` matches
      the value: a string containing it, or an array with such a string. */
  predicate RegexMatches(v: Value, term: string) {
    match v
    case Str(s) => Text.ContainsIgnoreCase(s, term)
    case Array(items) => exists i | 0 <= i < |items| :: StrContains(items[i], term)
    case _ => false
  }

  predicate StrContains(v: Value, term: string) {
    v.Str? && Text.ContainsIgnoreCase(v.s, term)
  }

  /** `Filters.regex(key, term, "i")`. */
  predicate RegexFieldMatches(d: Document, key: string, term: string) {
    key in d && RegexMatches(d[key], term)
  }

  /** `Filters.elemMatch(key, Filters.regex(sub, term, CASE_INSENSITIVE))`: the
      field is an array with some embedded document whose `sub` matches. */
  predicate ElemMatches(d: Document, key: string, sub: string, term: string) {
    key in d && d[key].Array? &&
    exists i | 0 <= i < |d[key].items| :: SubDocMatches(d[key].items[i], sub, term)
  }

  predicate SubDocMatches(v: Value, sub: string, term: string) {
    v.Doc? && sub in v.fields && RegexMatches(v.fields[sub], term)
  }
}
