/** `Integer.parseInt(text)` with radix 10, which turns the rating a user typed
    into a Java `int` or throws `NumberFormatException`. */
module IntParse {
  import opened Wrappers
  import opened Lang

  predicate IsDigit(c: char) {
    '0' <= c <= '9'
  }

  function DigitValue(c: char): nat
    requires IsDigit(c)
  {
    c as int - '0' as int
  }

  predicate AllDigits(s: string) {
    forall i | 0 <= i < |s| :: IsDigit(s[i])
  }

  /** The number a non-empty or empty string of decimal digits denotes. */
  function DecimalValue(s: string): nat
    requires AllDigits(s)
    decreases |s|
  {
    if |s| == 0 then 0 else DecimalValue(s[..|s| - 1]) * 10 + DigitValue(s[|s| - 1])
  }

  /** The accepted grammar: an optional '+' or '-' followed by at least one
      decimal digit, denoting a value inside the 32-bit range. `None` is the
      `NumberFormatException`. */
  function ParseInt(s: string): (r: Option<int32>)
  {
    var negative := |s| > 0 && s[0] == '-';
    var digits := if |s| > 0 && (s[0] == '-' || s[0] == '+') then s[1..] else s;
    if |digits| == 0 || !AllDigits(digits) then None
    else
      var v := if negative then -(DecimalValue(digits) as int) else DecimalValue(digits);
      if INT32_MIN <= v <= INT32_MAX then Some(v) else None
  }

  /** Java's `/` on `int`, which truncates toward zero (divisor positive). */
  function JavaDiv(a: int, b: int): int
    requires b > 0
  {
    if a >= 0 then a / b else -((-a) / b)
  }

  /** A prefix of a digit string never denotes more than the whole string. */
  lemma {:induction false} PrefixValueBound(t: string, k: nat)
    requires AllDigits(t) && k <= |t|
    ensures DecimalValue(t[..k]) <= DecimalValue(t)
    decreases |t|
  {
    if k < |t| {
      var u := t[..|t| - 1];
      assert u[..k] == t[..k];
      PrefixValueBound(u, k);
    } else {
      assert t[..k] == t;
    }
  }

  /** The algorithm of `Integer.parseInt`: accumulate the negated value so that
      `Integer.MIN_VALUE` is reachable, and reject before any step would leave
      the 32-bit range. It agrees with the grammar above on every input. */
  method ParseIntJdk(s: string) returns (r: Option<int32>)
    ensures r == ParseInt(s)
  {
    var len := |s|;
    if len == 0 {
      return None;
    }
    var i := 0;
    var negative := false;
    var limit := -INT32_MAX;
    var first := s[0];
    if first < '0' {  // possible leading "+" or "-"
      if first == '-' {
        negative := true;
        limit := INT32_MIN;
      } else if first != '+' {
        return None;
      }
      if len == 1 {  // a lone "+" or "-"
        return None;
      }
      i := 1;
    }
    ghost var digits := s[i..];
    assert digits == if s[0] == '-' || s[0] == '+' then s[1..] else s;
    var multmin := JavaDiv(limit, 10);
    assert multmin == -214748364;
    var result := 0;
    ghost var start := i;
    while i < len
      invariant start <= i <= len
      invariant s[start..] == digits && |digits| > 0
      invariant AllDigits(s[start..i])
      invariant result == -(DecimalValue(s[start..i]) as int)
      invariant limit <= result <= 0
    {
      var c := s[i];
      if !IsDigit(c) {
        assert !IsDigit(digits[i - start]);
        return None;
      }
      ghost var read := s[start..i + 1];
      assert read[..|read| - 1] == s[start..i];
      assert forall k | 0 <= k < |read| - 1 :: read[k] == s[start..i][k];
      assert read[|read| - 1] == c;
      if result < multmin {
        // the value read so far is at least 214748365, so with one more digit
        // the whole number exceeds 2147483648
        if AllDigits(digits) {
          PrefixValueBound(digits, |read|);
          assert digits[..|read|] == read;
        }
        return None;
      }
      assert INT32_MIN <= result * 10;  // no overflow in Java
      result := result * 10;
      var digit := DigitValue(c);
      if result < limit + digit {
        if AllDigits(digits) {
          PrefixValueBound(digits, |read|);
          assert digits[..|read|] == read;
        }
        return None;
      }
      result := result - digit;
      i := i + 1;
    }
    assert s[start..i] == digits;
    r := Some(if negative then result else -result);
  }

  /** `Integer.toString` of a non-negative value: its decimal digits, no leading zeros. */
  function ToDecimal(n: nat): (s: string)
    ensures |s| > 0 && AllDigits(s)
    decreases n
  {
    var d := ['0' + (n % 10) as char];
    if n < 10 then d else ToDecimal(n / 10) + d
  }

  /** Decimal digits denote the number they were rendered from. */
  lemma {:induction false} ToDecimalValue(n: nat)
    ensures DecimalValue(ToDecimal(n)) == n
    decreases n
  {
    var s := ToDecimal(n);
    if n >= 10 {
      ToDecimalValue(n / 10);
      assert s[..|s| - 1] == ToDecimal(n / 10);
    }
  }

  /** `Integer.toString(v)`. */
  function ToText(v: int32): string {
    if v < 0 then "-" + ToDecimal(-(v as int)) else ToDecimal(v)
  }

  /** Parsing inverts rendering: every `int` typed as Java prints it is read back. */
  lemma ParseIntInvertsToText(v: int32)
    ensures ParseInt(ToText(v)) == Some(v)
  {
    var s := ToText(v);
    if v < 0 {
      ToDecimalValue(-(v as int));
      assert s[1..] == ToDecimal(-(v as int));
    } else {
      ToDecimalValue(v);
      assert s[0] != '-' && s[0] != '+';
    }
  }

  /** The edges of the grammar: a sign needs digits after it, a decimal point
      or surrounding blanks are rejected, and a leading '+' is accepted. */
  lemma ParseIntEdgeCases()
    ensures ParseInt("") == None && ParseInt("-") == None && ParseInt("+") == None
    ensures ParseInt("4.5") == None && ParseInt(" 4") == None && ParseInt("four") == None
    ensures ParseInt("+5") == Some(5) && ParseInt("-07") == Some(-7)
  {
    assert "+5"[1..] == "5" && "5"[..0] == "";
    assert "-07"[1..] == "07" && "07"[..1] == "0" && "0"[..0] == "";
    assert !IsDigit("4.5"[1]) && !IsDigit(" 4"[0]) && !IsDigit("four"[0]);
  }

  /** The 32-bit bounds: `Integer.MAX_VALUE` and `Integer.MIN_VALUE` are read,
      one past `Integer.MAX_VALUE` is rejected. */
  lemma ParseIntRangeEdges()
    ensures ParseInt("2147483647") == Some(INT32_MAX)
    ensures ParseInt("-2147483648") == Some(INT32_MIN)
    ensures ParseInt("2147483648") == None
  {
    assert ToDecimal(2) == "2";
    assert ToDecimal(21) == "21";
    assert ToDecimal(214) == "214";
    assert ToDecimal(2147) == "2147";
    assert ToDecimal(21474) == "21474";
    assert ToDecimal(214748) == "214748";
    assert ToDecimal(2147483) == "2147483";
    assert ToDecimal(21474836) == "21474836";
    assert ToDecimal(214748364) == "214748364";
    assert ToDecimal(2147483647) == "2147483647";
    assert ToDecimal(2147483648) == "2147483648";
    ParseIntInvertsToText(INT32_MAX);
    ParseIntInvertsToText(INT32_MIN);
    assert "-2147483648"[1..] == "2147483648";
    ToDecimalValue(2147483648);
  }
}
