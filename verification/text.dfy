/** String matching and joining as the catalogue uses them: case-insensitive
    substring search for literal search terms (ASCII case folding) and
    `Collectors.joining`. */
module Text {

  /** ASCII lower-casing of one character; every other character is its own fold. */
  function Lower(c: char): char {
    if 'A' <= c <= 'Z' then (c as int - 'A' as int + 'a' as int) as char else c
  }

  /** `s` with every character lower-cased. */
  function LowerAll(s: string): (r: string)
    ensures |r| == |s|
    ensures forall i | 0 <= i < |s| :: r[i] == Lower(s[i])
  {
    seq(|s|, i requires 0 <= i < |s| => Lower(s[i]))
  }

  /** Two strings of equal length that agree character by character up to case. */
  predicate EqualsIgnoreCase(a: string, b: string) {
    |a| == |b| && forall i | 0 <= i < |a| :: Lower(a[i]) == Lower(b[i])
  }

  /** `t` occurs in `s` at position `i`, up to case. */
  predicate MatchesAt(s: string, t: string, i: int) {
    0 <= i <= |s| - |t| && EqualsIgnoreCase(s[i..i + |t|], t)
  }

  /** The case-insensitive pattern `t`, without metacharacters, occurs somewhere in `s`. */
  predicate ContainsIgnoreCase(s: string, t: string) {
    exists i | 0 <= i <= |s| - |t| :: MatchesAt(s, t, i)
  }

  /** `t` occurs in `s` at position `i`, exactly. */
  predicate OccursAt(t: string, s: string, i: int) {
    0 <= i <= |s| - |t| && s[i..i + |t|] == t
  }

  /** Exact substring occurrence. */
  predicate IsSubstring(t: string, s: string) {
    exists i | 0 <= i <= |s| - |t| :: OccursAt(t, s, i)
  }

  /** Characters with a special meaning in a regular expression. */
  const Metacharacters: set<char> :=
    {'\\', '^', '$', '.', '|', '?', '*', '+', '(', ')', '[', ']', '{', '}'}

  /** A search term whose regular expression denotes itself. */
  predicate IsLiteral(t: string) {
    forall i | 0 <= i < |t| :: t[i] !in Metacharacters
  }

  /** Case-insensitive containment is exact containment after lower-casing both sides. */
  lemma {:induction false} ContainsIgnoreCaseIsLoweredContainment(s: string, t: string)
    ensures ContainsIgnoreCase(s, t) <==> IsSubstring(LowerAll(t), LowerAll(s))
  {
    var ls, lt := LowerAll(s), LowerAll(t);
    forall i | 0 <= i <= |s| - |t|
      ensures MatchesAt(s, t, i) <==> OccursAt(lt, ls, i)
    {
      var w := s[i..i + |t|];
      assert forall k | 0 <= k < |t| :: w[k] == s[i + k] && ls[i..i + |t|][k] == ls[i + k];
    }
    if ContainsIgnoreCase(s, t) {
      var i :| 0 <= i <= |s| - |t| && MatchesAt(s, t, i);
      assert OccursAt(lt, ls, i);
    }
    if IsSubstring(lt, ls) {
      var i :| 0 <= i <= |ls| - |lt| && OccursAt(lt, ls, i);
      assert MatchesAt(s, t, i);
    }
  }

  /** Searching is insensitive to the case of the term: a term and its lower-cased
      form find the same strings. */
  lemma CaseOfTermIsIrrelevant(s: string, t: string)
    ensures ContainsIgnoreCase(s, t) <==> ContainsIgnoreCase(s, LowerAll(t))
  {
    forall i | 0 <= i <= |s| - |t|
      ensures MatchesAt(s, t, i) <==> MatchesAt(s, LowerAll(t), i)
    {
      assert forall c :: Lower(Lower(c)) == Lower(c);
    }
  }

  /** `Collectors.joining(sep)`: the elements in order, separated by `sep`. */
  function Join(xs: seq<string>, sep: string): (r: string)
    ensures |xs| == 0 ==> r == ""
    ensures |xs| == 1 ==> r == xs[0]
    ensures |xs| > 0 ==> |r| == JoinedLength(xs) + (|xs| - 1) * |sep|
  {
    if |xs| == 0 then ""
    else if |xs| == 1 then xs[0]
    else xs[0] + sep + Join(xs[1..], sep)
  }

  /** The total length of the elements. */
  function JoinedLength(xs: seq<string>): nat {
    if |xs| == 0 then 0 else |xs[0]| + JoinedLength(xs[1..])
  }

  /** Joining one more element appends the separator and that element. */
  lemma {:induction false} JoinAppend(xs: seq<string>, x: string, sep: string)
    requires |xs| > 0
    ensures Join(xs + [x], sep) == Join(xs, sep) + sep + x
  {
    if |xs| == 1 {
      assert xs + [x] == [xs[0], x];
      assert [xs[0], x][1..] == [x];
    } else {
      assert (xs + [x])[1..] == xs[1..] + [x];
      JoinAppend(xs[1..], x, sep);
    }
  }
}
