/**
 * Models of the JavaScript built-ins the site relies on: the string methods
 * `startsWith`, `includes`, `indexOf`, `replace` (string pattern), `trim`,
 * `split(sep).pop()`, the global `parseInt` and `Number.prototype.toString`,
 * and the array methods `filter` and `findIndex`.
 */
module JsBuiltins {

  datatype Option<+T> = None | Some(value: T)

  // ---------------------------------------------------------------------------
  // Strings
  // ---------------------------------------------------------------------------

  /** `s.startsWith(prefix)` */
  predicate StartsWith(s: string, prefix: string) {
    |prefix| <= |s| && s[..|prefix|] == prefix
  }

  /** `sub` occurs in `s` starting at position `i`. */
  predicate OccursAt(s: string, sub: string, i: int) {
    0 <= i && i + |sub| <= |s| && s[i..i + |sub|] == sub
  }

  /** `s.indexOf(sub, from)`: the first position at or after `from` where `sub` occurs, or -1. */
  function IndexOfFrom(s: string, sub: string, from: nat): (r: int)
    decreases |s| - from
    ensures r == -1 || (from <= r && OccursAt(s, sub, r))
    ensures r == -1 ==> forall j :: from <= j ==> !OccursAt(s, sub, j)
    ensures r != -1 ==> forall j :: from <= j < r ==> !OccursAt(s, sub, j)
  {
    if from + |sub| > |s| then -1
    else if s[from..from + |sub|] == sub then from
    else IndexOfFrom(s, sub, from + 1)
  }

  /** `s.indexOf(sub)` */
  function IndexOf(s: string, sub: string): int {
    IndexOfFrom(s, sub, 0)
  }

  /** `s.includes(sub)` */
  predicate Includes(s: string, sub: string) {
    IndexOf(s, sub) != -1
  }

  lemma IncludesIffOccurs(s: string, sub: string)
    ensures Includes(s, sub) <==> exists i :: OccursAt(s, sub, i)
  {
  }

  /** `s.replace(pattern, replacement)` with a string pattern: only the FIRST occurrence is replaced. */
  function ReplaceFirst(s: string, pattern: string, replacement: string): (r: string)
    ensures !Includes(s, pattern) ==> r == s
  {
    var i := IndexOf(s, pattern);
    if i == -1 then s else s[..i] + replacement + s[i + |pattern|..]
  }

  /** Replacing the first occurrence of a pattern that the string starts with strips that prefix. */
  lemma ReplaceFirstOfPrefix(pattern: string, rest: string, replacement: string)
    ensures ReplaceFirst(pattern + rest, pattern, replacement) == replacement + rest
  {
    var s := pattern + rest;
    assert s[..|pattern|] == pattern;
    assert OccursAt(s, pattern, 0);
    var i := IndexOf(s, pattern);
    assert i == 0;
    assert s[..0] == [];
    assert s[|pattern|..] == rest;
  }

  /** The characters `String.prototype.trim` removes, restricted to ASCII whitespace. */
  predicate IsWhitespace(c: char) {
    c == ' ' || c == '\t' || c == '\n' || c == '\r' || c == '\U{000B}' || c == '\U{000C}'
  }

  /** `s.trim()` */
  function Trim(s: string): (r: string)
    ensures r == [] <==> forall i :: 0 <= i < |s| ==> IsWhitespace(s[i])
    ensures r != [] ==> !IsWhitespace(r[0]) && !IsWhitespace(r[|r| - 1])
  {
    TrimEnd(TrimStart(s))
  }

  function TrimStart(s: string): (r: string)
    ensures r == [] <==> forall i :: 0 <= i < |s| ==> IsWhitespace(s[i])
    ensures r != [] ==> !IsWhitespace(r[0])
  {
    if s == [] then []
    else if IsWhitespace(s[0]) then TrimStart(s[1..])
    else s
  }

  function TrimEnd(s: string): (r: string)
    ensures r == [] <==> forall i :: 0 <= i < |s| ==> IsWhitespace(s[i])
    ensures r != [] ==> r[0] == s[0] && !IsWhitespace(r[|r| - 1])
  {
    if s == [] then []
    else if IsWhitespace(s[|s| - 1]) then TrimEnd(s[..|s| - 1])
    else s
  }

  /** `s.split(sep).pop()`: the text after the last `sep`, or all of `s` when it has none. */
  function LastSegment(s: string, sep: char): (r: string)
    ensures sep !in r
    ensures |r| <= |s| && r == s[|s| - |r|..]
    ensures |r| < |s| ==> s[|s| - |r| - 1] == sep
  {
    if s == [] then []
    else if s[|s| - 1] == sep then []
    else LastSegment(s[..|s| - 1], sep) + [s[|s| - 1]]
  }

  /** The segment after a separator that the rest does not contain is that rest. */
  lemma {:induction false} LastSegmentAfter(prefix: string, sep: char, rest: string)
    requires sep !in rest
    ensures LastSegment(prefix + [sep] + rest, sep) == rest
  {
    if rest == [] {
      assert prefix + [sep] + rest == prefix + [sep];
    } else {
      var s := prefix + [sep] + rest;
      var last := rest[|rest| - 1];
      assert s[..|s| - 1] == prefix + [sep] + rest[..|rest| - 1];
      LastSegmentAfter(prefix, sep, rest[..|rest| - 1]);
      assert rest == rest[..|rest| - 1] + [last];
    }
  }

  // ---------------------------------------------------------------------------
  // Numbers
  // ---------------------------------------------------------------------------

  predicate IsDigit(c: char) {
    '0' <= c <= '9'
  }

  function DigitValue(c: char): nat
    requires IsDigit(c)
  {
    (c as int) - ('0' as int)
  }

  function DigitChar(d: nat): (c: char)
    requires d < 10
    ensures IsDigit(c) && DigitValue(c) == d
  {
    ((d + '0' as int) as char)
  }

  /** Length of the longest prefix of `s` made of decimal digits. */
  function DigitPrefixLength(s: string): (n: nat)
    ensures n <= |s|
    ensures forall i :: 0 <= i < n ==> IsDigit(s[i])
    ensures n < |s| ==> !IsDigit(s[n])
  {
    if s == [] || !IsDigit(s[0]) then 0 else 1 + DigitPrefixLength(s[1..])
  }

  /** The value of a string of decimal digits, read left to right. */
  function DigitsValue(s: string): nat
    requires forall i :: 0 <= i < |s| ==> IsDigit(s[i])
  {
    if s == [] then 0 else 10 * DigitsValue(s[..|s| - 1]) + DigitValue(s[|s| - 1])
  }

  function SkipWhitespace(s: string): (r: string)
    ensures |r| <= |s| && r == s[|s| - |r|..]
    ensures r != [] ==> !IsWhitespace(r[0])
  {
    if s != [] && IsWhitespace(s[0]) then SkipWhitespace(s[1..]) else s
  }

  /**
   * `parseInt(s)` with the default radix: leading whitespace is skipped, an
   * optional sign is read, then the longest run of decimal digits; with no
   * digit the result is NaN, written None here.
   */
  function ParseInt(s: string): (r: Option<int>)
  {
    var t := SkipWhitespace(s);
    if t != [] && t[0] == '-' then
      match ParseDigits(t[1..])
      case Some(v) => Some(-v)
      case None => None
    else if t != [] && t[0] == '+' then ParseDigits(t[1..])
    else ParseDigits(t)
  }

  /** The longest run of decimal digits at the start of `u`, read as a number; None when there is none. */
  function ParseDigits(u: string): (r: Option<int>)
    ensures r.Some? ==> r.value >= 0
  {
    var n := DigitPrefixLength(u);
    if n == 0 then None else Some(DigitsValue(u[..n]))
  }

  /** The decimal digits of a natural number, without leading zeros. */
  function NatToString(n: nat): (s: string)
    ensures s != [] && forall i :: 0 <= i < |s| ==> IsDigit(s[i])
    decreases n
  {
    if n < 10 then [DigitChar(n)] else NatToString(n / 10) + [DigitChar(n % 10)]
  }

  /** `n.toString()` for an integer `n`. */
  function IntToString(n: int): (s: string)
    ensures s != []
  {
    if n < 0 then "-" + NatToString(-n) else NatToString(n)
  }

  lemma {:induction false} NatToStringValue(n: nat)
    ensures DigitsValue(NatToString(n)) == n
    decreases n
  {
    if n >= 10 {
      var s := NatToString(n);
      assert s[..|s| - 1] == NatToString(n / 10);
      NatToStringValue(n / 10);
    }
  }

  lemma AllDigitsPrefix(s: string)
    requires forall i :: 0 <= i < |s| ==> IsDigit(s[i])
    ensures DigitPrefixLength(s) == |s|
  {
  }

  /** A non-empty run of digits is read whole. */
  lemma ParseAllDigits(u: string)
    requires u != [] && forall i :: 0 <= i < |u| ==> IsDigit(u[i])
    ensures ParseDigits(u) == Some(DigitsValue(u))
  {
    AllDigitsPrefix(u);
    assert u[..|u|] == u;
  }

  lemma ParseNatToString(m: nat)
    ensures ParseInt(NatToString(m)) == Some(m)
  {
    var digits := NatToString(m);
    ParseAllDigits(digits);
    NatToStringValue(m);
    assert !IsWhitespace(digits[0]) && digits[0] != '-' && digits[0] != '+';
  }

  lemma ParseNegatedNatToString(m: nat)
    ensures ParseInt("-" + NatToString(m)) == Some(-(m as int))
    ensures m > 0 ==> ParseInt(IntToString(-(m as int))) == Some(-(m as int))
  {
    var digits := NatToString(m);
    ParseAllDigits(digits);
    NatToStringValue(m);
    var s := "-" + digits;
    assert SkipWhitespace(s) == s by {
      assert !IsWhitespace(s[0]);
    }
    assert s[1..] == digits;
  }

  /** `Number.MAX_SAFE_INTEGER`, 2^53 - 1. */
  const MaxSafeInteger: int := 0x1F_FFFF_FFFF_FFFF

  /**
   * An integer a JavaScript number holds exactly and `toString` prints in
   * plain decimal (exponent form starts at 1e21, well above this bound).
   */
  predicate SafeInteger(n: int) {
    -MaxSafeInteger <= n <= MaxSafeInteger
  }

  /** Round trip: `parseInt(n.toString())` gives back `n` for a safe integer. */
  lemma ParseIntOfIntToString(n: int)
    requires SafeInteger(n)
    ensures ParseInt(IntToString(n)) == Some(n)
  {
    if n < 0 {
      ParseNegatedNatToString(-n);
    } else {
      ParseNatToString(n);
    }
  }

  // ---------------------------------------------------------------------------
  // Arrays
  // ---------------------------------------------------------------------------

  /** `s.filter(p)` */
  function Filter<T>(s: seq<T>, p: T -> bool): (r: seq<T>)
    ensures |r| <= |s|
    ensures forall i :: 0 <= i < |r| ==> p(r[i])
    ensures multiset(r) <= multiset(s)
  {
    if s == [] then []
    else
      assert s == [s[0]] + s[1..];
      if p(s[0]) then [s[0]] + Filter(s[1..], p) else Filter(s[1..], p)
  }

  /** An element is kept exactly when it is in the input and satisfies the predicate. */
  lemma {:induction false} FilterHas<T>(s: seq<T>, p: T -> bool, x: T)
    ensures x in Filter(s, p) <==> x in s && p(x)
  {
    if s != [] {
      FilterHas(s[1..], p, x);
      assert s == [s[0]] + s[1..];
    }
  }

  /** Filtering keeps the relative order: it distributes over concatenation. */
  lemma {:induction false} FilterConcat<T>(a: seq<T>, b: seq<T>, p: T -> bool)
    ensures Filter(a + b, p) == Filter(a, p) + Filter(b, p)
  {
    if a != [] {
      var ab := a + b;
      assert ab[0] == a[0] && ab[1..] == a[1..] + b;
      FilterConcat(a[1..], b, p);
      if p(a[0]) {
        assert Filter(ab, p) == [a[0]] + Filter(a[1..] + b, p);
        assert Filter(a, p) == [a[0]] + Filter(a[1..], p);
      } else {
        assert Filter(ab, p) == Filter(a[1..] + b, p);
        assert Filter(a, p) == Filter(a[1..], p);
      }
    } else {
      assert a + b == b;
    }
  }

  /** Filters with predicates that agree everywhere give the same result. */
  lemma {:induction false} FilterSame<T>(s: seq<T>, p: T -> bool, q: T -> bool)
    requires forall x :: p(x) == q(x)
    ensures Filter(s, p) == Filter(s, q)
  {
    if s != [] {
      FilterSame(s[1..], p, q);
    }
  }

  /** A filter every element passes keeps the whole input. */
  lemma {:induction false} FilterAll<T>(s: seq<T>, p: T -> bool)
    requires forall i :: 0 <= i < |s| ==> p(s[i])
    ensures Filter(s, p) == s
  {
    if s != [] {
      FilterAll(s[1..], p);
      assert s == [s[0]] + s[1..];
    }
  }

  /** The complement of a test. */
  function Not<T>(p: T -> bool): T -> bool {
    x => !p(x)
  }

  /** A filter and its complement split the input: every element lands in exactly one. */
  lemma {:induction false} FilterPartition<T>(s: seq<T>, p: T -> bool)
    ensures multiset(Filter(s, p)) + multiset(Filter(s, Not(p))) == multiset(s)
    ensures |Filter(s, p)| + |Filter(s, Not(p))| == |s|
  {
    if s != [] {
      FilterPartition(s[1..], p);
      assert s == [s[0]] + s[1..];
    }
  }

  /** `s.findIndex(p)` from position `from`: the first index satisfying `p`, or -1. */
  function FindIndexFrom<T>(s: seq<T>, p: T -> bool, from: nat): (r: int)
    decreases |s| - from
    ensures r == -1 || (from <= r < |s| && p(s[r]))
    ensures r == -1 ==> forall j :: from <= j < |s| ==> !p(s[j])
    ensures r != -1 ==> forall j :: from <= j < r ==> !p(s[j])
  {
    if from >= |s| then -1
    else if p(s[from]) then from
    else FindIndexFrom(s, p, from + 1)
  }

  /** `s.findIndex(p)` */
  function FindIndex<T>(s: seq<T>, p: T -> bool): int {
    FindIndexFrom(s, p, 0)
  }
}
