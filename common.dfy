/**
 * Shared vocabulary of the model: optional values (the source's `null`),
 * results (the source's exceptions) and the handful of .NET string
 * operations the core relies on, stated over `seq<char>`.
 */
module Common {

  /** A reference or string that may be `null`. */
  datatype Option<+T> = None | Some(value: T) {
    function GetOr(default: T): T {
      match this
      case Some(v) => v
      case None => default
    }
  }

  /** The outcome of an operation that may throw. */
  datatype Result<+T, +E> = Ok(value: T) | Err(error: E)

  /** `char.IsWhiteSpace`: the Unicode white-space characters .NET recognises. */
  predicate IsWhiteSpace(c: char) {
    ('\U{0009}' <= c <= '\U{000D}') || c == ' ' || c == '\U{0085}' || c == '\U{00A0}'
    || c == '\U{1680}' || ('\U{2000}' <= c <= '\U{200A}') || c == '\U{2028}' || c == '\U{2029}'
    || c == '\U{202F}' || c == '\U{205F}' || c == '\U{3000}'
  }

  /** Every character of `s` is white space (true of the empty string). */
  predicate IsBlank(s: string) {
    forall i :: 0 <= i < |s| ==> IsWhiteSpace(s[i])
  }

  /** `string.IsNullOrWhiteSpace`. */
  predicate IsNullOrWhiteSpace(s: Option<string>) {
    s.None? || IsBlank(s.value)
  }

  /** `string.IsNullOrEmpty`. */
  predicate IsNullOrEmpty(s: Option<string>) {
    s.None? || s.value == []
  }

  /** `p` is a prefix of `s`. */
  predicate IsPrefix<T(==)>(p: seq<T>, s: seq<T>) {
    |p| <= |s| && s[..|p|] == p
  }

  /** A prefix of a prefix is a prefix, and what follows it splits at the middle one. */
  lemma PrefixChain<T>(a: seq<T>, b: seq<T>, c: seq<T>)
    requires IsPrefix(a, b) && IsPrefix(b, c)
    ensures IsPrefix(a, c) && c[|a|..] == b[|a|..] + c[|b|..]
  {
    assert c[..|a|] == c[..|b|][..|a|];
  }

  /** `p` is a suffix of `s`. */
  predicate IsSuffix(p: string, s: string) {
    |p| <= |s| && s[|s| - |p|..] == p
  }

  /** `s.Contains(p)` with ordinal comparison: some position of `s` starts `p`. */
  predicate ContainsStr(s: string, p: string)
    decreases |s|
  {
    IsPrefix(p, s) || (|s| > 0 && ContainsStr(s[1..], p))
  }

  /** `p` occurs in `s` starting at index `i`. */
  predicate OccursAt(s: string, p: string, i: int) {
    0 <= i && i + |p| <= |s| && s[i..i + |p|] == p
  }

  /** The recursive `ContainsStr` agrees with "occurs at some index". */
  lemma {:induction false} ContainsStrIffOccurs(s: string, p: string)
    ensures ContainsStr(s, p) <==> exists i :: OccursAt(s, p, i)
    decreases |s|
  {
    if exists i :: OccursAt(s, p, i) {
      var i :| OccursAt(s, p, i);
      if i == 0 {
        assert s[..|p|] == s[0..0 + |p|];
      } else {
        assert s[1..][i - 1..i - 1 + |p|] == s[i..i + |p|];
        assert OccursAt(s[1..], p, i - 1);
        ContainsStrIffOccurs(s[1..], p);
      }
    }
    if ContainsStr(s, p) {
      if IsPrefix(p, s) {
        assert OccursAt(s, p, 0);
      } else {
        ContainsStrIffOccurs(s[1..], p);
        var i :| OccursAt(s[1..], p, i);
        assert s[i + 1..i + 1 + |p|] == s[1..][i..i + |p|];
        assert OccursAt(s, p, i + 1);
      }
    }
  }

  /** A string contains every substring of any of its substrings. */
  lemma ContainsStrPrefixOfPattern(s: string, p: string, q: string)
    requires ContainsStr(s, p) && IsPrefix(q, p)
    ensures ContainsStr(s, q)
  {
    ContainsStrIffOccurs(s, p);
    var i :| OccursAt(s, p, i);
    assert s[i..i + |q|] == p[..|q|];
    assert OccursAt(s, q, i);
    ContainsStrIffOccurs(s, q);
  }

  /**
   * `s.Replace(pat, rep)`: every occurrence of `pat`, found left to right
   * without overlap, is replaced by `rep`.
   */
  function ReplaceAll(s: string, pat: string, rep: string): string
    requires |pat| > 0
    decreases |s|
  {
    if |s| < |pat| then s
    else if s[..|pat|] == pat then rep + ReplaceAll(s[|pat|..], pat, rep)
    else [s[0]] + ReplaceAll(s[1..], pat, rep)
  }

  /** Replacing a pattern that does not occur leaves the string unchanged. */
  lemma {:induction false} ReplaceAllAbsent(s: string, pat: string, rep: string)
    requires |pat| > 0 && !ContainsStr(s, pat)
    ensures ReplaceAll(s, pat, rep) == s
    decreases |s|
  {
    if |s| >= |pat| {
      ReplaceAllAbsent(s[1..], pat, rep);
      assert [s[0]] + s[1..] == s;
    }
  }

  /** The index of the first `c` in `s`. */
  function FirstIndexOf(s: string, c: char): (r: Option<nat>)
    ensures r.Some? ==> r.value < |s| && s[r.value] == c && forall j :: 0 <= j < r.value ==> s[j] != c
    ensures r.None? ==> forall j :: 0 <= j < |s| ==> s[j] != c
    decreases |s|
  {
    if s == [] then None
    else if s[0] == c then Some(0)
    else match FirstIndexOf(s[1..], c)
      case None => None
      case Some(k) => Some(k + 1)
  }

  /** LINQ `First`/`FirstOrDefault`: the index of the first element satisfying `p`. */
  function FirstWhere<T>(s: seq<T>, p: T -> bool): (r: Option<nat>)
    ensures r.Some? ==> r.value < |s| && p(s[r.value]) && forall j :: 0 <= j < r.value ==> !p(s[j])
    ensures r.None? ==> forall j :: 0 <= j < |s| ==> !p(s[j])
    decreases |s|
  {
    if s == [] then None
    else if p(s[0]) then Some(0)
    else match FirstWhere(s[1..], p)
      case None => None
      case Some(k) => Some(k + 1)
  }

  /** The upper-case form of an ASCII letter; every other character is kept. */
  function ToUpperChar(c: char): (u: char)
    ensures 'a' <= c <= 'z' ==> u as int == c as int - 32
    ensures !('a' <= c <= 'z') ==> u == c
  {
    if 'a' <= c <= 'z' then (c as int - 32) as char else c
  }

  /** `ToUpperInvariant`, restricted to the ASCII letters (see README). */
  function ToUpper(s: string): (u: string)
    ensures |u| == |s|
    ensures forall i :: 0 <= i < |s| ==> u[i] == ToUpperChar(s[i])
  {
    seq(|s|, i requires 0 <= i < |s| => ToUpperChar(s[i]))
  }

  /** `string.Equals(a, b, StringComparison.OrdinalIgnoreCase)`, ASCII case folding. */
  predicate EqualsIgnoreCase(a: string, b: string) {
    ToUpper(a) == ToUpper(b)
  }

  /** Upper-casing a string twice changes nothing more. */
  lemma ToUpperIdempotent(s: string)
    ensures ToUpper(ToUpper(s)) == ToUpper(s)
  {
  }

  /** Concatenation of a list of strings, in order. */
  function Concat(parts: seq<string>): (r: string)
    decreases |parts|
  {
    if parts == [] then [] else parts[0] + Concat(parts[1..])
  }

  lemma {:induction false} ConcatAppend(a: seq<string>, b: seq<string>)
    ensures Concat(a + b) == Concat(a) + Concat(b)
    decreases |a|
  {
    if a == [] {
      assert a + b == b;
    } else {
      assert (a + b)[1..] == a[1..] + b;
      ConcatAppend(a[1..], b);
    }
  }

  /** The elements of `s` in reverse order. */
  function Reverse<T>(s: seq<T>): (r: seq<T>)
    ensures |r| == |s|
    ensures forall i :: 0 <= i < |s| ==> r[i] == s[|s| - 1 - i]
    decreases |s|
  {
    if s == [] then [] else Reverse(s[1..]) + [s[0]]
  }

  /** C#'s integer `/`: the quotient truncated toward zero. */
  function Quot(a: int, b: int): int
    requires b != 0
  {
    if a >= 0 && b > 0 then a / b
    else if a >= 0 then -(a / -b)
    else if b > 0 then -(-a / b)
    else -a / -b
  }

  /** C#'s integer `%`: the remainder takes the sign of the dividend. */
  function Rem(a: int, b: int): int
    requires b != 0
  {
    a - Quot(a, b) * b
  }

  /**
   * Truncated division splits `a` into quotient and remainder, with the
   * remainder smaller than the divisor and of the dividend's sign; on
   * non-negative operands it is Dafny's own division.
   */
  lemma QuotRem(a: int, b: int)
    requires b != 0
    ensures a == Quot(a, b) * b + Rem(a, b)
    ensures a >= 0 ==> 0 <= Rem(a, b) && Rem(a, b) < (if b > 0 then b else -b)
    ensures a < 0 ==> 0 >= Rem(a, b) && Rem(a, b) > -(if b > 0 then b else -b)
    ensures a >= 0 && b > 0 ==> Quot(a, b) == a / b && Rem(a, b) == a % b
  {
    RemBounds(a, b);
    if a >= 0 && b > 0 {
      QuotOfNatural(a, b);
    }
  }

  /** The remainder is smaller than the divisor and takes the dividend's sign. */
  lemma RemBounds(a: int, b: int)
    requires b != 0
    ensures a >= 0 ==> 0 <= Rem(a, b) && Rem(a, b) < (if b > 0 then b else -b)
    ensures a < 0 ==> 0 >= Rem(a, b) && Rem(a, b) > -(if b > 0 then b else -b)
  {
    if a >= 0 && b > 0 {
      QuotOfNatural(a, b);
    } else if a >= 0 {
      RemByNegative(a, -b);
    } else {
      RemOfNegative(-a, b);
    }
  }

  /** On non-negative operands truncated division is Dafny's own. */
  lemma QuotOfNatural(a: int, b: int)
    requires a >= 0 && b > 0
    ensures Quot(a, b) == a / b && Rem(a, b) == a % b
  {
    assert a == (a / b) * b + a % b;
  }

  /** A non-negative dividend over a negative divisor keeps Dafny's remainder. */
  lemma RemByNegative(n: int, d: int)
    requires n >= 0 && d > 0
    ensures Rem(n, -d) == n % d
  {
    var q := n / d;
    assert n == q * d + n % d;
    assert Quot(n, -d) * -d == q * d;
  }

  /** A negative dividend negates the remainder of its absolute value. */
  lemma RemOfNegative(n: int, d: int)
    requires n > 0 && d != 0
    ensures Rem(-n, d) == -(n % (if d > 0 then d else -d))
  {
    var e := if d > 0 then d else -d;
    var q := n / e;
    assert n == q * e + n % e;
    assert Quot(-n, d) * d == -(q * e);
  }
}
