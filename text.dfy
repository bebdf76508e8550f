/** Shared helpers: optional values, C-string views, prefix tests, byte-wise string
    ordering and decimal rendering of sizes. */
module Text {

  datatype Option<+T> = None | Some(value: T)

  /** The NUL terminator of a C string. */
  const NUL: char := '\0'

  /** The C-string view of a buffer: everything before the first NUL (what `strlen`,
      `strpbrk` and `c_str()` consumers see). */
  function CStr(s: string): string
  {
    if s == [] || s[0] == NUL then [] else [s[0]] + CStr(s[1..])
  }

  /** The view is the longest NUL-free prefix: it stops at the end of the buffer or
      right before its first NUL. */
  lemma {:induction false} CStrPrefix(s: string)
    ensures |CStr(s)| <= |s| && CStr(s) == s[..|CStr(s)|]
    ensures NUL !in CStr(s)
    ensures |CStr(s)| < |s| ==> s[|CStr(s)|] == NUL
  {
    if s != [] && s[0] != NUL {
      CStrPrefix(s[1..]);
    }
  }

  lemma {:induction false} CStrOfClean(s: string, rest: string)
    requires NUL !in s
    requires rest == [] || rest[0] == NUL
    ensures CStr(s + rest) == s
  {
    if s != [] {
      assert (s + rest)[1..] == s[1..] + rest;
      CStrOfClean(s[1..], rest);
    }
  }

  predicate StartsWith(s: string, p: string) {
    |p| <= |s| && s[..|p|] == p
  }

  predicate EndsWith(s: string, p: string) {
    |p| <= |s| && s[|s| - |p|..] == p
  }

  predicate ProperPrefix(p: string, s: string) {
    |p| < |s| && s[..|p|] == p
  }

  /** `std::string::compare(a, b) < 0`: byte-wise lexicographic order, a proper prefix first. */
  predicate LexLess(a: string, b: string)
    decreases |a|
  {
    if a == [] then b != []
    else if b == [] then false
    else if a[0] != b[0] then a[0] < b[0]
    else LexLess(a[1..], b[1..])
  }

  lemma {:induction false} LexIrreflexive(a: string)
    ensures !LexLess(a, a)
  {
    if a != [] { LexIrreflexive(a[1..]); }
  }

  lemma {:induction false} LexTransitive(a: string, b: string, c: string)
    requires LexLess(a, b) && LexLess(b, c)
    ensures LexLess(a, c)
  {
    if a != [] && b != [] && c != [] && a[0] == b[0] && b[0] == c[0] {
      LexTransitive(a[1..], b[1..], c[1..]);
    }
  }

  lemma {:induction false} LexTotal(a: string, b: string)
    ensures a == b || LexLess(a, b) || LexLess(b, a)
  {
    if a != [] && b != [] && a[0] == b[0] {
      LexTotal(a[1..], b[1..]);
      if a[1..] == b[1..] {
        assert a == [a[0]] + a[1..] && b == [b[0]] + b[1..];
      }
    }
  }

  lemma {:induction false} LexAsymmetric(a: string, b: string)
    requires LexLess(a, b)
    ensures !LexLess(b, a)
  {
    if a != [] && b != [] && a[0] == b[0] {
      LexAsymmetric(a[1..], b[1..]);
    }
  }

  /** Appending to both sides keeps the order of two strings neither of which is a
      prefix of the other: their first difference decides. */
  lemma {:induction false} LexLessAppend(a: string, b: string, x: string, y: string)
    requires LexLess(a, b) && !ProperPrefix(a, b)
    ensures LexLess(a + x, b + y)
  {
    assert a != [] && b != [];
    if a[0] == b[0] {
      assert (a + x)[1..] == a[1..] + x && (b + y)[1..] == b[1..] + y;
      LexLessAppend(a[1..], b[1..], x, y);
    }
  }

  /** Decimal rendering of an unsigned value, as `operator<<` prints it. */
  function NatToString(n: nat): (r: string)
    ensures |r| >= 1
    ensures forall i :: 0 <= i < |r| ==> '0' <= r[i] <= '9'
    decreases n
  {
    if n < 10 then [Digit(n)] else NatToString(n / 10) + [Digit(n % 10)]
  }

  /** The decimal digit of `d`, which reads back as `d`. */
  function Digit(d: nat): (c: char)
    requires d < 10
    ensures '0' <= c <= '9' && c as int - '0' as int == d
  {
    ('0' as int + d) as char
  }
}
