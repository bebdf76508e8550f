/** Whitespace trimming and Y/N coercion (src/common/strings.hpp). The trims take the
    string by reference in the source; here they return the trimmed string together
    with the `uint32_t` count of removed characters. */
module Strings {
  import opened Text

  const U32: nat := 0x1_0000_0000

  /** The six characters `NotWhitespace` refuses (also what `isspace` accepts in the
      C locale). */
  const Whitespace: set<char> := {' ', '\t', '\n', '\U{C}', '\U{B}', '\r'}

  predicate NotWhitespace(c: char)
    ensures !NotWhitespace(c) <==>
              c == ' ' || c == '\t' || c == '\n' || c == '\U{C}' || c == '\U{B}' || c == '\r'
  {
    c !in Whitespace
  }

  /** Length of the maximal leading whitespace run. */
  function LeadingRun(s: string): (n: nat)
    ensures n <= |s|
    ensures forall i :: 0 <= i < n ==> !NotWhitespace(s[i])
    ensures n == |s| || NotWhitespace(s[n])
  {
    if s == [] || NotWhitespace(s[0]) then 0 else 1 + LeadingRun(s[1..])
  }

  /** Length of the maximal trailing whitespace run. */
  function TrailingRun(s: string): (n: nat)
    ensures n <= |s|
    ensures forall i :: |s| - n <= i < |s| ==> !NotWhitespace(s[i])
    ensures n == |s| || NotWhitespace(s[|s| - n - 1])
  {
    if s == [] || NotWhitespace(s[|s| - 1]) then 0 else 1 + TrailingRun(s[..|s| - 1])
  }

  /** What `trim` leaves of a string. */
  function Trimmed(s: string): string {
    var t := s[LeadingRun(s)..];
    t[..|t| - TrailingRun(t)]
  }

  /** `trimLeft`: drops the leading whitespace run and reports its length. */
  method TrimLeft(input: string) returns (output: string, removed: nat)
    ensures output == input[LeadingRun(input)..]
    ensures removed == LeadingRun(input) % U32
  {
    var i := 0;
    while i < |input| && !NotWhitespace(input[i])
      invariant i <= |input|
      invariant forall j :: 0 <= j < i ==> !NotWhitespace(input[j])
    {
      i := i + 1;
    }
    RunIsLeading(input, i);
    output := input[i..];
    removed := i % U32;
  }

  /** `trimRight`: drops the trailing whitespace run and reports its length. */
  method TrimRight(input: string) returns (output: string, removed: nat)
    ensures output == input[..|input| - TrailingRun(input)]
    ensures removed == TrailingRun(input) % U32
  {
    var e := |input|;
    while e > 0 && !NotWhitespace(input[e - 1])
      invariant 0 <= e <= |input|
      invariant forall j :: e <= j < |input| ==> !NotWhitespace(input[j])
    {
      e := e - 1;
    }
    RunIsTrailing(input, |input| - e);
    output := input[..e];
    removed := (|input| - e) % U32;
  }

  /** `trim`: `trimLeft` then `trimRight`, counts summed in `uint32_t`. */
  method Trim(input: string) returns (output: string, removed: nat)
    ensures output == Trimmed(input)
    ensures removed == (LeadingRun(input) % U32 + TrailingRun(input[LeadingRun(input)..]) % U32) % U32
  {
    var left, l := TrimLeft(input);
    var r;
    output, r := TrimRight(left);
    removed := (l + r) % U32;
  }

  /** Any whitespace run that ends at a non-whitespace character (or the end) is the
      maximal one. */
  lemma {:induction false} RunIsLeading(s: string, n: nat)
    requires n <= |s|
    requires forall j :: 0 <= j < n ==> !NotWhitespace(s[j])
    requires n == |s| || NotWhitespace(s[n])
    ensures LeadingRun(s) == n
  {
    if n > 0 {
      RunIsLeading(s[1..], n - 1);
    }
  }

  lemma {:induction false} RunIsTrailing(s: string, n: nat)
    requires n <= |s|
    requires forall j :: |s| - n <= j < |s| ==> !NotWhitespace(s[j])
    requires n == |s| || NotWhitespace(s[|s| - n - 1])
    ensures TrailingRun(s) == n
  {
    if n > 0 {
      RunIsTrailing(s[..|s| - 1], n - 1);
    }
  }

  /** The trimmed string is the middle of the input, starts and ends with a
      non-whitespace character, and trimming it again removes nothing. */
  lemma TrimmedSpec(s: string)
    ensures var t := Trimmed(s);
            && LeadingRun(s) + |t| <= |s| && t == s[LeadingRun(s)..LeadingRun(s) + |t|]
            && (t == [] || (NotWhitespace(t[0]) && NotWhitespace(t[|t| - 1])))
            && LeadingRun(t) == 0 && TrailingRun(t) == 0
            && Trimmed(t) == t
  {
    var a := LeadingRun(s);
    var u := s[a..];
    var t := Trimmed(s);
    assert t == s[a..a + |t|];
    if t != [] {
      assert t[0] == u[0];
      RunIsLeading(t, 0);
      RunIsTrailing(t, 0);
    }
  }

  /** `std::toupper` in the C locale. */
  function ToUpper(c: char): char {
    if 'a' <= c <= 'z' then (c as int - 32) as char else c
  }

  /** `coerceIntoBoolean`: trims a copy and reads only its upper-cased first character;
      anything but Y or N is the thrown error, modelled as `None`. The input must not be
      blank (`front()` of an empty string is undefined). */
  function CoerceIntoBoolean(input: string): (r: Option<bool>)
    requires exists i :: 0 <= i < |input| && NotWhitespace(input[i])
    ensures var c := input[LeadingRun(input)];
            && (r == Some(true) <==> c == 'Y' || c == 'y')
            && (r == Some(false) <==> c == 'N' || c == 'n')
            && (r == None <==> c !in {'Y', 'y', 'N', 'n'})
  {
    var t := Trimmed(input);
    NotBlankTrimmed(input);
    var chr := ToUpper(t[0]);
    if chr == 'Y' then Some(true)
    else if chr == 'N' then Some(false)
    else None
  }

  lemma NotBlankTrimmed(s: string)
    requires exists i :: 0 <= i < |s| && NotWhitespace(s[i])
    ensures LeadingRun(s) < |s|
    ensures Trimmed(s) != [] && Trimmed(s)[0] == s[LeadingRun(s)]
  {
    var i :| 0 <= i < |s| && NotWhitespace(s[i]);
    var a := LeadingRun(s);
    assert a <= i;
    var u := s[a..];
    assert NotWhitespace(u[0]);
    assert TrailingRun(u) < |u|;
  }
}
