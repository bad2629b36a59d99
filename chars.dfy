/** Character classes used by Python's `str.strip()` and by the `\s`, `\d`
    and `\b` escapes of its regular expressions, restricted to ASCII. */
module Chars {

  /** Python's `str.isspace()` on the ASCII range: space, \t, \n, \v, \f, \r
      and the four information separators \x1c..\x1f. */
  predicate IsSpace(c: char) {
    c == ' ' || c == '\t' || c == '\n' || c == '\r' ||
    c == '\U{000B}' || c == '\U{000C}' ||
    c == '\U{001C}' || c == '\U{001D}' || c == '\U{001E}' || c == '\U{001F}'
  }

  /** `\d` restricted to ASCII. */
  predicate IsDigit(c: char) {
    '0' <= c <= '9'
  }

  predicate IsAsciiLetter(c: char) {
    'A' <= c <= 'Z' || 'a' <= c <= 'z'
  }

  /** `\w` restricted to ASCII: letters, digits and the underscore. */
  predicate IsWordChar(c: char) {
    IsAsciiLetter(c) || IsDigit(c) || c == '_'
  }

  /** Every character of `s` is whitespace (vacuously true of ""). */
  predicate AllSpace(s: string) {
    forall k :: 0 <= k < |s| ==> IsSpace(s[k])
  }

  /** `s` has a word character at index `k`; indices outside `s` are not. */
  predicate WordAt(s: string, k: int) {
    0 <= k < |s| && IsWordChar(s[k])
  }

  /** The regex assertion `\b` at position `k` of `s` (0 <= k <= |s|):
      a word character on exactly one side of `k`. */
  predicate Boundary(s: string, k: int) {
    WordAt(s, k - 1) != WordAt(s, k)
  }

  /** The number of characters of `s` that satisfy `keep`. */
  function CountIf(s: string, keep: char -> bool): nat
    decreases |s|
  {
    if |s| == 0 then 0 else (if keep(s[0]) then 1 else 0) + CountIf(s[1..], keep)
  }

  /** Counting distributes over concatenation. */
  lemma {:induction false} CountIfAppend(a: string, b: string, keep: char -> bool)
    ensures CountIf(a + b, keep) == CountIf(a, keep) + CountIf(b, keep)
    decreases |a|
  {
    if |a| > 0 {
      CountIfAppend(a[1..], b, keep);
      assert (a + b)[1..] == a[1..] + b;
    } else {
      assert a + b == b;
    }
  }

  /** A text all of whose characters satisfy `keep` counts its full length. */
  lemma {:induction false} CountIfAll(s: string, keep: char -> bool)
    requires forall k :: 0 <= k < |s| ==> keep(s[k])
    ensures CountIf(s, keep) == |s|
    decreases |s|
  {
    if |s| > 0 {
      CountIfAll(s[1..], keep);
    }
  }

  /** A text none of whose characters satisfy `keep` counts zero. */
  lemma {:induction false} CountIfNone(s: string, keep: char -> bool)
    requires forall k :: 0 <= k < |s| ==> !keep(s[k])
    ensures CountIf(s, keep) == 0
    decreases |s|
  {
    if |s| > 0 {
      CountIfNone(s[1..], keep);
    }
  }

  /** A text with a character that satisfies `keep` counts at least one. */
  lemma {:induction false} CountIfSome(s: string, keep: char -> bool, k: nat)
    requires k < |s|
    ensures keep(s[k]) ==> CountIf(s, keep) > 0
    decreases k
  {
    if k > 0 {
      CountIfSome(s[1..], keep, k - 1);
    }
  }
}
