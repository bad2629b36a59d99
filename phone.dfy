/** The phone pattern of anonymize.py,
      \b\d{3}[-.\s]?\d{3}[-.\s]?\d{4}\b
    as a hand-written matcher. A separator is never a digit, so each
    optional separator is taken exactly when one is present: the pattern
    has at most one match at a given start. */
module PhonePattern {
  import opened Chars
  import opened Substrings

  /** The class `[-.\s]`. */
  predicate IsSep(c: char) {
    c == '-' || c == '.' || IsSpace(c)
  }

  /** `s[k..k + n]` lies inside `s` and consists of digits. */
  predicate DigitsAt(s: string, k: int, n: nat) {
    0 <= k && k + n <= |s| && forall m :: k <= m < k + n ==> IsDigit(s[m])
  }

  /** `x` is 1 when the optional separator at `k` is present and 0 otherwise. */
  predicate SepAt(s: string, k: int, x: int) {
    (x == 0 || x == 1) && (x == 1 ==> 0 <= k < |s| && IsSep(s[k]))
  }

  /** The pattern matched at `i`, with `x` and `y` (0 or 1) the lengths of the
      two separators; the match is `s[i..i + 10 + x + y]`. */
  predicate PhoneShape(s: string, i: int, x: int, y: int) {
    Boundary(s, i) && DigitsAt(s, i, 3) && SepAt(s, i + 3, x) &&
    DigitsAt(s, i + 3 + x, 3) && SepAt(s, i + 6 + x, y) &&
    DigitsAt(s, i + 6 + x + y, 4) && Boundary(s, i + 10 + x + y)
  }

  /** The length of the optional separator at `k`: 1 when `s[k]` is one. */
  function OptSep(s: string, k: nat): (x: nat)
    ensures x <= 1 && SepAt(s, k, x)
    ensures x == 0 ==> k >= |s| || !IsSep(s[k])
  {
    if k < |s| && IsSep(s[k]) then 1 else 0
  }

  /** Python's `re.match` of the phone pattern at index `i`: the separator
      lengths of the match, or None. There is never more than one match. */
  function PhoneAt(s: string, i: nat): (r: Option<(nat, nat)>)
    ensures r.Some? ==> PhoneShape(s, i, r.value.0, r.value.1)
    ensures forall x, y :: PhoneShape(s, i, x, y) ==> r == Some((x, y))
  {
    var x := OptSep(s, i + 3);
    var y := OptSep(s, i + 6 + x);
    SeparatorsForced(s, i);
    if PhoneShape(s, i, x, y) then Some((x, y)) else None
  }

  /** The separators of any match at `i` are the ones `OptSep` reads off. */
  lemma SeparatorsForced(s: string, i: nat)
    ensures forall x, y :: PhoneShape(s, i, x, y) ==>
              x == OptSep(s, i + 3) && y == OptSep(s, i + 6 + x)
  {
    forall x, y | PhoneShape(s, i, x, y) ensures x == OptSep(s, i + 3) && y == OptSep(s, i + 6 + x) {
      assert IsDigit(s[i + 3 + x]);
      assert IsDigit(s[i + 6 + x + y]);
    }
  }

  /** A match holds ten digits, so a text with fewer than ten has none. */
  lemma PhoneDigits(s: string, i: int, x: int, y: int)
    requires PhoneShape(s, i, x, y)
    ensures CountIf(s, IsDigit) >= 10
  {
    TenDigits(s, i, i + 3 + x, i + 6 + x + y);
  }

  /** Three runs of 3, 3 and 4 digits, in order and apart, are ten digits. */
  lemma TenDigits(s: string, a: int, b: int, c: int)
    requires a + 3 <= b && b + 3 <= c
    requires DigitsAt(s, a, 3) && DigitsAt(s, b, 3) && DigitsAt(s, c, 4)
    ensures CountIf(s, IsDigit) >= 10
  {
    assert s[0..] == s;
    DigitsSuffix(s, 0, a);
    DigitsRun(s, a, 3);
    DigitsSuffix(s, a + 3, b);
    DigitsRun(s, b, 3);
    DigitsSuffix(s, b + 3, c);
    DigitsRun(s, c, 4);
  }

  /** Dropping a prefix of a suffix never adds a digit. */
  lemma DigitsSuffix(s: string, a: int, b: int)
    requires 0 <= a <= b <= |s|
    ensures CountIf(s[a..], IsDigit) >= CountIf(s[b..], IsDigit)
  {
    assert s[a..] == s[a..b] + s[b..];
    CountIfAppend(s[a..b], s[b..], IsDigit);
  }

  /** A run of `n` digits at `k` adds `n` to the digits after it. */
  lemma DigitsRun(s: string, k: int, n: nat)
    requires DigitsAt(s, k, n)
    ensures CountIf(s[k..], IsDigit) == n + CountIf(s[k + n..], IsDigit)
  {
    assert s[k..] == s[k..k + n] + s[k + n..];
    CountIfAppend(s[k..k + n], s[k + n..], IsDigit);
    CountIfAll(s[k..k + n], IsDigit);
  }

  /** Every character of a match is a digit or a separator, and it starts
      with a digit. */
  lemma PhoneSpan(s: string, i: int, x: int, y: int)
    requires PhoneShape(s, i, x, y)
    ensures 0 <= i && i + 10 + x + y <= |s| && IsDigit(s[i])
    ensures forall m :: i <= m < i + 10 + x + y ==> IsDigit(s[m]) || IsSep(s[m])
  {
    forall m | i <= m < i + 10 + x + y ensures IsDigit(s[m]) || IsSep(s[m]) {
      if m < i + 3 {
      } else if m < i + 3 + x {
        assert m == i + 3;
      } else if m < i + 6 + x {
      } else if m < i + 6 + x + y {
        assert m == i + 6 + x;
      }
    }
  }

  /** Text after a character that is neither a digit, a separator nor a word
      character cannot change a match that starts before it. */
  lemma PhoneShapePrefix(u: string, v: string, i: nat, x: int, y: int)
    requires i <= |u|
    requires |v| > 0 ==> !IsDigit(v[0]) && !IsSep(v[0]) && !IsWordChar(v[0])
    ensures PhoneShape(u + v, i, x, y) <==> PhoneShape(u, i, x, y)
  {
    var t := u + v;
    var j := i + 10 + x + y;
    if PhoneShape(t, i, x, y) {
      PhoneSpan(t, i, x, y);
      if |v| > 0 {
        assert t[|u|] == v[0];
      }
      assert j <= |u|;
      assert forall m :: 0 <= m < |u| ==> t[m] == u[m];
      assert WordAt(t, j) == WordAt(u, j);
      assert WordAt(t, j - 1) == WordAt(u, j - 1);
      assert WordAt(t, i - 1) == WordAt(u, i - 1);
      assert WordAt(t, i) == WordAt(u, i);
      assert DigitsAt(u, i, 3) && DigitsAt(u, i + 3 + x, 3) && DigitsAt(u, i + 6 + x + y, 4);
      assert SepAt(u, i + 3, x) && SepAt(u, i + 6 + x, y);
    }
    if PhoneShape(u, i, x, y) {
      PhoneSpan(u, i, x, y);
      assert forall m :: 0 <= m < |u| ==> t[m] == u[m];
      assert WordAt(t, j) == WordAt(u, j);
      assert WordAt(t, j - 1) == WordAt(u, j - 1);
      assert WordAt(t, i - 1) == WordAt(u, i - 1);
      assert WordAt(t, i) == WordAt(u, i);
      assert DigitsAt(t, i, 3) && DigitsAt(t, i + 3 + x, 3) && DigitsAt(t, i + 6 + x + y, 4);
      assert SepAt(t, i + 3, x) && SepAt(t, i + 6 + x, y);
    }
  }

  /** Word characters read at a position of `y` are the same when `y` follows
      a text `u` that is empty or ends in a non-word character. */
  lemma WordAtShift(u: string, y: string, p: int)
    requires p >= -1
    requires |u| > 0 ==> !IsWordChar(u[|u| - 1])
    ensures WordAt(u + y, |u| + p) == WordAt(y, p)
  {
    if p >= 0 && p < |y| {
      assert (u + y)[|u| + p] == y[p];
    }
  }

  lemma DigitsAtShift(u: string, y: string, k: int, n: nat)
    requires k >= 0
    ensures DigitsAt(u + y, |u| + k, n) == DigitsAt(y, k, n)
  {
    assert forall m :: 0 <= m < |y| ==> (u + y)[|u| + m] == y[m];
    if DigitsAt(u + y, |u| + k, n) {
      assert forall m :: k <= m < k + n ==> (u + y)[|u| + m] == y[m];
    }
  }

  lemma SepAtShift(u: string, y: string, k: int, x: int)
    requires k >= 0
    ensures SepAt(u + y, |u| + k, x) == SepAt(y, k, x)
  {
    if 0 <= k < |y| {
      assert (u + y)[|u| + k] == y[k];
    }
  }

  lemma BoundaryShift(u: string, y: string, p: nat)
    requires |u| > 0 ==> !IsWordChar(u[|u| - 1])
    ensures Boundary(u + y, |u| + p) == Boundary(y, p)
  {
    WordAtShift(u, y, p - 1);
    WordAtShift(u, y, p);
  }

  /** A match in `y` and a match in `u + y` at the shifted position are the
      same thing when `u` is empty or ends in a non-word character. */
  lemma PhoneShapeShift(u: string, y: string, k: nat, x: int, y': int)
    requires |u| > 0 ==> !IsWordChar(u[|u| - 1])
    ensures PhoneShape(u + y, |u| + k, x, y') <==> PhoneShape(y, k, x, y')
  {
    if PhoneShape(y, k, x, y') {
      PhoneShapeShiftUp(u, y, k, x, y');
    }
    if PhoneShape(u + y, |u| + k, x, y') {
      PhoneShapeShiftDown(u, y, k, x, y');
    }
  }

  lemma PhoneShapeShiftUp(u: string, y: string, k: nat, x: int, y': int)
    requires |u| > 0 ==> !IsWordChar(u[|u| - 1])
    requires PhoneShape(y, k, x, y')
    ensures PhoneShape(u + y, |u| + k, x, y')
  {
    BoundaryShift(u, y, k);
    DigitsAtShift(u, y, k, 3);
    SepAtShift(u, y, k + 3, x);
    DigitsAtShift(u, y, k + 3 + x, 3);
    SepAtShift(u, y, k + 6 + x, y');
    DigitsAtShift(u, y, k + 6 + x + y', 4);
    BoundaryShift(u, y, k + 10 + x + y');
  }

  lemma PhoneShapeShiftDown(u: string, y: string, k: nat, x: int, y': int)
    requires |u| > 0 ==> !IsWordChar(u[|u| - 1])
    requires PhoneShape(u + y, |u| + k, x, y')
    ensures PhoneShape(y, k, x, y')
  {
    BoundaryShift(u, y, k);
    DigitsAtShift(u, y, k, 3);
    SepAtShift(u, y, k + 3, x);
    DigitsAtShift(u, y, k + 3 + x, 3);
    SepAtShift(u, y, k + 6 + x, y');
    DigitsAtShift(u, y, k + 6 + x + y', 4);
    BoundaryShift(u, y, k + 10 + x + y');
  }



}
