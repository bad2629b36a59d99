/** Python's `str.strip()` with no argument: remove leading and trailing
    whitespace (the ASCII whitespace of module Chars). */
module Whitespace {
  import opened Chars

  /** No whitespace at either end (the empty text included). */
  predicate IsTrimmed(s: string) {
    |s| == 0 || (!IsSpace(s[0]) && !IsSpace(s[|s| - 1]))
  }

  /** Every character of `s` with index in `a..b` is whitespace. */
  predicate SpaceBetween(s: string, a: int, b: int)
    requires 0 <= a && b <= |s|
  {
    forall m :: a <= m < b ==> IsSpace(s[m])
  }

  /** The first index at or after `i` that does not hold whitespace. */
  function SkipSpace(s: string, i: nat): (k: nat)
    requires i <= |s|
    ensures i <= k <= |s| && SpaceBetween(s, i, k)
    ensures k < |s| ==> !IsSpace(s[k])
    decreases |s| - i
  {
    if i < |s| && IsSpace(s[i]) then SkipSpace(s, i + 1) else i
  }

  /** Walking back from `j`, not past `lo`: the end of the last
      non-whitespace character. */
  function SkipSpaceBack(s: string, lo: nat, j: nat): (k: nat)
    requires lo <= j <= |s|
    ensures lo <= k <= j && SpaceBetween(s, k, j)
    ensures k > lo ==> !IsSpace(s[k - 1])
    decreases j
  {
    if j > lo && IsSpace(s[j - 1]) then SkipSpaceBack(s, lo, j - 1) else j
  }

  /** `s.strip()`: the text between the leading and the trailing whitespace,
      itself free of whitespace at both ends. */
  function Strip(s: string): (r: string)
    ensures IsTrimmed(r)
    ensures exists lo, hi :: 0 <= lo <= hi <= |s| && r == s[lo..hi] &&
              SpaceBetween(s, 0, lo) && SpaceBetween(s, hi, |s|)
  {
    var lo := SkipSpace(s, 0);
    var hi := SkipSpaceBack(s, lo, |s|);
    assert lo < hi ==> s[lo..hi][0] == s[lo] && s[lo..hi][hi - lo - 1] == s[hi - 1];
    s[lo..hi]
  }

  /** The characterisation in Strip's contract fixes the result: any slice
      that is trimmed and has only whitespace outside it is `Strip(s)`. */
  lemma StripUnique(s: string, lo: nat, hi: nat)
    requires lo <= hi <= |s| && IsTrimmed(s[lo..hi])
    requires SpaceBetween(s, 0, lo) && SpaceBetween(s, hi, |s|)
    ensures Strip(s) == s[lo..hi]
  {
    var lo', hi' :| 0 <= lo' <= hi' <= |s| && Strip(s) == s[lo'..hi'] &&
                    SpaceBetween(s, 0, lo') && SpaceBetween(s, hi', |s|);
    assert SpaceBetween(s, 0, lo') && SpaceBetween(s, hi', |s|);
    assert SpaceBetween(s, 0, lo) && SpaceBetween(s, hi, |s|);
    assert IsTrimmed(Strip(s));
    assert IsTrimmed(s[lo'..hi']);
    assert lo < hi ==> s[lo..hi][0] == s[lo] && s[lo..hi][hi - lo - 1] == s[hi - 1];
    assert lo' < hi' ==> s[lo'..hi'][0] == s[lo'] && s[lo'..hi'][hi' - lo' - 1] == s[hi' - 1];
    if lo < hi {
      assert !IsSpace(s[lo]) && !IsSpace(s[hi - 1]);
      assert lo' <= lo && hi <= hi';
      assert !IsSpace(s[lo']) && !IsSpace(s[hi' - 1]);
      assert lo <= lo' && hi' <= hi;
    } else {
      assert forall m :: 0 <= m < |s| ==> IsSpace(s[m]);
      assert lo' == hi';
    }
  }

  /** Stripping a text that is already trimmed changes nothing; in particular
      `Strip` is idempotent. */
  lemma StripTrimmed(s: string)
    requires IsTrimmed(s)
    ensures Strip(s) == s
  {
    StripUnique(s, 0, |s|);
    assert s[0..|s|] == s;
  }

  lemma StripIdempotent(s: string)
    ensures Strip(Strip(s)) == Strip(s)
  {
    StripTrimmed(Strip(s));
  }

  /** `s.strip()` is empty exactly when `s` is whitespace only. */
  lemma StripEmpty(s: string)
    ensures Strip(s) == [] <==> AllSpace(s)
  {
    if AllSpace(s) {
      StripUnique(s, 0, 0);
    } else {
      var k :| 0 <= k < |s| && !IsSpace(s[k]);
      var lo, hi :| 0 <= lo <= hi <= |s| && Strip(s) == s[lo..hi] &&
                    SpaceBetween(s, 0, lo) && SpaceBetween(s, hi, |s|);
      assert SpaceBetween(s, 0, lo) && SpaceBetween(s, hi, |s|);
      assert lo <= k < hi;
    }
  }

  /** The bounds that Strip's contract promises, as values. */
  lemma StripBounds(s: string) returns (lo: nat, hi: nat)
    ensures lo <= hi <= |s| && Strip(s) == s[lo..hi] && IsTrimmed(s[lo..hi])
    ensures SpaceBetween(s, 0, lo) && SpaceBetween(s, hi, |s|)
  {
    lo, hi :| 0 <= lo <= hi <= |s| && Strip(s) == s[lo..hi] &&
              SpaceBetween(s, 0, lo) && SpaceBetween(s, hi, |s|);
  }

  /** Whitespace appended to a text does not change its strip. */
  lemma StripAppendSpace(x: string, w: string)
    requires AllSpace(w)
    ensures Strip(x + w) == Strip(x)
  {
    var lo, hi := StripBounds(x);
    SpaceAppended(x, w, lo, hi);
    StripUnique(x + w, lo, hi);
  }

  lemma SpaceAppended(x: string, w: string, lo: nat, hi: nat)
    requires AllSpace(w) && lo <= hi <= |x| && IsTrimmed(x[lo..hi])
    requires SpaceBetween(x, 0, lo) && SpaceBetween(x, hi, |x|)
    ensures (x + w)[lo..hi] == x[lo..hi] && IsTrimmed((x + w)[lo..hi])
    ensures SpaceBetween(x + w, 0, lo) && SpaceBetween(x + w, hi, |x + w|)
  {
    var s := x + w;
    assert s[lo..hi] == x[lo..hi];
    forall m | 0 <= m < lo ensures IsSpace(s[m]) {
      assert s[m] == x[m];
    }
    forall m | hi <= m < |s| ensures IsSpace(s[m]) {
      if m < |x| {
        assert s[m] == x[m];
      } else {
        assert s[m] == w[m - |x|];
      }
    }
  }

}
