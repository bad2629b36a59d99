/** Python's `re.sub(pattern, placeholder, text)` for the two fixed patterns
    of anonymize.py: scan left to right; at the first position where the
    pattern matches, emit the placeholder and resume after the match;
    elsewhere copy the character. The `\b` assertions always look at the
    original text, never at what was emitted. */
module Substitute {
  import opened Chars
  import opened Substrings
  import opened EmailPattern
  import opened PhonePattern

  datatype Pattern = Email | Phone

  /** The replacement text of each pass. */
  function Placeholder(pat: Pattern): string {
    match pat
    case Email => "[EMAIL]"
    case Phone => "[PHONE]"
  }

  /** `s[i..j]` is a match of the pattern. */
  ghost predicate IsMatchAt(pat: Pattern, s: string, i: int, j: int) {
    match pat
    case Email => exists a, d :: EmailShape(s, i, a, d, j)
    case Phone => exists x, y :: PhoneShape(s, i, x, y) && j == i + 10 + x + y
  }

  /** Where the match the engine finds at `i` ends, or None when there is
      none; the match is never empty. */
  function MatchEnd(pat: Pattern, s: string, i: nat): (r: Option<nat>)
    requires i <= |s|
    ensures r.Some? ==> i < r.value <= |s|
  {
    match pat
    case Email =>
      (match EmailAt(s, i)
       case None => None
       case Some((a, d, j)) => Some(j))
    case Phone =>
      (match PhoneAt(s, i)
       case None => None
       case Some((x, y)) => Some(i + 10 + x + y))
  }

  /** The match end found at every position of `s`, in order. */
  function Ends(pat: Pattern, s: string): (e: seq<Option<nat>>)
    ensures ValidEnds(e, |s|)
  {
    seq(|s|, i requires 0 <= i < |s| => MatchEnd(pat, s, i))
  }

  /** Entry `i` of the match ends is the match end found at `i`. */
  lemma EndsAt(pat: Pattern, s: string, i: nat)
    requires i < |s|
    ensures Ends(pat, s)[i] == MatchEnd(pat, s, i)
  {
  }

  /** `e` gives, for each position of a text of length `n`, the end of a
      non-empty match starting there, or None. */
  predicate ValidEnds(e: seq<Option<nat>>, n: nat) {
    |e| == n && forall i :: 0 <= i < n && e[i].Some? ==> i < e[i].value <= n
  }

  /** The `re.sub` scan of `s` from `i`, given the match ends `e`: emit `ph`
      for a match and resume after it, copy the character otherwise. */
  function Scan(e: seq<Option<nat>>, ph: string, s: string, i: nat): string
    requires ValidEnds(e, |s|) && i <= |s|
    decreases |s| - i
  {
    if i == |s| then []
    else match e[i]
      case Some(j) => ph + Scan(e, ph, s, j)
      case None => [s[i]] + Scan(e, ph, s, i + 1)
  }

  /** The end the engine finds is the end of a match, and it finds one
      whenever the pattern matches at `i`. */
  lemma MatchEndSpec(pat: Pattern, s: string, i: nat)
    requires i <= |s|
    ensures MatchEnd(pat, s, i).Some? ==> IsMatchAt(pat, s, i, MatchEnd(pat, s, i).value)
    ensures MatchEnd(pat, s, i).None? ==> forall j :: !IsMatchAt(pat, s, i, j)
  {
  }

  /** The output of the scan from position `i` of `s`. */
  function SubFrom(pat: Pattern, s: string, i: nat): string
    requires i <= |s|
  {
    Scan(Ends(pat, s), Placeholder(pat), s, i)
  }

  /** `re.sub(pattern, placeholder, s)`. */
  function Sub(pat: Pattern, s: string): string {
    SubFrom(pat, s, 0)
  }

  /** A match end moved right by `o`. */
  function Shifted(r: Option<nat>, o: nat): Option<nat> {
    match r
    case None => None
    case Some(j) => Some(o + j)
  }

  /** Every match end of `f` moved right by `o`. */
  function ShiftedAll(f: seq<Option<nat>>, o: nat): (g: seq<Option<nat>>)
    ensures |g| == |f|
  {
    seq(|f|, i requires 0 <= i < |f| => Shifted(f[i], o))
  }

  // ---------------------------------------------------------------------
  // The scan, for any match ends

  /** Copying `s[i]` in front of the copy of `s[i + 1..k]` copies `s[i..k]`. */
  lemma CopyStep(s: string, i: nat, k: nat, rest: string)
    requires i < k <= |s|
    ensures [s[i]] + (s[i + 1..k] + rest) == s[i..k] + rest
  {
    assert s[i..k] == [s[i]] + s[i + 1..k];
  }

  /** Where no match starts in `s[a..b]` the scan copies it. */
  lemma {:induction false} ScanSkip(e: seq<Option<nat>>, ph: string, s: string, a: nat, b: nat)
    requires ValidEnds(e, |s|) && a <= b <= |s|
    requires forall m :: a <= m < b ==> e[m].None?
    ensures Scan(e, ph, s, a) == s[a..b] + Scan(e, ph, s, b)
    decreases b - a
  {
    if a < b {
      ScanSkip(e, ph, s, a + 1, b);
      CopyStep(s, a, b, Scan(e, ph, s, b));
    }
  }

  /** The first match at or after `i`, at `k`, is replaced by exactly the
      placeholder; the text before it is copied and the scan resumes at its
      end. */
  lemma ScanLeftmost(e: seq<Option<nat>>, ph: string, s: string, i: nat, k: nat, j: nat)
    requires ValidEnds(e, |s|) && i <= k < |s| && e[k] == Some(j)
    requires forall m :: i <= m < k ==> e[m].None?
    ensures Scan(e, ph, s, i) == s[i..k] + (ph + Scan(e, ph, s, j))
  {
    ScanSkip(e, ph, s, i, k);
  }

  /** Characters the placeholder lacks are never added. */
  lemma {:induction false} ScanCountIf(e: seq<Option<nat>>, ph: string, s: string, i: nat, keep: char -> bool)
    requires ValidEnds(e, |s|) && i <= |s| && CountIf(ph, keep) == 0
    ensures CountIf(Scan(e, ph, s, i), keep) <= CountIf(s[i..], keep)
    decreases |s| - i
  {
    if i < |s| {
      match e[i]
      case Some(j) =>
        ScanCountIf(e, ph, s, j, keep);
        CountIfAppend(ph, Scan(e, ph, s, j), keep);
        assert s[i..] == s[i..j] + s[j..];
        CountIfAppend(s[i..j], s[j..], keep);
      case None =>
        ScanCountIf(e, ph, s, i + 1, keep);
        CountIfAppend([s[i]], Scan(e, ph, s, i + 1), keep);
        assert s[i..] == [s[i]] + s[i + 1..];
        CountIfAppend([s[i]], s[i + 1..], keep);
    }
  }

  /** One step of the scan at a match: the placeholder, then the scan from
      the match's end. */
  lemma ScanMatchStep(e: seq<Option<nat>>, ph: string, s: string, i: nat, j: nat)
    requires ValidEnds(e, |s|) && i < |s| && e[i] == Some(j)
    ensures i < j <= |s| && Scan(e, ph, s, i) == ph + Scan(e, ph, s, j)
  {
  }

  /** One step of the scan where no match starts: the character, copied. */
  lemma ScanCopyStep(e: seq<Option<nat>>, ph: string, s: string, i: nat)
    requires ValidEnds(e, |s|) && i < |s| && e[i].None?
    ensures Scan(e, ph, s, i) == [s[i]] + Scan(e, ph, s, i + 1)
  {
  }

  /** Position `k` of `y` and `f` seen at `o + k` of `s` and `e`. */
  lemma ShiftedView(e: seq<Option<nat>>, s: string, o: nat, f: seq<Option<nat>>, y: string, k: nat)
    requires |e| == |s| && |f| == |y| && o + |y| == |s| && k < |y|
    requires s[o..] == y && e[o..] == ShiftedAll(f, o)
    ensures e[o + k] == Shifted(f[k], o) && s[o + k] == y[k]
  {
    assert e[o + k] == e[o..][k];
    assert s[o + k] == s[o..][k];
  }

  /** Two scans that see the same characters and the same matches (shifted
      by `o`) from `o + k` and from `k` on produce the same output. */
  lemma {:induction false} ScanShift(e: seq<Option<nat>>, s: string, o: nat, f: seq<Option<nat>>, y: string,
                                     ph: string, k: nat)
    requires ValidEnds(e, |s|) && ValidEnds(f, |y|) && o + |y| == |s| && k <= |y|
    requires s[o..] == y && e[o..] == ShiftedAll(f, o)
    ensures Scan(e, ph, s, o + k) == Scan(f, ph, y, k)
    decreases |y| - k, 1
  {
    if k < |y| {
      ShiftedView(e, s, o, f, y, k);
      if f[k].Some? {
        ScanShiftMatch(e, s, o, f, y, ph, k, f[k].value);
      } else {
        ScanShiftCopy(e, s, o, f, y, ph, k);
      }
    }
  }

  /** The step of `ScanShift` at a match. */
  lemma {:induction false} ScanShiftMatch(e: seq<Option<nat>>, s: string, o: nat, f: seq<Option<nat>>, y: string,
                                          ph: string, k: nat, j: nat)
    requires ValidEnds(e, |s|) && ValidEnds(f, |y|) && o + |y| == |s| && k < |y|
    requires s[o..] == y && e[o..] == ShiftedAll(f, o)
    requires f[k] == Some(j) && e[o + k] == Some(o + j)
    ensures Scan(e, ph, s, o + k) == Scan(f, ph, y, k)
    decreases |y| - k, 0
  {
    calc {
      Scan(e, ph, s, o + k);
      { ScanMatchStep(e, ph, s, o + k, o + j); }
      ph + Scan(e, ph, s, o + j);
      { ScanMatchStep(f, ph, y, k, j); ScanShift(e, s, o, f, y, ph, j); }
      ph + Scan(f, ph, y, j);
      { ScanMatchStep(f, ph, y, k, j); }
      Scan(f, ph, y, k);
    }
  }

  /** The step of `ScanShift` where no match starts. */
  lemma {:induction false} ScanShiftCopy(e: seq<Option<nat>>, s: string, o: nat, f: seq<Option<nat>>, y: string,
                                         ph: string, k: nat)
    requires ValidEnds(e, |s|) && ValidEnds(f, |y|) && o + |y| == |s| && k < |y|
    requires s[o..] == y && e[o..] == ShiftedAll(f, o)
    requires f[k].None? && e[o + k].None? && s[o + k] == y[k]
    ensures Scan(e, ph, s, o + k) == Scan(f, ph, y, k)
    decreases |y| - k, 0
  {
    calc {
      Scan(e, ph, s, o + k);
      { ScanCopyStep(e, ph, s, o + k); }
      [s[o + k]] + Scan(e, ph, s, o + k + 1);
      { assert o + k + 1 == o + (k + 1); }
      [s[o + k]] + Scan(e, ph, s, o + (k + 1));
      { ScanShift(e, s, o, f, y, ph, k + 1); }
      [y[k]] + Scan(f, ph, y, k + 1);
      { ScanCopyStep(f, ph, y, k); }
      Scan(f, ph, y, k);
    }
  }

  /** A scan of `s` that sees the same characters and matches as a scan of
      its prefix `u` produces the output of `u`, then goes on from `|u|`. */
  lemma {:induction false} ScanPrefix(e: seq<Option<nat>>, s: string, f: seq<Option<nat>>, u: string,
                                      ph: string, i: nat)
    requires ValidEnds(e, |s|) && ValidEnds(f, |u|) && i <= |u| <= |s| && s[..|u|] == u && e[..|u|] == f
    ensures Scan(e, ph, s, i) == Scan(f, ph, u, i) + Scan(e, ph, s, |u|)
    decreases |u| - i
  {
    if i < |u| {
      var rest := Scan(e, ph, s, |u|);
      assert e[i] == e[..|u|][i] == f[i];
      match f[i]
      case Some(j) =>
        calc {
          Scan(e, ph, s, i);
          { ScanMatchStep(e, ph, s, i, j); }
          ph + Scan(e, ph, s, j);
          { ScanMatchStep(f, ph, u, i, j); ScanPrefix(e, s, f, u, ph, j); }
          ph + (Scan(f, ph, u, j) + rest);
          (ph + Scan(f, ph, u, j)) + rest;
          { ScanMatchStep(f, ph, u, i, j); }
          Scan(f, ph, u, i) + rest;
        }
      case None =>
        calc {
          Scan(e, ph, s, i);
          { ScanCopyStep(e, ph, s, i); }
          [s[i]] + Scan(e, ph, s, i + 1);
          { assert s[i] == s[..|u|][i] == u[i]; ScanPrefix(e, s, f, u, ph, i + 1); }
          [u[i]] + (Scan(f, ph, u, i + 1) + rest);
          ([u[i]] + Scan(f, ph, u, i + 1)) + rest;
          { ScanCopyStep(f, ph, u, i); }
          Scan(f, ph, u, i) + rest;
        }
    }
  }

  // ---------------------------------------------------------------------
  // re.sub

  /** Where the pattern cannot match, no match end is recorded. */
  lemma NoMatchNoEnd(pat: Pattern, s: string, m: nat)
    requires m < |s| && forall j :: !IsMatchAt(pat, s, m, j)
    ensures Ends(pat, s)[m].None?
  {
    EndsAt(pat, s, m);
    MatchEndSpec(pat, s, m);
  }

  /** Without a match from `i` on, the scan copies the rest of the text. */
  lemma SubFromUnchanged(pat: Pattern, s: string, i: nat)
    requires i <= |s|
    requires forall k, j :: i <= k < |s| ==> !IsMatchAt(pat, s, k, j)
    ensures SubFrom(pat, s, i) == s[i..]
  {
    var e := Ends(pat, s);
    forall m | i <= m < |s| ensures e[m].None? {
      NoMatchNoEnd(pat, s, m);
    }
    ScanSkip(e, Placeholder(pat), s, i, |s|);
  }

  /** A text in which the pattern matches nowhere is left as it is. */
  lemma SubUnchanged(pat: Pattern, s: string)
    requires forall k, j :: 0 <= k < |s| ==> !IsMatchAt(pat, s, k, j)
    ensures Sub(pat, s) == s
  {
    SubFromUnchanged(pat, s, 0);
  }

  /** The first match at or after `i` is replaced by exactly the placeholder;
      the text before it is copied and the scan resumes at its end. */
  lemma SubLeftmost(pat: Pattern, s: string, i: nat, k: nat, j: nat)
    requires i <= k < |s| && MatchEnd(pat, s, k) == Some(j)
    requires forall k', j' :: i <= k' < k ==> !IsMatchAt(pat, s, k', j')
    ensures SubFrom(pat, s, i) == s[i..k] + (Placeholder(pat) + SubFrom(pat, s, j))
  {
    var e := Ends(pat, s);
    EndsAt(pat, s, k);
    forall m | i <= m < k ensures e[m].None? {
      NoMatchNoEnd(pat, s, m);
    }
    ScanLeftmost(e, Placeholder(pat), s, i, k, j);
  }

  /** Characters the placeholder lacks are never added: the scan keeps at
      most as many of them as the text had. */
  lemma SubFromCountIf(pat: Pattern, s: string, i: nat, keep: char -> bool)
    requires i <= |s| && CountIf(Placeholder(pat), keep) == 0
    ensures CountIf(SubFrom(pat, s, i), keep) <= CountIf(s[i..], keep)
  {
    ScanCountIf(Ends(pat, s), Placeholder(pat), s, i, keep);
  }

  predicate IsAt(c: char) {
    c == '@'
  }

  /** Neither placeholder holds a digit or an `@`. */
  lemma PlaceholderCounts(pat: Pattern)
    ensures CountIf(Placeholder(pat), IsDigit) == 0
    ensures CountIf(Placeholder(pat), IsAt) == 0
  {
    CountIfNone(Placeholder(pat), IsDigit);
    CountIfNone(Placeholder(pat), IsAt);
  }

  /** Neither pass increases the number of digits or of `@` characters. */
  lemma SubCounts(pat: Pattern, s: string)
    ensures CountIf(Sub(pat, s), IsDigit) <= CountIf(s, IsDigit)
    ensures CountIf(Sub(pat, s), IsAt) <= CountIf(s, IsAt)
  {
    PlaceholderCounts(pat);
    SubFromCountIf(pat, s, 0, IsDigit);
    SubFromCountIf(pat, s, 0, IsAt);
    assert s[0..] == s;
  }

  // ---------------------------------------------------------------------
  // The email pass

  /** Every email match holds an `@`. */
  lemma EmailMatchHasAt(s: string, k: int, j: int)
    ensures IsMatchAt(Email, s, k, j) ==> '@' in s
  {
    if IsMatchAt(Email, s, k, j) {
      var a, d :| EmailShape(s, k, a, d, j);
      assert s[a] == '@';
    }
  }

  /** The email pass leaves a text without `@` unchanged. */
  lemma EmailPassWithoutAt(s: string)
    requires '@' !in s
    ensures Sub(Email, s) == s
  {
    forall k, j | 0 <= k < |s| ensures !IsMatchAt(Email, s, k, j) {
      EmailMatchHasAt(s, k, j);
    }
    SubUnchanged(Email, s);
  }

  // ---------------------------------------------------------------------
  // The phone pass

  /** Every phone match holds ten digits. */
  lemma PhoneMatchHasDigits(s: string, k: int, j: int)
    ensures IsMatchAt(Phone, s, k, j) ==> CountIf(s, IsDigit) >= 10
  {
    if IsMatchAt(Phone, s, k, j) {
      var x, y :| PhoneShape(s, k, x, y) && j == k + 10 + x + y;
      PhoneDigits(s, k, x, y);
    }
  }

  /** The phone pass leaves a text with fewer than ten digits unchanged. */
  lemma PhonePassFewDigits(s: string)
    requires CountIf(s, IsDigit) < 10
    ensures Sub(Phone, s) == s
  {
    forall k, j | 0 <= k < |s| ensures !IsMatchAt(Phone, s, k, j) {
      PhoneMatchHasDigits(s, k, j);
    }
    SubUnchanged(Phone, s);
  }

  /** A phone match found before a non-digit, non-separator, non-word
      character is the same as the one found in the text cut there. */
  lemma PhoneMatchPrefix(u: string, v: string, i: nat)
    requires i <= |u|
    requires |v| > 0 ==> !IsDigit(v[0]) && !IsSep(v[0]) && !IsWordChar(v[0])
    ensures MatchEnd(Phone, u + v, i) == MatchEnd(Phone, u, i)
  {
    var t := u + v;
    forall x, y ensures PhoneShape(t, i, x, y) <==> PhoneShape(u, i, x, y) {
      PhoneShapePrefix(u, v, i, x, y);
    }
    assert PhoneAt(t, i) == PhoneAt(u, i);
  }

  /** After a non-word character the phone scan sees the rest of the text as
      if it started there. */
  lemma PhoneMatchShift(u: string, y: string, k: nat)
    requires k <= |y|
    requires |u| > 0 ==> !IsWordChar(u[|u| - 1])
    ensures MatchEnd(Phone, u + y, |u| + k) == Shifted(MatchEnd(Phone, y, k), |u|)
  {
    var t := u + y;
    forall x, y' ensures PhoneShape(t, |u| + k, x, y') <==> PhoneShape(y, k, x, y') {
      PhoneShapeShift(u, y, k, x, y');
    }
    assert PhoneAt(t, |u| + k) == PhoneAt(y, k);
  }

  /** The phone pass of `u + v`, where `v` opens with a character that is
      neither a digit, a separator nor a word character, is the pass of `u`
      followed by the pass of `u + v` from `v` on. */
  lemma PhoneSubPrefix(u: string, v: string, i: nat)
    requires i <= |u|
    requires |v| > 0 ==> !IsDigit(v[0]) && !IsSep(v[0]) && !IsWordChar(v[0])
    ensures SubFrom(Phone, u + v, i) == SubFrom(Phone, u, i) + SubFrom(Phone, u + v, |u|)
  {
    var t := u + v;
    assert t[..|u|] == u;
    PhoneEndsPrefix(u, v);
    ScanPrefix(Ends(Phone, t), t, Ends(Phone, u), u, Placeholder(Phone), i);
  }

  /** Before a character that is neither a digit, a separator nor a word
      character, the phone match ends are those of the text cut there. */
  lemma PhoneEndsPrefix(u: string, v: string)
    requires |v| > 0 ==> !IsDigit(v[0]) && !IsSep(v[0]) && !IsWordChar(v[0])
    ensures Ends(Phone, u + v)[..|u|] == Ends(Phone, u)
  {
    var e, f := Ends(Phone, u + v), Ends(Phone, u);
    forall m | 0 <= m < |u| ensures e[..|u|][m] == f[m] {
      PhoneMatchPrefix(u, v, m);
      EndsAt(Phone, u + v, m);
      EndsAt(Phone, u, m);
    }
  }

  /** After a non-word character, the phone pass goes on as the pass of the
      rest alone. */
  lemma PhoneSubShift(u: string, y: string, k: nat)
    requires k <= |y|
    requires |u| > 0 ==> !IsWordChar(u[|u| - 1])
    ensures SubFrom(Phone, u + y, |u| + k) == SubFrom(Phone, y, k)
  {
    assert (u + y)[|u|..] == y;
    PhoneEndsShift(u, y);
    ScanShift(Ends(Phone, u + y), u + y, |u|, Ends(Phone, y), y, Placeholder(Phone), k);
  }

  /** After a non-word character, the phone match ends of the rest are the
      ones it has alone, shifted. */
  lemma PhoneEndsShift(u: string, y: string)
    requires |u| > 0 ==> !IsWordChar(u[|u| - 1])
    ensures Ends(Phone, u + y)[|u|..] == ShiftedAll(Ends(Phone, y), |u|)
  {
    var e, f := Ends(Phone, u + y), Ends(Phone, y);
    forall m | 0 <= m < |y| ensures e[|u|..][m] == ShiftedAll(f, |u|)[m] {
      PhoneEndShift(u, y, m);
    }
  }

  lemma PhoneEndShift(u: string, y: string, m: nat)
    requires m < |y|
    requires |u| > 0 ==> !IsWordChar(u[|u| - 1])
    ensures Ends(Phone, u + y)[|u| + m] == Shifted(Ends(Phone, y)[m], |u|)
  {
    calc {
      Ends(Phone, u + y)[|u| + m];
      { EndsAt(Phone, u + y, |u| + m); }
      MatchEnd(Phone, u + y, |u| + m);
      { PhoneMatchShift(u, y, m); }
      Shifted(MatchEnd(Phone, y, m), |u|);
      { EndsAt(Phone, y, m); }
      Shifted(Ends(Phone, y)[m], |u|);
    }
  }

  /** No phone match starts at a character that is not a digit, so the phone
      pass copies such characters. */
  lemma PhoneSubSkip(t: string, a: nat, b: nat)
    requires a <= b <= |t|
    requires forall m :: a <= m < b ==> !IsDigit(t[m])
    ensures SubFrom(Phone, t, a) == t[a..b] + SubFrom(Phone, t, b)
  {
    var e := Ends(Phone, t);
    forall m | a <= m < b ensures e[m].None? {
      EndsAt(Phone, t, m);
      if PhoneAt(t, m).Some? {
        PhoneSpan(t, m, PhoneAt(t, m).value.0, PhoneAt(t, m).value.1);
      }
    }
    ScanSkip(e, Placeholder(Phone), t, a, b);
  }

  /** A text `m` without digits that opens with a character that is neither a
      separator nor a word character and closes with a non-word character
      splits the phone pass: the pass works on each side independently and
      `m` comes through unchanged. */
  lemma PhoneSubSplit(x: string, m: string, y: string)
    requires |m| > 0 && !IsSep(m[0]) && !IsWordChar(m[0]) && !IsWordChar(m[|m| - 1])
    requires forall k :: 0 <= k < |m| ==> !IsDigit(m[k])
    ensures Sub(Phone, x + m + y) == Sub(Phone, x) + m + Sub(Phone, y)
  {
    var t := x + m + y;
    var sx, sy := SubFrom(Phone, x, 0), SubFrom(Phone, y, 0);
    assert SubFrom(Phone, t, 0) == sx + SubFrom(Phone, t, |x|) by {
      assert x + (m + y) == t;
      PhoneSubPrefix(x, m + y, 0);
    }
    assert SubFrom(Phone, t, |x|) == m + sy by {
      PhoneSubMiddle(x, m, y);
    }
    assert sx + (m + sy) == sx + m + sy;
  }

  /** The middle piece of `PhoneSubSplit` is copied and the scan then sees
      `y` on its own. */
  lemma PhoneSubMiddle(x: string, m: string, y: string)
    requires |m| > 0 && !IsWordChar(m[|m| - 1])
    requires forall k :: 0 <= k < |m| ==> !IsDigit(m[k])
    ensures SubFrom(Phone, x + m + y, |x|) == m + SubFrom(Phone, y, 0)
  {
    var t, w := x + m + y, x + m;
    assert w + y == t && w[|w| - 1] == m[|m| - 1];
    forall k | |x| <= k < |w| ensures !IsDigit(t[k]) {
      assert t[k] == m[k - |x|];
    }
    PhoneSubSkip(t, |x|, |w|);
    assert t[|x|..|w|] == m;
    PhoneSubShift(w, y, 0);
  }

  /** The email placeholder survives the phone pass: once an address has
      become `[EMAIL]`, none of its digits can be taken for a phone number,
      and the text on either side is scanned on its own. */
  lemma PhonePassKeepsEmailPlaceholder(x: string, y: string)
    ensures Sub(Phone, x + Placeholder(Email) + y) == Sub(Phone, x) + Placeholder(Email) + Sub(Phone, y)
  {
    var m := Placeholder(Email);
    assert forall k :: 0 <= k < |m| ==> !IsDigit(m[k]);
    PhoneSubSplit(x, m, y);
  }

  // ---------------------------------------------------------------------
  // Nothing left to match

  /** `[`, then characters that are neither `@` nor digits, then `]`: the
      shape of both placeholders. */
  predicate Bracketed(ph: string) {
    |ph| >= 2 && ph[0] == '[' && ph[|ph| - 1] == ']' &&
    forall m :: 0 < m < |ph| - 1 ==> ph[m] != '@' && !IsDigit(ph[m])
  }

  /** What every match of either pattern looks like: non-empty, with `\b` at
      both ends, no bracket inside, an `@` or a digit somewhere, and a last
      character that is not "\n". */
  predicate MatchLike(t: string, k: int, j: int) {
    0 <= k < j <= |t| && Boundary(t, k) && Boundary(t, j) &&
    (forall m :: k <= m < j ==> t[m] != '[' && t[m] != ']') &&
    (exists m :: k <= m < j && (t[m] == '@' || IsDigit(t[m]))) &&
    t[j - 1] != '\n'
  }

  lemma MatchFacts(q: Pattern, t: string, k: int, j: int)
    ensures IsMatchAt(q, t, k, j) ==> MatchLike(t, k, j)
  {
    if IsMatchAt(q, t, k, j) {
      match q
      case Email =>
        var a, d :| EmailShape(t, k, a, d, j);
        forall m | k <= m < j ensures t[m] != '[' && t[m] != ']' {
          if m < a {
            assert InClass(Local, t[m]);
          } else if a < m < d {
            assert InClass(Domain, t[m]);
          } else if d < m {
            assert InClass(Tld, t[m]);
          }
        }
        assert t[a] == '@';
        assert InClass(Tld, t[j - 1]);
      case Phone =>
        var x, y :| PhoneShape(t, k, x, y) && j == k + 10 + x + y;
        PhoneSpan(t, k, x, y);
        assert DigitsAt(t, k + 6 + x + y, 4);
        assert IsDigit(t[j - 1]);
    }
  }

  /** `t[k..j]` reads the same as `s` from `k2` on. */
  predicate SameWindow(t: string, k: int, j: int, s: string, k2: int) {
    0 <= k <= j <= |t| && 0 <= k2 && k2 + (j - k) <= |s| &&
    forall m :: k <= m < j ==> t[m] == s[k2 + (m - k)]
  }

  /** A run of one class inside the window is a run in `s` too. */
  lemma RunMoves(t: string, k: int, j: int, s: string, k2: int, c: CharClass, a: int, b: int)
    requires SameWindow(t, k, j, s, k2) && k <= a <= b <= j && RunOf(t, c, a, b)
    ensures 0 <= a + (k2 - k) && RunOf(s, c, a + (k2 - k), b + (k2 - k))
  {
    var o := k2 - k;
    forall m | a + o <= m < b + o ensures InClass(c, s[m]) {
      assert t[m - o] == s[k2 + (m - o - k)];
    }
  }

  /** Digits inside the window are digits in `s` too. */
  lemma DigitsMove(t: string, k: int, j: int, s: string, k2: int, x: int, n: nat)
    requires SameWindow(t, k, j, s, k2) && k <= x && x + n <= j && DigitsAt(t, x, n)
    ensures DigitsAt(s, x + (k2 - k), n)
  {
    var o := k2 - k;
    forall m | x + o <= m < x + o + n ensures IsDigit(s[m]) {
      assert t[m - o] == s[k2 + (m - o - k)];
    }
  }

  lemma EmailMoves(t: string, k: int, a: int, d: int, j: int, s: string, k2: int)
    requires EmailShape(t, k, a, d, j) && SameWindow(t, k, j, s, k2)
    requires Boundary(s, k2) && Boundary(s, k2 + (j - k))
    ensures EmailShape(s, k2, a + (k2 - k), d + (k2 - k), k2 + (j - k))
  {
    var o := k2 - k;
    RunMoves(t, k, j, s, k2, Local, k, a);
    RunMoves(t, k, j, s, k2, Domain, a + 1, d);
    RunMoves(t, k, j, s, k2, Tld, d + 1, j);
    assert t[a] == s[k2 + (a - k)];
    assert t[d] == s[k2 + (d - k)];
  }

  lemma PhoneMoves(t: string, k: int, x: int, y: int, s: string, k2: int)
    requires PhoneShape(t, k, x, y) && SameWindow(t, k, k + 10 + x + y, s, k2)
    requires Boundary(s, k2) && Boundary(s, k2 + 10 + x + y)
    ensures PhoneShape(s, k2, x, y)
  {
    var j := k + 10 + x + y;
    DigitsMove(t, k, j, s, k2, k, 3);
    DigitsMove(t, k, j, s, k2, k + 3 + x, 3);
    DigitsMove(t, k, j, s, k2, k + 6 + x + y, 4);
    if x == 1 {
      assert t[k + 3] == s[k2 + 3];
    }
    if y == 1 {
      assert t[k + 6 + x] == s[k2 + 6 + x];
    }
  }

  /** A match read in `t` is a match in `s` wherever `s` holds the same
      characters and has `\b` at both ends: nothing outside the window but
      the two `\b` tests decides a match. */
  lemma MatchMoves(q: Pattern, t: string, k: int, j: int, s: string, k2: int)
    requires IsMatchAt(q, t, k, j) && SameWindow(t, k, j, s, k2)
    requires Boundary(s, k2) && Boundary(s, k2 + (j - k))
    ensures IsMatchAt(q, s, k2, k2 + (j - k))
  {
    match q
    case Email =>
      var a, d :| EmailShape(t, k, a, d, j);
      EmailMoves(t, k, a, d, j, s, k2);
    case Phone =>
      var x, y :| PhoneShape(t, k, x, y) && j == k + 10 + x + y;
      PhoneMoves(t, k, x, y, s, k2);
  }

  /** The characters of a stretch `t[L..L + (hi - lo)]` copied from `s[lo..hi]`. */
  lemma StretchChars(s: string, lo: nat, hi: nat, t: string, L: nat)
    requires lo <= hi <= |s| && L + (hi - lo) <= |t| && t[L..L + (hi - lo)] == s[lo..hi]
    ensures forall m :: L <= m < L + (hi - lo) ==> t[m] == s[lo + (m - L)]
  {
    forall m | L <= m < L + (hi - lo) ensures t[m] == s[lo + (m - L)] {
      assert t[m] == t[L..L + (hi - lo)][m - L];
    }
  }

  /** `\b` at a position of the stretch in `t` is `\b` in `s`, where the
      stretch starts either at `\b` in `s` or at the start of both texts. */
  lemma StretchStartBoundary(s: string, lo: nat, hi: nat, t: string, L: nat, k: int)
    requires lo <= hi <= |s| && L + (hi - lo) <= |t|
    requires forall m :: L <= m < L + (hi - lo) ==> t[m] == s[lo + (m - L)]
    requires Boundary(s, lo) || (lo == 0 && L == 0)
    requires L <= k < L + (hi - lo) && Boundary(t, k)
    ensures Boundary(s, lo + (k - L))
  {
    assert t[k] == s[lo + (k - L)];
    if k > L {
      assert t[k - 1] == s[lo + (k - 1 - L)];
    }
  }

  /** The same for a position at which a match in the stretch ends. */
  lemma StretchEndBoundary(s: string, lo: nat, hi: nat, t: string, L: nat, j: int)
    requires lo <= hi <= |s| && L + (hi - lo) <= |t|
    requires forall m :: L <= m < L + (hi - lo) ==> t[m] == s[lo + (m - L)]
    requires Boundary(s, hi) || (hi == |s| && L + (hi - lo) == |t|)
    requires L < j <= L + (hi - lo) && Boundary(t, j)
    ensures Boundary(s, lo + (j - L))
  {
    assert t[j - 1] == s[lo + (j - 1 - L)];
    if j < L + (hi - lo) {
      assert t[j] == s[lo + (j - L)];
    }
  }

  /** A match inside a stretch `t[L..L + (hi - lo)]` copied from `s[lo..hi]`
      is a match in `s`, when each end of the stretch is `\b` in `s` or the
      end of both texts. */
  lemma CopiedWindow(q: Pattern, s: string, lo: nat, hi: nat, t: string, L: nat, k: int, j: int)
    requires lo <= hi <= |s| && L + (hi - lo) <= |t| && t[L..L + (hi - lo)] == s[lo..hi]
    requires Boundary(s, lo) || (lo == 0 && L == 0)
    requires Boundary(s, hi) || (hi == |s| && L + (hi - lo) == |t|)
    requires L <= k
    ensures IsMatchAt(q, t, k, j) && j <= L + (hi - lo) ==> IsMatchAt(q, s, lo + (k - L), lo + (j - L))
  {
    if IsMatchAt(q, t, k, j) && j <= L + (hi - lo) {
      MatchFacts(q, t, k, j);
      StretchChars(s, lo, hi, t, L);
      var k2 := lo + (k - L);
      StretchStartBoundary(s, lo, hi, t, L, k);
      StretchEndBoundary(s, lo, hi, t, L, j);
      assert SameWindow(t, k, j, s, k2);
      MatchMoves(q, t, k, j, s, k2);
    }
  }

  /** No match starts inside a placeholder written into `t` at `L`. */
  lemma PlaceholderWindow(q: Pattern, t: string, L: nat, ph: string, k: int, j: int)
    requires Bracketed(ph) && L + |ph| <= |t| && t[L..L + |ph|] == ph
    requires L <= k < L + |ph|
    ensures !IsMatchAt(q, t, k, j)
  {
    MatchFacts(q, t, k, j);
    assert t[L] == '[';
    assert t[L + |ph| - 1] == ']';
    forall m | L < m < L + |ph| - 1 ensures t[m] != '@' && !IsDigit(t[m]) {
      assert t[m] == ph[m - L];
    }
  }

  /** The first position at or after `i` where a match was found, or the
      end of the text. */
  ghost function NextMatch(e: seq<Option<nat>>, i: nat): (m: nat)
    requires i <= |e|
    ensures i <= m <= |e| && (m < |e| ==> e[m].Some?)
    ensures forall x :: i <= x < m ==> e[x].None?
    decreases |e| - i
  {
    if i == |e| || e[i].Some? then i else NextMatch(e, i + 1)
  }

  /** What the scan needs to leave no match of `q` behind: a placeholder of
      the shape above, `\b` on both sides of every match found, and no match
      of `q` at a position the scan copies. */
  ghost predicate ScanKeeps(q: Pattern, e: seq<Option<nat>>, ph: string, s: string) {
    ValidEnds(e, |s|) && Bracketed(ph) &&
    (forall m :: 0 <= m < |s| && e[m].Some? ==> Boundary(s, m) && Boundary(s, e[m].value)) &&
    (forall m, j :: 0 <= m < |s| && e[m].None? ==> !IsMatchAt(q, s, m, j))
  }

  /** A stretch `t[P..]` copied from the end `s[i..]` of a text in which no
      match of `q` starts from `i` on holds no match of `q`. */
  lemma CopiedTail(q: Pattern, s: string, i: nat, t: string, P: nat)
    requires i <= |s| && |t| == P + (|s| - i) && t[P..] == s[i..]
    requires Boundary(s, i) || (i == 0 && P == 0)
    requires forall x, j :: i <= x < |s| ==> !IsMatchAt(q, s, x, j)
    ensures forall k, j :: P <= k ==> !IsMatchAt(q, t, k, j)
  {
    assert t[P..P + (|s| - i)] == s[i..|s|];
    forall k, j | P <= k ensures !IsMatchAt(q, t, k, j) {
      MatchFacts(q, t, k, j);
      CopiedWindow(q, s, i, |s|, t, P, k, j);
    }
  }

  /** A stretch `s[i..m]`, where no match of `q` starts, copied after `p`
      and followed by a placeholder holds no match of `q` starting in either,
      when `s` has `\b` at `m`. */
  lemma CopiedThenPlaceholder(q: Pattern, s: string, i: nat, m: nat, p: string, ph: string, rest: string)
    requires i <= m <= |s| && Boundary(s, m) && Bracketed(ph)
    requires Boundary(s, i) || (i == 0 && p == [])
    requires forall x, j :: i <= x < m ==> !IsMatchAt(q, s, x, j)
    ensures forall k, j :: |p| <= k < |p| + (m - i) + |ph| ==> !IsMatchAt(q, p + s[i..m] + ph + rest, k, j)
  {
    var t := p + s[i..m] + ph + rest;
    var L := |p| + (m - i);
    assert t[|p|..L] == s[i..m];
    assert t[L..L + |ph|] == ph;
    assert t[L] == '[';
    forall k, j | |p| <= k < L + |ph| ensures !IsMatchAt(q, t, k, j) {
      if k >= L {
        PlaceholderWindow(q, t, L, ph, k, j);
      } else {
        MatchFacts(q, t, k, j);
        CopiedWindow(q, s, i, m, t, |p|, k, j);
      }
    }
  }

  /** Where the scan copies, `q` does not match. */
  lemma CopiedNoMatch(q: Pattern, e: seq<Option<nat>>, ph: string, s: string, i: nat, m: nat)
    requires ScanKeeps(q, e, ph, s) && i <= m <= |s|
    requires forall x :: i <= x < m ==> e[x].None?
    ensures forall x, j :: i <= x < m ==> !IsMatchAt(q, s, x, j)
  {
  }

  /** The scan from `i`, written after `p`, leaves no match of `q` starting
      in what it wrote. `p` is empty when `i` is 0, and otherwise ends with a
      placeholder, after which `s` has `\b` at `i`. */
  lemma {:induction false} ScanLeavesNoMatch(q: Pattern, e: seq<Option<nat>>, ph: string, s: string, i: nat, p: string)
    requires ScanKeeps(q, e, ph, s) && i <= |s|
    requires (i == 0 && p == []) || (|p| > 0 && p[|p| - 1] == ']' && Boundary(s, i))
    ensures forall k, j :: |p| <= k ==> !IsMatchAt(q, p + Scan(e, ph, s, i), k, j)
    decreases |s| - i, 1
  {
    var m := NextMatch(e, i);
    CopiedNoMatch(q, e, ph, s, i, m);
    if m == |s| {
      ScanSkip(e, ph, s, i, |s|);
      assert p + Scan(e, ph, s, i) == p + s[i..];
      CopiedTail(q, s, i, p + s[i..], |p|);
    } else {
      ScanLeavesNoMatchAt(q, e, ph, s, i, p, m);
    }
  }

  /** `ScanLeavesNoMatch` when the first match from `i` on is at `m`. */
  lemma {:induction false} ScanLeavesNoMatchAt(q: Pattern, e: seq<Option<nat>>, ph: string, s: string, i: nat, p: string, m: nat)
    requires ScanKeeps(q, e, ph, s) && i <= m < |s| && e[m].Some?
    requires forall x, j :: i <= x < m ==> !IsMatchAt(q, s, x, j)
    requires forall x :: i <= x < m ==> e[x].None?
    requires (i == 0 && p == []) || (|p| > 0 && p[|p| - 1] == ']' && Boundary(s, i))
    ensures forall k, j :: |p| <= k ==> !IsMatchAt(q, p + Scan(e, ph, s, i), k, j)
    decreases |s| - i, 0
  {
    var j := e[m].value;
    ScanLeftmost(e, ph, s, i, m, j);
    assert p + Scan(e, ph, s, i) == p + s[i..m] + ph + Scan(e, ph, s, j);
    ScanLeavesNoMatch(q, e, ph, s, j, p + s[i..m] + ph);
    CopiedThenPlaceholder(q, s, i, m, p, ph, Scan(e, ph, s, j));
  }

  /** The match ends the engine records have `\b` on both sides. */
  lemma EndsAtBoundaries(pat: Pattern, s: string)
    ensures forall m :: 0 <= m < |s| && Ends(pat, s)[m].Some? ==>
      Boundary(s, m) && Boundary(s, Ends(pat, s)[m].value)
  {
    var e := Ends(pat, s);
    forall m | 0 <= m < |s| && e[m].Some? ensures Boundary(s, m) && Boundary(s, e[m].value) {
      EndsAt(pat, s, m);
      MatchEndSpec(pat, s, m);
      MatchFacts(pat, s, m, e[m].value);
    }
  }

  /** After a pass, its pattern matches nowhere in the output: `re.sub`
      leaves nothing it would replace. */
  lemma SubLeavesNoMatch(pat: Pattern, s: string)
    ensures forall k, j :: !IsMatchAt(pat, Sub(pat, s), k, j)
  {
    var e, ph := Ends(pat, s), Placeholder(pat);
    EndsAtBoundaries(pat, s);
    forall m, j | 0 <= m < |s| && e[m].None? ensures !IsMatchAt(pat, s, m, j) {
      EndsAt(pat, s, m);
      MatchEndSpec(pat, s, m);
    }
    ScanLeavesNoMatch(pat, e, ph, s, 0, []);
    assert [] + Scan(e, ph, s, 0) == Sub(pat, s);
    forall k, j ensures !IsMatchAt(pat, Sub(pat, s), k, j) {
      MatchFacts(pat, Sub(pat, s), k, j);
    }
  }

  /** A pass never creates a match of a pattern that matched nowhere in its
      input: the phone pass cannot make an address out of what the email
      pass left, nor the reverse. */
  lemma SubKeepsNoMatch(pat: Pattern, q: Pattern, s: string)
    requires forall k, j :: !IsMatchAt(q, s, k, j)
    ensures forall k, j :: !IsMatchAt(q, Sub(pat, s), k, j)
  {
    var e, ph := Ends(pat, s), Placeholder(pat);
    EndsAtBoundaries(pat, s);
    ScanLeavesNoMatch(q, e, ph, s, 0, []);
    assert [] + Scan(e, ph, s, 0) == Sub(pat, s);
    forall k, j ensures !IsMatchAt(q, Sub(pat, s), k, j) {
      MatchFacts(q, Sub(pat, s), k, j);
    }
  }

  /** A second pass changes nothing. */
  lemma SubIdempotent(pat: Pattern, s: string)
    ensures Sub(pat, Sub(pat, s)) == Sub(pat, s)
  {
    SubLeavesNoMatch(pat, s);
    SubUnchanged(pat, Sub(pat, s));
  }

  // ---------------------------------------------------------------------
  // Lines stay lines

  /** When no match reaches the end of the text, the scan ends with the
      text's last character. */
  lemma {:induction false} ScanKeepsLast(e: seq<Option<nat>>, ph: string, s: string, i: nat)
    requires ValidEnds(e, |s|) && i < |s|
    requires forall m :: 0 <= m < |s| && e[m].Some? ==> e[m].value < |s|
    ensures |Scan(e, ph, s, i)| > 0 && Scan(e, ph, s, i)[|Scan(e, ph, s, i)| - 1] == s[|s| - 1]
    decreases |s| - i
  {
    match e[i]
    case Some(j) =>
      ScanKeepsLast(e, ph, s, j);
    case None =>
      if i + 1 < |s| {
        ScanKeepsLast(e, ph, s, i + 1);
      }
  }

  /** A pass keeps a final "\n": no match takes it. */
  lemma SubKeepsFinalNewline(pat: Pattern, x: string)
    requires EndsWithNewline(x)
    ensures EndsWithNewline(Sub(pat, x))
  {
    var e := Ends(pat, x);
    forall m | 0 <= m < |x| && e[m].Some? ensures e[m].value < |x| {
      EndsAt(pat, x, m);
      MatchEndSpec(pat, x, m);
      MatchFacts(pat, x, m, e[m].value);
    }
    ScanKeepsLast(e, Placeholder(pat), x, 0);
  }

  /** A pass keeps a well-formed line well-formed, ending in "\n" exactly
      when it did: no match takes a final "\n" and the placeholders hold none. */
  lemma SubKeepsLine(pat: Pattern, x: string)
    requires IsLine(x)
    ensures IsLine(Sub(pat, x)) && EndsWithNewline(Sub(pat, x)) == EndsWithNewline(x)
  {
    CountIfNone(Placeholder(pat), IsNewline);
    SubFromCountIf(pat, x, 0, IsNewline);
    assert x[0..] == x;
    if EndsWithNewline(x) {
      SubKeepsFinalNewline(pat, x);
    }
    LineStep(x, Sub(pat, x));
  }
}
