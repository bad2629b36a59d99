/** The email pattern of anonymize.py,
      \b[A-Za-z0-9._%+-]+@[A-Za-z0-9.-]+\.[A-Z|a-z]{2,}\b
    as a hand-written matcher that makes the choices Python's backtracking
    engine makes. Inside `[A-Z|a-z]` the bar is a literal character, so the
    top-level domain may contain `|`. */
module EmailPattern {
  import opened Chars
  import opened Substrings

  /** The three character classes of the pattern. */
  datatype CharClass =
    | Local   // [A-Za-z0-9._%+-]
    | Domain  // [A-Za-z0-9.-]
    | Tld     // [A-Z|a-z]

  predicate InClass(k: CharClass, c: char) {
    match k
    case Local => IsAsciiLetter(c) || IsDigit(c) || c == '.' || c == '_' || c == '%' || c == '+' || c == '-'
    case Domain => IsAsciiLetter(c) || IsDigit(c) || c == '.' || c == '-'
    case Tld => IsAsciiLetter(c) || c == '|'
  }

  /** Every character of `s` with index in `a..b` belongs to class `k`. */
  predicate RunOf(s: string, k: CharClass, a: int, b: int)
    requires 0 <= a && b <= |s|
  {
    forall m :: a <= m < b ==> InClass(k, s[m])
  }

  /** The end of the longest run of class `k` starting at `i` (what a greedy
      `[...]+` first tries). */
  function RunEnd(s: string, k: CharClass, i: nat): (e: nat)
    requires i <= |s|
    ensures i <= e <= |s| && RunOf(s, k, i, e)
    ensures e < |s| ==> !InClass(k, s[e])
    decreases |s| - i
  {
    if i < |s| && InClass(k, s[i]) then RunEnd(s, k, i + 1) else i
  }

  /** A run of class `k` from `i` never goes past `RunEnd`, and every shorter
      prefix of that run is a run too. */
  lemma RunWithin(s: string, k: CharClass, i: nat, j: nat)
    requires i <= j <= |s|
    ensures RunOf(s, k, i, j) <==> j <= RunEnd(s, k, i)
  {
    var e := RunEnd(s, k, i);
    assert RunOf(s, k, i, e);
    if j > e {
      assert !InClass(k, s[e]);
    }
  }

  /** The part `\.[A-Z|a-z]{2,}\b` matched with the dot at `d` and ending at `j`. */
  predicate TldPart(s: string, d: int, j: int) {
    0 <= d && d + 3 <= j <= |s| && s[d] == '.' && RunOf(s, Tld, d + 1, j) && Boundary(s, j)
  }

  /** The whole pattern matched on `s[i..j]`, with the `@` at `a` and the dot
      before the top-level domain at `d`. */
  predicate EmailShape(s: string, i: int, a: int, d: int, j: int) {
    0 <= i < a && a + 1 < d && d + 3 <= j <= |s| && Boundary(s, i) && RunOf(s, Local, i, a) &&
    s[a] == '@' && RunOf(s, Domain, a + 1, d) && TldPart(s, d, j)
  }

  /** `[A-Z|a-z]{2,}\b` backtracking: try the ends `j`, `j - 1`, ..., `d + 3`
      and take the first at a word boundary. */
  function TryTld(s: string, d: nat, j: nat): (r: Option<nat>)
    requires d + 1 <= j <= |s|
    ensures r.Some? ==> d + 3 <= r.value <= j && Boundary(s, r.value)
    ensures r.Some? ==> forall j' :: r.value < j' <= j ==> !Boundary(s, j')
    ensures r.None? ==> forall j' :: d + 3 <= j' <= j ==> !Boundary(s, j')
    decreases j
  {
    if j < d + 3 then None
    else if Boundary(s, j) then Some(j)
    else TryTld(s, d, j - 1)
  }

  /** The top-level domain after the dot at `d`: the longest one that ends at
      a word boundary. */
  function TldAfter(s: string, d: nat): (r: Option<nat>)
    requires d < |s|
    ensures r.Some? ==> TldPart(s, d, r.value)
    ensures r.Some? ==> forall j' :: TldPart(s, d, j') ==> j' <= r.value
    ensures r.None? ==> forall j' :: !TldPart(s, d, j')
  {
    if s[d] != '.' then None
    else
      var t := RunEnd(s, Tld, d + 1);
      var r := TryTld(s, d, t);
      assert forall j' :: TldPart(s, d, j') ==> j' <= t by {
        forall j' | TldPart(s, d, j') ensures j' <= t {
          RunWithin(s, Tld, d + 1, j');
        }
      }
      if r.Some? then
        RunWithin(s, Tld, d + 1, r.value);
        r
      else r
  }

  /** `[A-Za-z0-9.-]+\.` backtracking: the domain run gives up characters
      from the right, so the dots at `d`, `d - 1`, ..., `a + 2` are tried in
      that order, each with its longest top-level domain. */
  function TryDots(s: string, a: nat, d: nat): (r: Option<(nat, nat)>)
    requires a + 1 <= d < |s| && RunOf(s, Domain, a + 1, d + 1)
    ensures r.Some? ==> a + 2 <= r.value.0 <= d && TldPart(s, r.value.0, r.value.1)
    ensures r.Some? ==> forall j' :: TldPart(s, r.value.0, j') ==> j' <= r.value.1
    ensures r.Some? ==> forall d', j' :: r.value.0 < d' <= d ==> !TldPart(s, d', j')
    ensures r.None? ==> forall d', j' :: a + 2 <= d' <= d ==> !TldPart(s, d', j')
    decreases d
  {
    if d < a + 2 then None
    else match TldAfter(s, d)
      case Some(j) => Some((d, j))
      case None => TryDots(s, a, d - 1)
  }

  /** Python's `re.match` of the email pattern at index `i`: the `@` is the
      first character after the longest local-part run, and among the
      matches left the engine takes the one with the rightmost dot and then
      the longest top-level domain. */
  function EmailAt(s: string, i: nat): (r: Option<(nat, nat, nat)>)
    requires i <= |s|
    ensures r.Some? ==> EmailShape(s, i, r.value.0, r.value.1, r.value.2)
    ensures r.Some? ==> forall a', d', j' :: EmailShape(s, i, a', d', j') ==>
              a' == r.value.0 && (d' < r.value.1 || (d' == r.value.1 && j' <= r.value.2))
    ensures r.None? ==> forall a', d', j' :: !EmailShape(s, i, a', d', j')
  {
    if i == |s| || !InClass(Local, s[i]) || !Boundary(s, i) then None
    else
      var a := RunEnd(s, Local, i);
      LocalPartForced(s, i);
      if a == |s| || s[a] != '@' then None
      else
        var e := RunEnd(s, Domain, a + 1);
        DomainDotsWithin(s, a);
        if e < a + 2 then None
        else match TryDots(s, a, e - 1)
          case None => None
          case Some((d, j)) => Some((a, d, j))
  }

  /** Every match starting at `i` puts its `@` right after the longest
      local-part run. */
  lemma LocalPartForced(s: string, i: nat)
    requires i <= |s|
    ensures forall a', d', j' :: EmailShape(s, i, a', d', j') ==> a' == RunEnd(s, Local, i)
  {
    var a := RunEnd(s, Local, i);
    forall a', d', j' | EmailShape(s, i, a', d', j') ensures a' == a {
      RunWithin(s, Local, i, a');
      assert RunOf(s, Local, i, a);
      assert !InClass(Local, s[a']);
    }
  }

  /** In a match with its `@` at `a`, the dot lies inside the domain run. */
  lemma DomainDotsWithin(s: string, a: nat)
    requires a < |s|
    ensures forall i, d', j' :: EmailShape(s, i, a, d', j') ==> d' < RunEnd(s, Domain, a + 1)
  {
    var e := RunEnd(s, Domain, a + 1);
    forall i, d', j' | EmailShape(s, i, a, d', j') ensures d' < e {
      assert RunOf(s, Domain, a + 1, d');
      assert InClass(Domain, s[d']);
      assert RunOf(s, Domain, a + 1, d' + 1);
      RunWithin(s, Domain, a + 1, d' + 1);
    }
  }

  /** `\b` before a local part that opens with `.`, `%`, `+` or `-` holds
      only after a word character: at the start of the text or after a
      space, no match can start on such a character. */
  lemma NoMatchAtLeadingPunctuation(s: string, i: nat)
    requires i < |s| && (s[i] == '.' || s[i] == '%' || s[i] == '+' || s[i] == '-')
    requires i == 0 || !IsWordChar(s[i - 1])
    ensures EmailAt(s, i).None?
  {
    assert !Boundary(s, i);
  }

  /** Inside `[A-Z|a-z]` the bar is literal, so a top-level domain may hold
      `|`: the whole of `a@b.c|d` is an address. */
  lemma BarInTopLevelDomain()
    ensures EmailAt("a@b.c|d", 0) == Some((1, 3, 7))
  {
    var s := "a@b.c|d";
    assert EmailShape(s, 0, 1, 3, 7);
  }
}
