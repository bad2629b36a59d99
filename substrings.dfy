/** Python's literal-substring operations on `str`: `find`, `split(sep)`,
    `sep.join`, `count`, `replace` and `readlines`, each written as the
    left-to-right, non-overlapping scan CPython performs. */
module Substrings {
  import opened Chars

  datatype Option<T> = None | Some(value: T)

  /** `p` occurs in `s` starting at index `k`. */
  predicate OccursAt(s: string, p: string, k: int) {
    0 <= k && k + |p| <= |s| && s[k..k + |p|] == p
  }

  /** `p in s`. */
  predicate Contains(s: string, p: string) {
    exists k :: 0 <= k <= |s| - |p| && OccursAt(s, p, k)
  }

  /** `s.find(p, i)`: the first occurrence of `p` at or after index `i`. */
  function FindFrom(s: string, p: string, i: nat): (r: Option<nat>)
    requires i <= |s|
    ensures r.Some? ==> i <= r.value && r.value + |p| <= |s|
    decreases |s| - i
  {
    if i + |p| > |s| then None
    else if s[i..i + |p|] == p then Some(i)
    else FindFrom(s, p, i + 1)
  }

  /** `FindFrom` finds the first occurrence at or after `i`, and finds
      nothing only when there is none. */
  lemma {:induction false} FindFromSpec(s: string, p: string, i: nat)
    requires i <= |s|
    ensures var r := FindFrom(s, p, i);
      (r.Some? ==> OccursAt(s, p, r.value) && forall k :: i <= k < r.value ==> !OccursAt(s, p, k)) &&
      (r.None? ==> forall k :: i <= k ==> !OccursAt(s, p, k))
    decreases |s| - i
  {
    if i + |p| <= |s| && s[i..i + |p|] != p {
      FindFromSpec(s, p, i + 1);
    }
  }

  /** `s.split(sep)` on the suffix starting at `i`. */
  function SplitFrom(s: string, sep: string, i: nat): (parts: seq<string>)
    requires |sep| > 0 && i <= |s|
    ensures |parts| >= 1
    decreases |s| - i
  {
    match FindFrom(s, sep, i)
    case None => [s[i..]]
    case Some(k) => [s[i..k]] + SplitFrom(s, sep, k + |sep|)
  }

  /** `s.split(sep)`; CPython rejects an empty separator. */
  function Split(s: string, sep: string): seq<string>
    requires |sep| > 0
  {
    SplitFrom(s, sep, 0)
  }

  /** `sep.join(parts)`. */
  function Join(parts: seq<string>, sep: string): string
    decreases |parts|
  {
    if |parts| == 0 then []
    else if |parts| == 1 then parts[0]
    else parts[0] + sep + Join(parts[1..], sep)
  }

  /** `s.count(p, i)`: non-overlapping occurrences, scanning one character
      at a time and jumping over each occurrence found. */
  function CountFrom(s: string, p: string, i: nat): nat
    requires |p| > 0 && i <= |s|
    decreases |s| - i
  {
    if i + |p| > |s| then 0
    else if s[i..i + |p|] == p then 1 + CountFrom(s, p, i + |p|)
    else CountFrom(s, p, i + 1)
  }

  function Count(s: string, p: string): nat
    requires |p| > 0
  {
    CountFrom(s, p, 0)
  }

  /** `s.replace(target, repl)` on the suffix starting at `i`, for non-empty `target`. */
  function ReplaceFrom(s: string, target: string, repl: string, i: nat): string
    requires |target| > 0 && i <= |s|
    decreases |s| - i
  {
    match FindFrom(s, target, i)
    case None => s[i..]
    case Some(k) => s[i..k] + repl + ReplaceFrom(s, target, repl, k + |target|)
  }

  /** `s.replace("", repl)`: `repl` before every character and once at the end. */
  function InsertEverywhere(s: string, repl: string): string
    decreases |s|
  {
    if |s| == 0 then repl else repl + [s[0]] + InsertEverywhere(s[1..], repl)
  }

  /** `s.replace(target, repl)`. */
  function Replace(s: string, target: string, repl: string): string {
    if |target| == 0 then InsertEverywhere(s, repl) else ReplaceFrom(s, target, repl, 0)
  }

  /** `"".join(parts)`, also what `writelines` writes. */
  function Concat(parts: seq<string>): string
    decreases |parts|
  {
    if |parts| == 0 then [] else parts[0] + Concat(parts[1..])
  }

  /** `readlines()` on text already read in universal-newline mode, from
      index `i`: every line keeps its terminating "\n"; the last may lack one. */
  function LinesFrom(s: string, i: nat): seq<string>
    requires i <= |s|
    decreases |s| - i
  {
    if i == |s| then []
    else match FindFrom(s, "\n", i)
      case None => [s[i..]]
      case Some(k) => [s[i..k + 1]] + LinesFrom(s, k + 1)
  }

  function Lines(s: string): seq<string> {
    LinesFrom(s, 0)
  }

  /** A line of `readlines()` that is terminated by "\n". */
  predicate EndsWithNewline(line: string) {
    |line| > 0 && line[|line| - 1] == '\n'
  }

  /** A well-formed line: non-empty, and its only "\n", if any, is its last character. */
  predicate IsLine(line: string) {
    |line| > 0 && forall k :: 0 <= k < |line| - 1 ==> line[k] != '\n'
  }

  // ---------------------------------------------------------------------
  // Occurrences inside slices and concatenations

  /** An occurrence inside `s[a..b]` is an occurrence in `s`, shifted by `a`. */
  lemma SliceOccurs(s: string, p: string, a: nat, b: nat, m: nat)
    requires a <= b <= |s| && m + |p| <= b - a
    ensures OccursAt(s[a..b], p, m) == OccursAt(s, p, a + m)
  {
    var inner, outer := s[a..b][m..m + |p|], s[a + m..a + m + |p|];
    forall x | 0 <= x < |p| ensures inner[x] == outer[x] {
    }
    assert inner == outer;
  }

  /** A one-character pattern occurs exactly where that character stands. */
  lemma OccursChar(s: string, c: char, k: nat)
    requires k < |s|
    ensures OccursAt(s, [c], k) == (s[k] == c)
  {
    assert s[k..k + 1] == [s[k]];
  }

  /** A slice `s[a..b]` holding no occurrence of `p` that lies within
      `a..b` in `s` does not contain `p`. */
  lemma SliceBeforeFirst(s: string, p: string, a: nat, b: nat)
    requires a <= b <= |s|
    requires forall k :: a <= k && k + |p| <= b ==> !OccursAt(s, p, k)
    ensures !Contains(s[a..b], p)
  {
    forall m | 0 <= m <= b - a - |p| ensures !OccursAt(s[a..b], p, m) {
      SliceOccurs(s, p, a, b, m);
    }
  }

  /** A slice of a text that does not contain `p` does not contain it either. */
  lemma SliceAvoids(s: string, p: string, a: nat, b: nat)
    requires a <= b <= |s| && !Contains(s, p)
    ensures !Contains(s[a..b], p)
  {
    forall k | a <= k && k + |p| <= b ensures !OccursAt(s, p, k) {
      assert k <= |s| - |p|;
    }
    SliceBeforeFirst(s, p, a, b);
  }

  /** `FindFrom` returns the first occurrence at or after `i`. */
  lemma {:induction false} FindFirst(s: string, p: string, i: nat, j: nat)
    requires i <= j <= |s| && OccursAt(s, p, j)
    requires forall k :: i <= k < j ==> !OccursAt(s, p, k)
    ensures FindFrom(s, p, i) == Some(j)
    decreases j - i
  {
    if i < j {
      assert !OccursAt(s, p, i);
      FindFirst(s, p, i + 1, j);
    }
  }

  // ---------------------------------------------------------------------
  // split / join

  /** Joining the pieces of a split with the separator gives back the text. */
  lemma {:induction false} JoinSplitFrom(s: string, sep: string, i: nat)
    requires |sep| > 0 && i <= |s|
    ensures Join(SplitFrom(s, sep, i), sep) == s[i..]
    decreases |s| - i
  {
    match FindFrom(s, sep, i)
    case None =>
      SplitFromLast(s, sep, i);
    case Some(k) =>
      var rest := SplitFrom(s, sep, k + |sep|);
      calc {
        Join(SplitFrom(s, sep, i), sep);
        { SplitFromFound(s, sep, i, k, k + |sep|); }
        Join([s[i..k]] + rest, sep);
        { JoinFront(s[i..k], rest, sep); }
        s[i..k] + sep + Join(rest, sep);
        { JoinSplitFrom(s, sep, k + |sep|); }
        s[i..k] + sep + s[k + |sep|..];
        { FindFromSpec(s, sep, i); SliceAround(s, sep, i, k); }
        s[i..];
      }
  }

  /** One step of `SplitFrom` when the separator is found at `k`. */
  lemma SplitFromFound(s: string, sep: string, i: nat, k: nat, j: nat)
    requires |sep| > 0 && i <= |s| && FindFrom(s, sep, i) == Some(k) && j == k + |sep|
    ensures i <= k && j <= |s|
    ensures SplitFrom(s, sep, i) == [s[i..k]] + SplitFrom(s, sep, j)
  {
  }

  /** The last step of `SplitFrom`, when no separator is left. */
  lemma SplitFromLast(s: string, sep: string, i: nat)
    requires |sep| > 0 && i <= |s| && FindFrom(s, sep, i).None?
    ensures SplitFrom(s, sep, i) == [s[i..]]
  {
  }

  /** Equal lists of parts have equal joins. */
  lemma JoinOf(p: seq<string>, q: seq<string>, sep: string)
    requires p == q
    ensures Join(p, sep) == Join(q, sep)
  {
  }

  /** `sep.join` of a list of at least two parts, at its first part. */
  lemma JoinFront(a: string, rest: seq<string>, sep: string)
    requires |rest| >= 1
    ensures Join([a] + rest, sep) == a + sep + Join(rest, sep)
  {
    assert ([a] + rest)[1..] == rest;
  }

  /** A suffix that holds `sep` at `k` is the text before it, `sep`, and the text after it. */
  lemma SliceAround(s: string, sep: string, i: nat, k: nat)
    requires i <= k && OccursAt(s, sep, k)
    ensures s[i..] == s[i..k] + sep + s[k + |sep|..]
  {
    assert s[i..] == s[i..k] + s[k..k + |sep|] + s[k + |sep|..];
  }

  lemma JoinSplit(s: string, sep: string)
    requires |sep| > 0
    ensures Join(Split(s, sep), sep) == s
  {
    JoinSplitFrom(s, sep, 0);
  }

  /** No piece of a split contains the separator. */
  lemma {:induction false} SplitFromPiecesFree(s: string, sep: string, i: nat)
    requires |sep| > 0 && i <= |s|
    ensures forall j :: 0 <= j < |SplitFrom(s, sep, i)| ==> !Contains(SplitFrom(s, sep, i)[j], sep)
    decreases |s| - i
  {
    FindFromSpec(s, sep, i);
    match FindFrom(s, sep, i)
    case None =>
      SliceBeforeFirst(s, sep, i, |s|);
      SplitFromLast(s, sep, i);
      assert s[i..] == s[i..|s|];
    case Some(k) =>
      SliceBeforeFirst(s, sep, i, k);
      SplitFromFound(s, sep, i, k, k + |sep|);
      SplitFromPiecesFree(s, sep, k + |sep|);
      FreeFront(s[i..k], SplitFrom(s, sep, k + |sep|), sep);
  }

  /** A piece without the separator in front of pieces without it. */
  lemma FreeFront(h: string, rest: seq<string>, sep: string)
    requires !Contains(h, sep) && forall j :: 0 <= j < |rest| ==> !Contains(rest[j], sep)
    ensures forall j :: 0 <= j < |[h] + rest| ==> !Contains(([h] + rest)[j], sep)
  {
    forall j | 1 <= j < |[h] + rest| ensures ([h] + rest)[j] == rest[j - 1] {
    }
  }

  lemma SplitPiecesFree(s: string, sep: string)
    requires |sep| > 0
    ensures forall j :: 0 <= j < |Split(s, sep)| ==> !Contains(Split(s, sep)[j], sep)
  {
    SplitFromPiecesFree(s, sep, 0);
  }

  /** A text without the separator (the empty text included) splits into itself alone. */
  lemma SplitWithoutSeparator(s: string, sep: string)
    requires |sep| > 0 && !Contains(s, sep)
    ensures Split(s, sep) == [s]
  {
    forall k | 0 <= k ensures !OccursAt(s, sep, k) {
      if k <= |s| - |sep| {
        assert !OccursAt(s, sep, k);
      }
    }
    FindFromSpec(s, sep, 0);
    assert s[0..] == s;
  }

  /** `sep` stands right after the first piece of a join. */
  lemma SepInside(a: string, sep: string, u: string)
    ensures OccursAt(a + sep + u, sep, |a|) && Contains(a + sep + u, sep)
  {
    assert (a + sep + u)[|a|..|a| + |sep|] == sep;
    assert OccursAt(a + sep + u, sep, |a|);
  }

  /** The join of two or more pieces contains the separator. */
  lemma JoinHasSep(parts: seq<string>, sep: string)
    ensures |parts| >= 2 ==> Contains(Join(parts, sep), sep)
  {
    if |parts| >= 2 {
      SepInside(parts[0], sep, Join(parts[1..], sep));
    }
  }

  /** Of two texts that both run up to the same one-character separator, the
      shorter one holds the separator where the longer one's stands. */
  lemma SepBeforeEnd(a: string, b: string, sep: string, u: string, v: string)
    requires |sep| == 1 && a + sep + u == b + sep + v
    ensures |a| < |b| ==> OccursAt(b, sep, |a|)
  {
    if |a| < |b| {
      var x := a + sep + u;
      assert x[|a|] == sep[0] && x[|a|] == b[|a|];
      assert b[|a|..|a| + 1] == sep;
    }
  }

  /** A join with a one-character separator determines its first piece when
      no piece holds the separator. */
  lemma HeadsAgree(a: string, b: string, sep: string, u: string, v: string)
    requires |sep| == 1 && !Contains(a, sep) && !Contains(b, sep) && a + sep + u == b + sep + v
    ensures a == b && u == v
  {
    SepBeforeEnd(a, b, sep, u, v);
    SepBeforeEnd(b, a, sep, v, u);
    var x := a + sep + u;
    assert |a| == |b|;
    assert a == x[..|a|] && b == x[..|b|];
    assert u == x[|a| + 1..] && v == x[|b| + 1..];
  }

  /** With a one-character separator, the join of pieces without it
      determines the pieces. */
  lemma {:induction false} JoinInjective(p: seq<string>, q: seq<string>, sep: string)
    requires |sep| == 1 && |p| >= 1 && |q| >= 1
    requires forall j :: 0 <= j < |p| ==> !Contains(p[j], sep)
    requires forall j :: 0 <= j < |q| ==> !Contains(q[j], sep)
    requires Join(p, sep) == Join(q, sep)
    ensures p == q
    decreases |p|
  {
    JoinHasSep(p, sep);
    JoinHasSep(q, sep);
    if |p| == 1 {
      assert |q| == 1;
    } else {
      assert |q| >= 2;
      HeadsAgree(p[0], q[0], sep, Join(p[1..], sep), Join(q[1..], sep));
      JoinInjective(p[1..], q[1..], sep);
      assert p == [p[0]] + p[1..] && q == [q[0]] + q[1..];
    }
  }

  /** Splitting the separator-join of pieces without the separator gives the
      pieces back, for a one-character separator. */
  lemma SplitJoin(parts: seq<string>, sep: string)
    requires |sep| == 1 && |parts| >= 1
    requires forall j :: 0 <= j < |parts| ==> !Contains(parts[j], sep)
    ensures Split(Join(parts, sep), sep) == parts
  {
    var x := Join(parts, sep);
    JoinSplit(x, sep);
    SplitPiecesFree(x, sep);
    JoinInjective(Split(x, sep), parts, sep);
  }

  // ---------------------------------------------------------------------
  // count

  /** Positions without an occurrence do not change the count. */
  lemma {:induction false} CountSkips(s: string, p: string, i: nat, j: nat)
    requires |p| > 0 && i <= j <= |s|
    requires forall k :: i <= k < j ==> !OccursAt(s, p, k)
    ensures CountFrom(s, p, i) == CountFrom(s, p, j)
    decreases j - i
  {
    if i < j && i + |p| <= |s| {
      assert !OccursAt(s, p, i);
      CountSkips(s, p, i + 1, j);
    }
  }

  /** One step of `CountFrom` when the next occurrence is at `k`. */
  lemma CountFromFound(s: string, p: string, i: nat, k: nat)
    requires |p| > 0 && i <= |s| && FindFrom(s, p, i) == Some(k)
    ensures CountFrom(s, p, i) == 1 + CountFrom(s, p, k + |p|)
  {
    FindFromSpec(s, p, i);
    CountSkips(s, p, i, k);
  }

  /** `CountFrom` past the last occurrence. */
  lemma CountFromLast(s: string, p: string, i: nat)
    requires |p| > 0 && i <= |s| && FindFrom(s, p, i).None?
    ensures CountFrom(s, p, i) == 0
  {
    FindFromSpec(s, p, i);
    CountSkips(s, p, i, |s|);
  }

  /** The separator count plus one is the number of pieces of the split. */
  lemma {:induction false} SplitFromCount(s: string, sep: string, i: nat)
    requires |sep| > 0 && i <= |s|
    ensures |SplitFrom(s, sep, i)| == CountFrom(s, sep, i) + 1
    decreases |s| - i
  {
    match FindFrom(s, sep, i)
    case None =>
      CountFromLast(s, sep, i);
      SplitFromLast(s, sep, i);
    case Some(k) =>
      var rest := SplitFrom(s, sep, k + |sep|);
      calc {
        |SplitFrom(s, sep, i)|;
        { SplitFromFound(s, sep, i, k, k + |sep|); }
        |[s[i..k]] + rest|;
        1 + |rest|;
        { SplitFromCount(s, sep, k + |sep|); }
        1 + CountFrom(s, sep, k + |sep|) + 1;
        { CountFromFound(s, sep, i, k); }
        CountFrom(s, sep, i) + 1;
      }
  }

  lemma SplitCount(s: string, sep: string)
    requires |sep| > 0
    ensures |Split(s, sep)| == Count(s, sep) + 1
  {
    SplitFromCount(s, sep, 0);
  }

  // ---------------------------------------------------------------------
  // replace

  /** `s.replace(target, repl) == repl.join(s.split(target))`: every
      non-overlapping occurrence, left to right, becomes `repl`, and the text
      between occurrences is kept. */
  lemma {:induction false} ReplaceFromIsJoinSplit(s: string, target: string, repl: string, i: nat)
    requires |target| > 0 && i <= |s|
    ensures ReplaceFrom(s, target, repl, i) == Join(SplitFrom(s, target, i), repl)
    decreases |s| - i
  {
    match FindFrom(s, target, i)
    case None =>
      ReplaceFromLast(s, target, repl, i);
      SplitFromLast(s, target, i);
    case Some(k) =>
      var rest := SplitFrom(s, target, k + |target|);
      calc {
        ReplaceFrom(s, target, repl, i);
        { ReplaceFromFound(s, target, repl, i, k); }
        s[i..k] + repl + ReplaceFrom(s, target, repl, k + |target|);
        { ReplaceFromIsJoinSplit(s, target, repl, k + |target|); }
        s[i..k] + repl + Join(rest, repl);
        { JoinFront(s[i..k], rest, repl); }
        Join([s[i..k]] + rest, repl);
        { SplitFromFound(s, target, i, k, k + |target|); JoinOf([s[i..k]] + rest, SplitFrom(s, target, i), repl); }
        Join(SplitFrom(s, target, i), repl);
      }
  }

  /** One step of `ReplaceFrom` when the next occurrence is at `k`. */
  lemma ReplaceFromFound(s: string, target: string, repl: string, i: nat, k: nat)
    requires |target| > 0 && i <= |s| && FindFrom(s, target, i) == Some(k)
    ensures ReplaceFrom(s, target, repl, i) == s[i..k] + repl + ReplaceFrom(s, target, repl, k + |target|)
  {
  }

  /** `ReplaceFrom` past the last occurrence. */
  lemma ReplaceFromLast(s: string, target: string, repl: string, i: nat)
    requires |target| > 0 && i <= |s| && FindFrom(s, target, i).None?
    ensures ReplaceFrom(s, target, repl, i) == s[i..]
  {
  }

  lemma ReplaceIsJoinSplit(s: string, target: string, repl: string)
    requires |target| > 0
    ensures Replace(s, target, repl) == Join(Split(s, target), repl)
  {
    ReplaceFromIsJoinSplit(s, target, repl, 0);
  }

  /** A text in which `target` does not occur is returned unchanged. */
  lemma ReplaceAbsent(s: string, target: string, repl: string)
    requires |target| > 0 && !Contains(s, target)
    ensures Replace(s, target, repl) == s
  {
    SplitWithoutSeparator(s, target);
    ReplaceIsJoinSplit(s, target, repl);
  }

  /** Distributivity for one more occurrence, kept apart from the length
      proof so that the solver meets the product in a small context. */
  lemma MulStep(c: int, d: int)
    ensures (1 + c) * d == d + c * d
  {
  }

  /** Each of the `Count(s, target)` occurrences is exchanged for `repl`. */
  lemma {:induction false} ReplaceFromLength(s: string, target: string, repl: string, i: nat)
    requires |target| > 0 && i <= |s|
    ensures |ReplaceFrom(s, target, repl, i)| == |s| - i + CountFrom(s, target, i) * (|repl| - |target|)
    decreases |s| - i
  {
    match FindFrom(s, target, i)
    case None =>
      ReplaceFromLast(s, target, repl, i);
      CountFromLast(s, target, i);
    case Some(k) =>
      var c := CountFrom(s, target, k + |target|);
      var d := |repl| - |target|;
      calc {
        |ReplaceFrom(s, target, repl, i)|;
        { ReplaceFromFound(s, target, repl, i, k); }
        (k - i) + |repl| + |ReplaceFrom(s, target, repl, k + |target|)|;
        { ReplaceFromLength(s, target, repl, k + |target|); }
        (k - i) + |repl| + (|s| - (k + |target|) + c * d);
        |s| - i + (d + c * d);
        { MulStep(c, d); }
        |s| - i + (1 + c) * d;
        { CountFromFound(s, target, i, k); }
        |s| - i + CountFrom(s, target, i) * d;
      }
  }

  lemma ReplaceLength(s: string, target: string, repl: string)
    requires |target| > 0
    ensures |Replace(s, target, repl)| == |s| + Count(s, target) * (|repl| - |target|)
  {
    ReplaceFromLength(s, target, repl, 0);
  }

  // ---------------------------------------------------------------------
  // readlines / writelines

  /** Writing the lines back one after the other reproduces the text. */
  lemma {:induction false} ConcatLinesFrom(s: string, i: nat)
    requires i <= |s|
    ensures Concat(LinesFrom(s, i)) == s[i..]
    decreases |s| - i
  {
    if i < |s| {
      match FindFrom(s, "\n", i)
      case None =>
        LinesFromLast(s, i);
        ConcatFront(s[i..], []);
      case Some(k) =>
        LinesFromFound(s, i, k);
        ConcatLinesFrom(s, k + 1);
        ConcatFront(s[i..k + 1], LinesFrom(s, k + 1));
        SliceAt(s, i, k + 1);
    }
  }

  /** `"".join` at its first part. */
  lemma ConcatFront(a: string, rest: seq<string>)
    ensures Concat([a] + rest) == a + Concat(rest)
  {
    assert ([a] + rest)[1..] == rest;
  }

  /** A suffix is the slice up to `k` followed by the suffix from `k`. */
  lemma SliceAt(s: string, i: nat, k: nat)
    requires i <= k <= |s|
    ensures s[i..] == s[i..k] + s[k..]
  {
  }

  /** One step of `LinesFrom` when the next "\n" is at `k`: the line runs up
      to and including it, and holds no other "\n". */
  lemma LinesFromFound(s: string, i: nat, k: nat)
    requires i < |s| && FindFrom(s, "\n", i) == Some(k)
    ensures i <= k < |s| && s[k] == '\n' && forall m :: i <= m < k ==> s[m] != '\n'
    ensures LinesFrom(s, i) == [s[i..k + 1]] + LinesFrom(s, k + 1)
  {
    FindFromSpec(s, "\n", i);
    OccursChar(s, '\n', k);
    forall m | i <= m < k ensures s[m] != '\n' {
      OccursChar(s, '\n', m);
    }
  }

  /** The last step of `LinesFrom`, when no "\n" is left. */
  lemma LinesFromLast(s: string, i: nat)
    requires i < |s| && FindFrom(s, "\n", i).None?
    ensures LinesFrom(s, i) == [s[i..]] && forall m :: i <= m < |s| ==> s[m] != '\n'
  {
    FindFromSpec(s, "\n", i);
    forall m | i <= m < |s| ensures s[m] != '\n' {
      OccursChar(s, '\n', m);
    }
  }

  lemma ConcatLines(s: string)
    ensures Concat(Lines(s)) == s
  {
    ConcatLinesFrom(s, 0);
  }

  /** Every line is non-empty with "\n" only at its end, and every line but
      the last ends with "\n". */
  lemma {:induction false} LinesFromShape(s: string, i: nat)
    requires i <= |s|
    ensures forall j :: 0 <= j < |LinesFrom(s, i)| ==> IsLine(LinesFrom(s, i)[j])
    ensures forall j :: 0 <= j < |LinesFrom(s, i)| - 1 ==> EndsWithNewline(LinesFrom(s, i)[j])
    decreases |s| - i
  {
    if i < |s| {
      match FindFrom(s, "\n", i)
      case None =>
        LinesFromLast(s, i);
        assert IsLine(s[i..]);
      case Some(k) =>
        LinesFromFound(s, i, k);
        LinesFromShape(s, k + 1);
        var line := s[i..k + 1];
        assert IsLine(line) && EndsWithNewline(line);
        ConsLines(line, LinesFrom(s, k + 1));
    }
  }

  /** A well-formed line ending in "\n" in front of well-formed lines keeps the shape. */
  lemma ConsLines(line: string, rest: seq<string>)
    requires IsLine(line) && EndsWithNewline(line)
    requires forall j :: 0 <= j < |rest| ==> IsLine(rest[j])
    requires forall j :: 0 <= j < |rest| - 1 ==> EndsWithNewline(rest[j])
    ensures forall j :: 0 <= j < |[line] + rest| ==> IsLine(([line] + rest)[j])
    ensures forall j :: 0 <= j < |[line] + rest| - 1 ==> EndsWithNewline(([line] + rest)[j])
  {
    forall j | 1 <= j < |[line] + rest| ensures ([line] + rest)[j] == rest[j - 1] {
    }
  }

  lemma LinesShape(s: string)
    ensures forall j :: 0 <= j < |Lines(s)| ==> IsLine(Lines(s)[j])
    ensures forall j :: 0 <= j < |Lines(s)| - 1 ==> EndsWithNewline(Lines(s)[j])
  {
    LinesFromShape(s, 0);
  }

  /** A well-formed line ending in "\n" at `i` is the next line read. */
  lemma LinesFromLineAt(s: string, i: nat, h: string)
    requires i + |h| <= |s| && s[i..i + |h|] == h && IsLine(h) && EndsWithNewline(h)
    ensures LinesFrom(s, i) == [h] + LinesFrom(s, i + |h|)
  {
    var k := i + |h| - 1;
    forall m | i <= m < k ensures !OccursAt(s, "\n", m) {
      OccursChar(s, '\n', m);
      assert s[m] == h[m - i];
    }
    OccursChar(s, '\n', k);
    assert s[k] == h[|h| - 1];
    FindFirst(s, "\n", i, k);
  }

  /** A well-formed line without "\n" that ends the text is the last line read. */
  lemma LinesFromLastLine(s: string, i: nat)
    requires i < |s| && IsLine(s[i..]) && !EndsWithNewline(s[i..])
    ensures LinesFrom(s, i) == [s[i..]]
  {
    forall m | i <= m ensures !OccursAt(s, "\n", m) {
      if m < |s| {
        OccursChar(s, '\n', m);
        assert s[m] == s[i..][m - i];
      }
    }
    FindFromSpec(s, "\n", i);
  }

  /** A text that reads as the parts written one after the other starts
      with the first part and goes on with the others. */
  lemma ConcatParts(s: string, i: nat, parts: seq<string>)
    requires i <= |s| && s[i..] == Concat(parts) && |parts| > 0
    ensures i + |parts[0]| <= |s| && s[i..i + |parts[0]|] == parts[0]
    ensures s[i + |parts[0]|..] == Concat(parts[1..])
  {
    var h, rest := parts[0], parts[1..];
    assert parts == [h] + rest;
    ConcatFront(h, rest);
    assert s[i..i + |h|] == s[i..][..|h|];
    assert s[i + |h|..] == s[i..][|h|..];
  }

  /** Reading back lines written one after the other, each well-formed and
      all but the last ending in "\n", gives the same lines. */
  lemma {:induction false} LinesFromConcat(s: string, i: nat, parts: seq<string>)
    requires i <= |s| && s[i..] == Concat(parts)
    requires forall j :: 0 <= j < |parts| ==> IsLine(parts[j])
    requires forall j :: 0 <= j < |parts| - 1 ==> EndsWithNewline(parts[j])
    ensures LinesFrom(s, i) == parts
    decreases |parts|
  {
    if |parts| == 0 {
      assert |s[i..]| == 0;
      assert i == |s|;
    } else {
      var h, rest := parts[0], parts[1..];
      ConcatParts(s, i, parts);
      if EndsWithNewline(h) {
        LinesFromLineAt(s, i, h);
        LinesFromConcat(s, i + |h|, rest);
        assert parts == [h] + rest;
      } else {
        assert |rest| == 0;
        assert parts == [h];
        assert s[i..] == h;
        LinesFromLastLine(s, i);
      }
    }
  }

  /** `readlines` of what `writelines` wrote gives back the lines written,
      when each is a well-formed line and all but the last end in "\n". */
  lemma LinesOfConcat(parts: seq<string>)
    requires forall j :: 0 <= j < |parts| ==> IsLine(parts[j])
    requires forall j :: 0 <= j < |parts| - 1 ==> EndsWithNewline(parts[j])
    ensures Lines(Concat(parts)) == parts
  {
    LinesFromConcat(Concat(parts), 0, parts);
  }

  predicate IsNewline(c: char) {
    c == '\n'
  }

  /** A non-empty text is a well-formed line exactly when it counts no "\n"
      beyond a final one. */
  lemma LineByCount(x: string)
    requires |x| > 0
    ensures IsLine(x) <==> CountIf(x, IsNewline) <= (if EndsWithNewline(x) then 1 else 0)
  {
    var n := |x|;
    var init := x[..n - 1];
    assert x == init + [x[n - 1]];
    CountIfAppend(init, [x[n - 1]], IsNewline);
    assert CountIf([x[n - 1]], IsNewline) == (if x[n - 1] == '\n' then 1 else 0);
    if IsLine(x) {
      CountIfNone(init, IsNewline);
    }
    forall m | 0 <= m < n - 1 ensures CountIf(x, IsNewline) <= (if EndsWithNewline(x) then 1 else 0) ==> x[m] != '\n' {
      CountIfSome(init, IsNewline, m);
    }
  }

  /** A step that keeps a line non-empty, adds no "\n" and keeps a final
      "\n" turns a well-formed line into one that ends in "\n" exactly when
      the input did. */
  lemma LineStep(x: string, y: string)
    requires IsLine(x) && |y| > 0
    requires CountIf(y, IsNewline) <= CountIf(x, IsNewline)
    requires EndsWithNewline(x) ==> EndsWithNewline(y)
    ensures IsLine(y) && EndsWithNewline(y) == EndsWithNewline(x)
  {
    LineByCount(x);
    LineByCount(y);
    CountIfSome(y, IsNewline, |y| - 1);
  }

  /** Replacing by text without characters satisfying `keep` never adds one. */
  lemma {:induction false} ReplaceFromCountIf(s: string, target: string, repl: string, i: nat, keep: char -> bool)
    requires |target| > 0 && i <= |s| && CountIf(repl, keep) == 0
    ensures CountIf(ReplaceFrom(s, target, repl, i), keep) <= CountIf(s[i..], keep)
    decreases |s| - i
  {
    match FindFrom(s, target, i)
    case None =>
    case Some(k) =>
      ReplaceFromCountIf(s, target, repl, k + |target|, keep);
      ReplaceCountStep(s, target, repl, i, k, keep);
  }

  /** Counting over a suffix cut in three. */
  lemma CountIfThree(s: string, i: nat, k: nat, j: nat, keep: char -> bool)
    requires i <= k <= j <= |s|
    ensures CountIf(s[i..], keep) == CountIf(s[i..k], keep) + CountIf(s[k..j], keep) + CountIf(s[j..], keep)
  {
    assert s[i..] == s[i..k] + (s[k..j] + s[j..]);
    CountIfAppend(s[i..k], s[k..j] + s[j..], keep);
    CountIfAppend(s[k..j], s[j..], keep);
  }

  /** One occurrence of `ReplaceFromCountIf`: the replaced occurrence gives
      way to a replacement that counts nothing. */
  lemma ReplaceCountStep(s: string, target: string, repl: string, i: nat, k: nat, keep: char -> bool)
    requires |target| > 0 && i <= |s| && CountIf(repl, keep) == 0 && FindFrom(s, target, i) == Some(k)
    requires CountIf(ReplaceFrom(s, target, repl, k + |target|), keep) <= CountIf(s[k + |target|..], keep)
    ensures CountIf(ReplaceFrom(s, target, repl, i), keep) <= CountIf(s[i..], keep)
  {
    var j := k + |target|;
    var rest := ReplaceFrom(s, target, repl, j);
    calc {
      CountIf(ReplaceFrom(s, target, repl, i), keep);
      { ReplaceFromFound(s, target, repl, i, k); }
      CountIf(s[i..k] + repl + rest, keep);
      { CountIfAppend(s[i..k] + repl, rest, keep); CountIfAppend(s[i..k], repl, keep); }
      CountIf(s[i..k], keep) + CountIf(rest, keep);
    <=
      CountIf(s[i..k], keep) + CountIf(s[j..], keep);
    <= { CountIfThree(s, i, k, j, keep); }
      CountIf(s[i..], keep);
    }
  }

  /** When the text ends in a character the target lacks, replacing keeps
      that last character last. */
  lemma {:induction false} ReplaceFromKeepsLast(s: string, target: string, repl: string, i: nat)
    requires |target| > 0 && i < |s| && s[|s| - 1] !in target
    ensures |ReplaceFrom(s, target, repl, i)| > 0
    ensures ReplaceFrom(s, target, repl, i)[|ReplaceFrom(s, target, repl, i)| - 1] == s[|s| - 1]
    decreases |s| - i
  {
    match FindFrom(s, target, i)
    case None =>
    case Some(k) =>
      FindFromSpec(s, target, i);
      var j := k + |target|;
      assert s[j - 1] == s[k..j][|target| - 1];
      assert j < |s|;
      ReplaceFromKeepsLast(s, target, repl, j);
  }

  /** Replacing a target and a replacement free of "\n", the replacement
      non-empty, keeps a well-formed line well-formed, ending in "\n"
      exactly when it did. */
  lemma ReplaceKeepsLine(x: string, target: string, repl: string)
    requires IsLine(x) && |target| > 0 && |repl| > 0 && '\n' !in target && '\n' !in repl
    ensures IsLine(Replace(x, target, repl))
    ensures EndsWithNewline(Replace(x, target, repl)) == EndsWithNewline(x)
  {
    var y := Replace(x, target, repl);
    CountIfNone(repl, IsNewline);
    ReplaceFromCountIf(x, target, repl, 0, IsNewline);
    assert x[0..] == x;
    match FindFrom(x, target, 0)
    case None =>
    case Some(k) =>
      ReplaceFromFound(x, target, repl, 0, k);
    if EndsWithNewline(x) {
      ReplaceFromKeepsLast(x, target, repl, 0);
    }
    LineStep(x, y);
  }
}
