/** Decimal rendering of natural numbers, as Python's `f"{n}"` does it. */
module Decimal {
  import opened Chars

  function DigitChar(d: nat): (c: char)
    requires d < 10
    ensures IsDigit(c)
  {
    (48 + d) as char
  }

  function DigitValue(c: char): nat
    requires IsDigit(c)
  {
    c as int - 48
  }

  predicate AllDigits(s: string) {
    forall k :: 0 <= k < |s| ==> IsDigit(s[k])
  }

  /** `f"{n}"`: the decimal digits of `n`, most significant first. */
  function Render(n: nat): (r: string)
    ensures |r| >= 1 && AllDigits(r)
    decreases n
  {
    if n < 10 then [DigitChar(n)] else Render(n / 10) + [DigitChar(n % 10)]
  }

  /** The number a digit string denotes. */
  function Value(s: string): nat
    requires AllDigits(s)
    decreases |s|
  {
    if |s| == 0 then 0 else 10 * Value(s[..|s| - 1]) + DigitValue(s[|s| - 1])
  }

  /** Reading back a rendered number gives the number. */
  lemma {:induction false} ValueRender(n: nat)
    ensures Value(Render(n)) == n
    decreases n
  {
    var r := Render(n);
    if n >= 10 {
      ValueRender(n / 10);
      assert r[..|r| - 1] == Render(n / 10);
    }
  }

  /** Different numbers render differently, so `f"Note {i+1}"` labels are distinct. */
  lemma RenderInjective(m: nat, n: nat)
    requires m != n
    ensures Render(m) != Render(n)
  {
    ValueRender(m);
    ValueRender(n);
  }
}
