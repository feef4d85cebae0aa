/** A termination measure for the iterative backtracking loops. The search keeps a
    path of variables (columns), deepest last; each has a digit in 0..8 that only grows
    while the variable stays on the path (its row, or the number of rows already tried
    for it). Reading the digits as a number in base 9, most significant first, every
    step that bumps the last digit and perhaps pushes a fresh variable makes
    `Rem = sum of (8 - digit) * 9^(7 - depth)` smaller, and a pop never makes it larger
    while the path gets shorter. */
module Measure {

  /** Deepest path the measure supports: one entry per column. */
  const MaxDepth: int := 8

  function Pow9(e: nat): (r: nat)
    ensures r >= 1
  {
    if e == 0 then 1 else 9 * Pow9(e - 1)
  }

  /** The weight of depth d. */
  function Weight(d: int): (r: nat)
    requires 0 <= d < MaxDepth
    ensures r >= 1
  {
    Pow9(MaxDepth - 1 - d)
  }

  ghost predicate Digits(ds: seq<int>)
  {
    |ds| <= MaxDepth && forall d :: 0 <= d < |ds| ==> 0 <= ds[d] <= 8
  }

  /** The share of depth d when its digit is x. */
  function Term(x: int, d: int): (r: int)
    requires 0 <= d < MaxDepth
  {
    (8 - x) * Weight(d)
  }

  lemma TermNonNegative(x: int, d: int)
    requires x <= 8 && 0 <= d < MaxDepth
    ensures Term(x, d) >= 0
  {
  }

  lemma TermBump(x: int, d: int)
    requires 0 <= d < MaxDepth
    ensures Term(x + 1, d) == Term(x, d) - Weight(d)
  {
  }

  /** Any digit at depth d weighs less than one unit of depth d - 1. */
  lemma TermBelowParent(x: int, d: int)
    requires 0 <= x <= 8 && 0 < d < MaxDepth
    ensures Term(x, d) < Weight(d - 1)
  {
    var w := Weight(d);
    assert Weight(d - 1) == 9 * w;
    assert (8 - x) * w < 9 * w;
  }

  /** What remains to be tried below the digits ds. */
  function Rem(ds: seq<int>): (r: int)
    requires |ds| <= MaxDepth
  {
    if |ds| == 0 then 0
    else Rem(ds[..|ds| - 1]) + Term(ds[|ds| - 1], |ds| - 1)
  }

  lemma {:induction false} RemNonNegative(ds: seq<int>)
    requires Digits(ds)
    ensures Rem(ds) >= 0
  {
    if |ds| > 0 {
      RemNonNegative(ds[..|ds| - 1]);
      TermNonNegative(ds[|ds| - 1], |ds| - 1);
    }
  }

  /** Popping the deepest variable does not increase the measure. */
  lemma RemPop(ds: seq<int>)
    requires Digits(ds) && |ds| > 0
    ensures Rem(ds[..|ds| - 1]) <= Rem(ds)
  {
    TermNonNegative(ds[|ds| - 1], |ds| - 1);
  }

  /** Bumping the deepest digit lowers the measure by that depth's weight. */
  lemma RemBump(ds: seq<int>, es: seq<int>)
    requires Digits(ds) && |ds| > 0 && |es| == |ds|
    requires es[..|es| - 1] == ds[..|ds| - 1] && es[|es| - 1] == ds[|ds| - 1] + 1
    ensures Rem(es) == Rem(ds) - Weight(|ds| - 1)
  {
    TermBump(ds[|ds| - 1], |ds| - 1);
  }

  lemma RemAppend(ds: seq<int>, y: int)
    requires |ds| < MaxDepth
    ensures Rem(ds + [y]) == Rem(ds) + Term(y, |ds|)
  {
    var es := ds + [y];
    assert es[..|es| - 1] == ds;
  }

  /** A fresh deepest variable, whatever its digit, weighs less than one unit of its parent. */
  lemma RemPush(ds: seq<int>, y: int)
    requires Digits(ds) && 0 < |ds| < MaxDepth && 0 <= y <= 8
    ensures Rem(ds + [y]) < Rem(ds) + Weight(|ds| - 1)
  {
    RemAppend(ds, y);
    TermBelowParent(y, |ds|);
  }

  /** The room left in a row of digits: the sum of 8 - digit. Every step of an inner
      search loop raises one digit by one, so this bounds the number of such steps. */
  function Slack(ds: seq<int>): (r: int)
  {
    if |ds| == 0 then 0 else Slack(ds[..|ds| - 1]) + (8 - ds[|ds| - 1])
  }

  lemma {:induction false} SlackBump(ds: seq<int>, p: int)
    requires forall d :: 0 <= d < |ds| ==> 0 <= ds[d] <= 8
    requires 0 <= p < |ds| && ds[p] <= 7
    ensures Slack(ds[p := ds[p] + 1]) == Slack(ds) - 1
    ensures Slack(ds[p := ds[p] + 1]) >= 0
    decreases |ds|
  {
    var n := |ds| - 1;
    var es := ds[p := ds[p] + 1];
    SlackNonNegative(es);
    if p < n {
      assert es[..n] == ds[..n][p := ds[p] + 1];
      SlackBump(ds[..n], p);
    } else {
      assert es[..n] == ds[..n];
    }
  }

  lemma {:induction false} SlackNonNegative(ds: seq<int>)
    requires forall d :: 0 <= d < |ds| ==> ds[d] <= 8
    ensures Slack(ds) >= 0
  {
    if |ds| > 0 {
      SlackNonNegative(ds[..|ds| - 1]);
    }
  }
}
