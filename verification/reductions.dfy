/**
 The `lcm` and `hcf` operations: `Array.prototype.reduce` without an initial
 value, so the first element seeds the accumulator and the rest are folded
 in from left to right.
 */
module Reductions {
  import opened Numeric

  /** Every element is a positive integer, as the handler's input check demands. */
  predicate AllPositive(xs: seq<int>)
  {
    forall i :: 0 <= i < |xs| ==> xs[i] > 0
  }

  /** Every element of `xs` divides `m`. */
  ghost predicate CommonMultiple(xs: seq<int>, m: int)
  {
    forall i :: 0 <= i < |xs| ==> Divides(xs[i], m)
  }

  /** `d` divides every element of `xs`. */
  ghost predicate CommonDivisor(d: int, xs: seq<int>)
  {
    forall i :: 0 <= i < |xs| ==> Divides(d, xs[i])
  }

  /** The reduction `acc = lcm(acc, n)` over `rest`: a positive multiple of the seed and of every element. */
  function LcmReduce(acc: int, rest: seq<int>): (l: int)
    requires acc > 0 && AllPositive(rest)
    ensures l > 0 && Divides(acc, l)
    ensures CommonMultiple(rest, l)
    decreases |rest|
  {
    if rest == [] then
      acc
    else
      var step := Lcm(acc, rest[0]);
      var l := LcmReduce(step, rest[1..]);
      DividesTransitive(acc, step, l);
      DividesTransitive(rest[0], step, l);
      assert forall i :: 1 <= i < |rest| ==> rest[i] == rest[1..][i - 1];
      l
  }

  /** `xs.reduce((acc, n) => lcm(acc, n))` for a non-empty array of positive integers. */
  function LcmOfAll(xs: seq<int>): (l: int)
    requires |xs| > 0 && AllPositive(xs)
    ensures l > 0 && CommonMultiple(xs, l)
  {
    var l := LcmReduce(xs[0], xs[1..]);
    assert forall i :: 1 <= i < |xs| ==> xs[i] == xs[1..][i - 1];
    l
  }

  /** Folding `lcm` from a positive seed gives a divisor of every common multiple of the seed and the elements. */
  lemma {:induction false} LcmReduceIsLeast(acc: int, rest: seq<int>, m: int)
    requires acc > 0 && AllPositive(rest)
    requires Divides(acc, m) && CommonMultiple(rest, m)
    ensures Divides(LcmReduce(acc, rest), m)
    decreases |rest|
  {
    if rest != [] {
      LcmIsLeast(acc, rest[0], m);
      assert CommonMultiple(rest[1..], m) by {
        assert forall i :: 0 <= i < |rest| - 1 ==> rest[1..][i] == rest[i + 1];
      }
      LcmReduceIsLeast(Lcm(acc, rest[0]), rest[1..], m);
    }
  }

  /** The fold is the least common multiple: it divides every common multiple of the elements. */
  lemma LcmOfAllIsLeast(xs: seq<int>, m: int)
    requires |xs| > 0 && AllPositive(xs)
    requires CommonMultiple(xs, m)
    ensures Divides(LcmOfAll(xs), m)
  {
    assert CommonMultiple(xs[1..], m) by {
      assert forall i :: 0 <= i < |xs| - 1 ==> xs[1..][i] == xs[i + 1];
    }
    LcmReduceIsLeast(xs[0], xs[1..], m);
  }

  /** The reduction `acc = gcd(acc, n)` over `rest`: a positive divisor of the seed and of every element. */
  function HcfReduce(acc: int, rest: seq<int>): (g: int)
    requires acc > 0 && AllPositive(rest)
    ensures g > 0 && Divides(g, acc)
    ensures CommonDivisor(g, rest)
    decreases |rest|
  {
    if rest == [] then
      acc
    else
      var step := Gcd(acc, rest[0]);
      var g := HcfReduce(step, rest[1..]);
      DividesTransitive(g, step, acc);
      DividesTransitive(g, step, rest[0]);
      assert forall i :: 1 <= i < |rest| ==> rest[i] == rest[1..][i - 1];
      g
  }

  /** `xs.reduce((acc, n) => gcd(acc, n))` for a non-empty array of positive integers. */
  function HcfOfAll(xs: seq<int>): (g: int)
    requires |xs| > 0 && AllPositive(xs)
    ensures g > 0 && CommonDivisor(g, xs)
  {
    var g := HcfReduce(xs[0], xs[1..]);
    assert forall i :: 1 <= i < |xs| ==> xs[i] == xs[1..][i - 1];
    g
  }

  /** Every common divisor of a positive seed and the elements divides the `gcd` fold. */
  lemma {:induction false} HcfReduceIsGreatest(acc: int, rest: seq<int>, d: int)
    requires acc > 0 && AllPositive(rest)
    requires Divides(d, acc) && CommonDivisor(d, rest)
    ensures Divides(d, HcfReduce(acc, rest))
    decreases |rest|
  {
    if rest != [] {
      assert Divides(d, Gcd(acc, rest[0]));
      assert CommonDivisor(d, rest[1..]) by {
        assert forall i :: 0 <= i < |rest| - 1 ==> rest[1..][i] == rest[i + 1];
      }
      HcfReduceIsGreatest(Gcd(acc, rest[0]), rest[1..], d);
    }
  }

  /** The fold is the highest common factor: every common divisor of the elements divides it. */
  lemma HcfOfAllIsGreatest(xs: seq<int>, d: int)
    requires |xs| > 0 && AllPositive(xs)
    requires CommonDivisor(d, xs)
    ensures Divides(d, HcfOfAll(xs))
  {
    assert CommonDivisor(d, xs[1..]) by {
      assert forall i :: 0 <= i < |xs| - 1 ==> xs[1..][i] == xs[i + 1];
    }
    HcfReduceIsGreatest(xs[0], xs[1..], d);
  }
}
