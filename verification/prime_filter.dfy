/**
 The `prime` operation: `value.filter((n) => Number.isInteger(n) && isPrime(n))`.
 Elements that are not integers, or not numbers at all, are dropped rather
 than rejected.
 */
module PrimeFilter {
  import opened Json
  import opened Numeric

  /** The filter's callback: an integer that passes the primality test. */
  predicate Keep(v: Value)
    ensures Keep(v) <==> v.Int? && IsPrimeNumber(v.i)
  {
    if IsInteger(v) then
      IsPrimeCorrect(v.i);
      IsPrime(v.i)
    else
      false
  }

  /** `s` is `t` with some elements removed and the rest in their original order. */
  ghost predicate IsSubsequence<T>(s: seq<T>, t: seq<T>)
    decreases |t|
  {
    if s == [] then true
    else if t == [] then false
    else if s[0] == t[0] then IsSubsequence(s[1..], t[1..])
    else IsSubsequence(s, t[1..])
  }

  /**
   The kept elements of `xs` in their original order: an order-preserving
   subsequence made only of kept values, holding each kept value exactly
   as often as `xs` does.
   */
  function Primes(xs: seq<Value>): (r: seq<Value>)
    ensures IsSubsequence(r, xs)
    ensures forall i :: 0 <= i < |r| ==> Keep(r[i])
    ensures forall v :: Keep(v) ==> multiset(r)[v] == multiset(xs)[v]
  {
    if xs == [] then
      []
    else
      var rest := Primes(xs[1..]);
      assert xs == [xs[0]] + xs[1..];
      if Keep(xs[0]) then
        var r := [xs[0]] + rest;
        assert r[1..] == rest;
        r
      else
        rest
  }

  /** The result holds exactly the elements of the input that are prime integers, in the mathematical sense. */
  lemma PrimesAreExactlyThePrimeIntegers(xs: seq<Value>)
    ensures forall i :: 0 <= i < |Primes(xs)| ==> Primes(xs)[i].Int? && IsPrimeNumber(Primes(xs)[i].i)
    ensures forall i :: 0 <= i < |xs| && xs[i].Int? && IsPrimeNumber(xs[i].i) ==> xs[i] in Primes(xs)
  {
    var r := Primes(xs);
    forall i | 0 <= i < |r| ensures r[i].Int? && IsPrimeNumber(r[i].i) {
      IsPrimeCorrect(r[i].i);
    }
    forall i | 0 <= i < |xs| && xs[i].Int? && IsPrimeNumber(xs[i].i) ensures xs[i] in r {
      IsPrimeCorrect(xs[i].i);
      assert multiset(r)[xs[i]] == multiset(xs)[xs[i]] > 0;
    }
  }
}
