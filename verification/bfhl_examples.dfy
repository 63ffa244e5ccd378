/** Worked requests and their responses. */
module BfhlExamples {
  import opened Json
  import opened Bfhl
  import Ai
  import Numeric
  import PrimeFilter

  lemma FibonacciFive(oracle: string -> Ai.Outcome)
    ensures Handle(Obj(map["fibonacci" := Int(5)]), oracle)
            == Success200(Arr([Int(0), Int(1), Int(1), Int(2), Int(3)]))
  {
  }

  lemma LcmExample(oracle: string -> Ai.Outcome)
    ensures Handle(Obj(map["lcm" := Arr([Int(4), Int(6)])]), oracle) == Success200(Int(12))
  {
  }

  lemma HcfExample(oracle: string -> Ai.Outcome)
    ensures Handle(Obj(map["hcf" := Arr([Int(12), Int(18)])]), oracle) == Success200(Int(6))
  {
  }

  lemma TwoKeys(oracle: string -> Ai.Outcome)
    ensures Handle(Obj(map["lcm" := Arr([Int(4)]), "hcf" := Arr([Int(4)])]), oracle)
            == SafeError(400, ExactlyOneKey)
  {
  }

  lemma FibonacciOutOfRange(oracle: string -> Ai.Outcome)
    ensures Handle(Obj(map["fibonacci" := Int(-1)]), oracle) == SafeError(400, "Invalid fibonacci input")
    ensures Handle(Obj(map["fibonacci" := Int(1001)]), oracle) == SafeError(400, "Invalid fibonacci input")
  {
  }

  /** 2, 3 and 5 pass the filter; 4 and 9 have the divisors 2 and 3. */
  lemma KeptSmallValues()
    ensures PrimeFilter.Keep(Int(2)) && PrimeFilter.Keep(Int(3)) && PrimeFilter.Keep(Int(5))
    ensures !PrimeFilter.Keep(Int(4)) && !PrimeFilter.Keep(Int(9))
  {
    assert Numeric.Divides(2, 4);
    assert Numeric.Divides(3, 9);
  }

  /** The filter applied to a non-empty sequence looks at its first element, then at the rest. */
  lemma PrimesStep(x: Value, xs: seq<Value>)
    ensures PrimeFilter.Primes([x] + xs)
            == (if PrimeFilter.Keep(x) then [x] + PrimeFilter.Primes(xs) else PrimeFilter.Primes(xs))
  {
    assert ([x] + xs)[1..] == xs;
  }

  /** The last three elements of the example: only 5 is kept. */
  lemma PrimeExampleTail()
    ensures PrimeFilter.Primes([Int(4), Int(5), Int(9)]) == [Int(5)]
  {
    KeptSmallValues();
    PrimesStep(Int(9), []);
    PrimesStep(Int(5), [Int(9)]);
    PrimesStep(Int(4), [Int(5), Int(9)]);
  }

  /** Dropping the leading 2: 3 is kept in front of the tail's result. */
  lemma PrimeExampleMiddle()
    ensures PrimeFilter.Primes([Int(3), Int(4), Int(5), Int(9)]) == [Int(3), Int(5)]
  {
    KeptSmallValues();
    PrimeExampleTail();
    PrimesStep(Int(3), [Int(4), Int(5), Int(9)]);
  }

  /** `[2, 3, 4, 5, 9]` filters to `[2, 3, 5]`. */
  lemma PrimeExample()
    ensures PrimeFilter.Primes([Int(2), Int(3), Int(4), Int(5), Int(9)]) == [Int(2), Int(3), Int(5)]
  {
    KeptSmallValues();
    PrimeExampleMiddle();
    PrimesStep(Int(2), [Int(3), Int(4), Int(5), Int(9)]);
  }
}
