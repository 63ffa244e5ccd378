/**
 The `fibonacci` operation: the first `n` Fibonacci numbers, produced by the
 source's loop that pushes `a` and then replaces `(a, b)` with `(b, a + b)`.
 */
module Fibonacci {

  /** The Fibonacci recurrence: the independent reference for the generated sequence. */
  ghost function Fib(i: nat): nat
  {
    if i == 0 then 0 else if i == 1 then 1 else Fib(i - 1) + Fib(i - 2)
  }

  /**
   The generating loop from iteration `i` on, with accumulator `result` and
   the pair `(a, b)`. Its precondition is the loop invariant: `result` holds
   the first `i` numbers and `(a, b)` the next two.
   */
  function Loop(n: nat, i: nat, a: nat, b: nat, result: seq<nat>): (r: seq<nat>)
    requires i <= n && |result| == i
    requires a == Fib(i) && b == Fib(i + 1)
    requires forall k :: 0 <= k < i ==> result[k] == Fib(k)
    ensures |r| == n
    ensures forall k :: 0 <= k < n ==> r[k] == Fib(k)
    decreases n - i
  {
    if i < n then Loop(n, i + 1, b, a + b, result + [a]) else result
  }

  /**
   The first `n` Fibonacci numbers: the empty sequence for 0, otherwise
   starting 0, 1 with every later element the sum of the two before it.
   */
  function Sequence(n: nat): (r: seq<nat>)
    ensures |r| == n
    ensures forall k :: 0 <= k < n ==> r[k] == Fib(k)
    ensures n > 0 ==> r[0] == 0
    ensures n > 1 ==> r[1] == 1
    ensures forall k :: 2 <= k < n ==> r[k] == r[k - 1] + r[k - 2]
  {
    var r := Loop(n, 0, 0, 1, []);
    assert forall k :: 2 <= k < n ==> r[k] == r[k - 1] + r[k - 2] by {
      forall k | 2 <= k < n ensures r[k] == r[k - 1] + r[k - 2] {
        assert r[k] == Fib(k) == Fib(k - 1) + Fib(k - 2);
      }
    }
    r
  }
}
