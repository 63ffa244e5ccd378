/**
 Properties of the POST /bfhl handler as a whole: which bodies it accepts,
 the order of its checks, what each operation answers, and how the AI
 collaborator is consulted.
 */
module BfhlProperties {
  import opened Wrappers
  import opened Json
  import opened Bfhl
  import Text
  import Numeric
  import Fibonacci
  import PrimeFilter
  import Reductions
  import Ai

  /** The bodies the handler answers with 200: an object whose only member is an allowed key with an acceptable value. */
  ghost predicate Accepted(body: Value)
  {
    && body.Obj?
    && |body.fields| == 1
    && exists op :: KeyOf(op) in body.fields && Acceptable(op, body.fields[KeyOf(op)])
  }

  /** An object whose only member is an allowed key passes every body check and selects that key's operation. */
  lemma CheckBodyOfSingleAllowedKey(body: Value, op: Op)
    requires body.Obj? && |body.fields| == 1 && KeyOf(op) in body.fields
    ensures CheckBody(body) == Success((op, body.fields[KeyOf(op)]))
  {
    SingletonSet(body.fields.Keys);
    assert ProtoKey !in body.fields;
    assert SoleEntry(body).0 == KeyOf(op);
    ParseKeyOf(op);
  }

  /** The handler succeeds exactly on accepted bodies, whatever the collaborator does. */
  lemma HandleAcceptsExactly(body: Value, oracle: string -> Ai.Outcome)
    ensures Handle(body, oracle).status == 200 <==> Accepted(body)
  {
    if Accepted(body) {
      var op :| KeyOf(op) in body.fields && Acceptable(op, body.fields[KeyOf(op)]);
      CheckBodyOfSingleAllowedKey(body, op);
    }
    if Handle(body, oracle).status == 200 {
      var (op, v) := CheckBody(body).value;
      assert KeyOf(op) in body.fields && Acceptable(op, body.fields[KeyOf(op)]);
    }
  }

  /**
   The body checks and their order: a non-object is refused first, then an
   own "__proto__" whatever else is present, then a key count other than
   one (arrays count their elements), then a key outside the allow-list (a
   one-element array's key is "0").
   */
  lemma ValidationOrder(body: Value, oracle: string -> Ai.Outcome)
    ensures !IsObject(body) ==> Handle(body, oracle) == SafeError(400, InvalidJsonBody)
    ensures body.Obj? && ProtoKey in body.fields ==> Handle(body, oracle) == SafeError(400, InvalidInput)
    ensures body.Obj? && ProtoKey !in body.fields && |body.fields| != 1 ==>
              Handle(body, oracle) == SafeError(400, ExactlyOneKey)
    ensures body.Obj? && |body.fields| == 1 && (forall k :: k in body.fields ==> k !in AllowedKeys && k != ProtoKey) ==>
              Handle(body, oracle) == SafeError(400, InvalidKey)
    ensures body.Arr? && |body.elems| != 1 ==> Handle(body, oracle) == SafeError(400, ExactlyOneKey)
    ensures body.Arr? && |body.elems| == 1 ==> Handle(body, oracle) == SafeError(400, InvalidKey)
  {
    if body.Obj? && |body.fields| == 1 && (forall k :: k in body.fields ==> k !in AllowedKeys && k != ProtoKey) {
      var key := SoleEntry(body).0;
      assert key in body.fields;
    }
  }

  /** The one-member body `{ key: value }`. */
  function Single(key: string, value: Value): (body: Value)
    ensures body.Obj? && body.fields.Keys == {key} && body.fields[key] == value
  {
    Obj(map[key := value])
  }

  /** An allowed key with an unacceptable value is refused with that key's message. */
  lemma ValueRejected(op: Op, v: Value, oracle: string -> Ai.Outcome)
    requires !Acceptable(op, v)
    ensures Handle(Single(KeyOf(op), v), oracle) == SafeError(400, RejectMessage(op))
  {
    CheckBodyOfSingleAllowedKey(Single(KeyOf(op), v), op);
  }

  /** `{ "fibonacci": n }` with an integer n in [0, 1000] answers the first n Fibonacci numbers. */
  lemma FibonacciResponse(n: int, oracle: string -> Ai.Outcome)
    requires 0 <= n <= FibonacciLimit
    ensures var r := Handle(Single("fibonacci", Int(n)), oracle);
            && r.status == 200
            && r.body.data.Arr?
            && |r.body.data.elems| == n
            && forall k :: 0 <= k < n ==> r.body.data.elems[k] == Int(Fibonacci.Fib(k))
  {
    CheckBodyOfSingleAllowedKey(Single("fibonacci", Int(n)), FibonacciOp);
  }

  /**
   `{ "prime": xs }` with a non-empty array answers the elements that are
   prime integers, in their original order and multiplicity.
   */
  lemma PrimeResponse(xs: seq<Value>, oracle: string -> Ai.Outcome)
    requires |xs| > 0
    ensures var r := Handle(Single("prime", Arr(xs)), oracle);
            && r.status == 200
            && r.body.data.Arr?
            && PrimeFilter.IsSubsequence(r.body.data.elems, xs)
            && (forall i :: 0 <= i < |r.body.data.elems| ==>
                  r.body.data.elems[i].Int? && Numeric.IsPrimeNumber(r.body.data.elems[i].i))
            && (forall i :: 0 <= i < |xs| && xs[i].Int? && Numeric.IsPrimeNumber(xs[i].i) ==>
                  xs[i] in r.body.data.elems)
            && (forall v: Value :: v.Int? && Numeric.IsPrimeNumber(v.i) ==>
                  multiset(r.body.data.elems)[v] == multiset(xs)[v])
  {
    CheckBodyOfSingleAllowedKey(Single("prime", Arr(xs)), PrimeOp);
    PrimeFilter.PrimesAreExactlyThePrimeIntegers(xs);
  }

  /**
   `{ "lcm": xs }` with a non-empty array of positive integers answers a
   positive common multiple of the elements that divides every other one.
   */
  lemma LcmResponse(xs: seq<Value>, m: int, oracle: string -> Ai.Outcome)
    requires PositiveIntegers(Arr(xs))
    ensures var r := Handle(Single("lcm", Arr(xs)), oracle);
            && r.status == 200
            && r.body.data.Int?
            && r.body.data.i > 0
            && (forall i :: 0 <= i < |xs| ==> Numeric.Divides(xs[i].i, r.body.data.i))
            && ((forall i :: 0 <= i < |xs| ==> Numeric.Divides(xs[i].i, m)) ==> Numeric.Divides(r.body.data.i, m))
  {
    var body := Single("lcm", Arr(xs));
    CheckBodyOfSingleAllowedKey(body, LcmOp);
    var ns := IntsOf(xs);
    var l := Reductions.LcmOfAll(ns);
    assert Handle(body, oracle) == Success200(Int(l));
    if forall i :: 0 <= i < |xs| ==> Numeric.Divides(xs[i].i, m) {
      assert Reductions.CommonMultiple(ns, m);
      Reductions.LcmOfAllIsLeast(ns, m);
    }
  }

  /**
   `{ "hcf": xs }` with a non-empty array of positive integers answers a
   positive common divisor of the elements that every other one divides.
   */
  lemma HcfResponse(xs: seq<Value>, d: int, oracle: string -> Ai.Outcome)
    requires PositiveIntegers(Arr(xs))
    ensures var r := Handle(Single("hcf", Arr(xs)), oracle);
            && r.status == 200
            && r.body.data.Int?
            && r.body.data.i > 0
            && (forall i :: 0 <= i < |xs| ==> Numeric.Divides(r.body.data.i, xs[i].i))
            && ((forall i :: 0 <= i < |xs| ==> Numeric.Divides(d, xs[i].i)) ==> Numeric.Divides(d, r.body.data.i))
  {
    var body := Single("hcf", Arr(xs));
    CheckBodyOfSingleAllowedKey(body, HcfOp);
    var ns := IntsOf(xs);
    var g := Reductions.HcfOfAll(ns);
    assert Handle(body, oracle) == Success200(Int(g));
    if forall i :: 0 <= i < |xs| ==> Numeric.Divides(d, xs[i].i) {
      assert Reductions.CommonDivisor(d, ns);
      Reductions.HcfOfAllIsGreatest(ns, d);
    }
  }

  /**
   `{ "AI": s }` with a string that is not all whitespace succeeds with the
   answer extracted from the collaborator's outcome for the prompt, the
   first 500 characters of `s`; a failed call still answers 200 with
   "Unavailable".
   */
  lemma AiResponse(s: string, oracle: string -> Ai.Outcome)
    requires !Text.IsBlank(s)
    ensures Handle(Single("AI", Str(s)), oracle) == Success200(Str(Ai.Answer(oracle(Ai.Prompt(s)))))
    ensures oracle(Ai.Prompt(s)).Failure? ==> Handle(Single("AI", Str(s)), oracle) == Success200(Str(Ai.Unavailable))
  {
    var body := Single("AI", Str(s));
    var i :| 0 <= i < |s| && !Text.IsSpace(s[i]);
    assert Acceptable(AiOp, Str(s));
    CheckBodyOfSingleAllowedKey(body, AiOp);
    var req := CheckValue(AiOp, Str(s)).value;
    assert req == AiReq(s);
    assert Handle(body, oracle) == Success200(Compute(req, oracle));
  }

  /**
   The response depends on the collaborator only through its outcome for the
   `AI` member's prompt: two collaborators that agree on it give the same
   response, and for a body without a string `AI` member any two do.
   */
  lemma OracleSeesOnlyThePrompt(body: Value, oracle1: string -> Ai.Outcome, oracle2: string -> Ai.Outcome)
    requires body.Obj? && "AI" in body.fields && body.fields["AI"].Str? ==>
               oracle1(Ai.Prompt(body.fields["AI"].s)) == oracle2(Ai.Prompt(body.fields["AI"].s))
    ensures Handle(body, oracle1) == Handle(body, oracle2)
  {
    match CheckBody(body)
    case Failure(_) =>
    case Success((op, v)) =>
  }
}
