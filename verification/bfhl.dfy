/**
 The POST /bfhl request handler: it validates the parsed body, dispatches
 on its single key to one of five operations and wraps the outcome in the
 uniform response envelope.
 */
module Bfhl {
  import opened Wrappers
  import opened Json
  import Text
  import Fibonacci
  import PrimeFilter
  import Reductions
  import Ai
  import Numeric

  /** The fixed address carried by every response. */
  const Email: string := "kavya0543.be23@chitkara.edu.in"

  const InvalidJsonBody: string := "Invalid JSON body"
  const InvalidInput: string := "Invalid input"
  const ExactlyOneKey: string := "Exactly one key is required"
  const InvalidKey: string := "Invalid key"

  /** The own property that is refused before anything else is looked at. */
  const ProtoKey: string := "__proto__"

  /** The largest accepted `fibonacci` count. */
  const FibonacciLimit: int := 1000

  /** The response body: `{ is_success, official_email, data }`. */
  datatype Envelope = Envelope(isSuccess: bool, officialEmail: string, data: Value)

  /** An HTTP status and the JSON envelope sent with it. */
  datatype Response = Response(status: nat, body: Envelope)

  /** The failure envelope built by `safeError`: the message travels in `data`. */
  function SafeError(status: nat, msg: string): Response
  {
    Response(status, Envelope(false, Email, Str(msg)))
  }

  /** The success envelope with status 200. */
  function Success200(data: Value): Response
  {
    Response(200, Envelope(true, Email, data))
  }

  // ---------------------------------------------------------------------------
  // Keys

  /** The five operations, one per allowed key. */
  datatype Op = FibonacciOp | PrimeOp | LcmOp | HcfOp | AiOp

  /** The allow-list, in the source's order. */
  const AllowedKeys: seq<string> := ["fibonacci", "prime", "lcm", "hcf", "AI"]

  /** The key naming an operation. */
  function KeyOf(op: Op): (k: string)
    ensures k in AllowedKeys && k != ProtoKey
  {
    match op
    case FibonacciOp => "fibonacci"
    case PrimeOp => "prime"
    case LcmOp => "lcm"
    case HcfOp => "hcf"
    case AiOp => "AI"
  }

  /**
   `allowedKeys.includes(key)` together with the choice of branch: the
   operation a key names, or `None` for a key outside the allow-list.
   */
  function ParseKey(k: string): (op: Option<Op>)
    ensures op.Some? <==> k in AllowedKeys
    ensures op.Some? ==> KeyOf(op.value) == k
  {
    if k == "fibonacci" then Some(FibonacciOp)
    else if k == "prime" then Some(PrimeOp)
    else if k == "lcm" then Some(LcmOp)
    else if k == "hcf" then Some(HcfOp)
    else if k == "AI" then Some(AiOp)
    else None
  }

  /** Parsing an operation's key gives the operation back. */
  lemma ParseKeyOf(op: Op)
    ensures ParseKey(KeyOf(op)) == Some(op)
  {
  }

  /** The message of each operation's input check. */
  function RejectMessage(op: Op): string
  {
    match op
    case FibonacciOp => "Invalid fibonacci input"
    case PrimeOp => "Prime input must be non-empty array"
    case LcmOp => "Invalid LCM input"
    case HcfOp => "Invalid HCF input"
    case AiOp => "Invalid AI input"
  }

  // ---------------------------------------------------------------------------
  // The body's own properties

  /** `Object.prototype.hasOwnProperty.call(body, "__proto__")`; an array has only index keys. */
  predicate HasOwnProto(body: Value)
    ensures HasOwnProto(body) ==> IsObject(body) && KeyCount(body) >= 1
    ensures body.Arr? ==> !HasOwnProto(body)
  {
    body.Obj? && ProtoKey in body.fields
  }

  /** `Object.keys(body).length`: an array's keys are its indices. */
  function KeyCount(body: Value): (n: nat)
    requires IsObject(body)
    ensures n == 0 <==> body == Arr([]) || body == Obj(map[])
  {
    match body
    case Arr(elems) => |elems|
    case Obj(fields) => |fields|
  }

  /** A set of one element holds nothing else. */
  lemma SingletonSet<T>(s: set<T>)
    requires |s| == 1
    ensures forall a, b :: a in s && b in s ==> a == b
  {
    forall a, b | a in s && b in s ensures a == b {
      assert |s - {a}| == 0;
      assert b in s - {a} || b == a;
    }
  }

  /**
   `keys[0]` and `body[keys[0]]` for a body with exactly one key: the index
   "0" and the only element of a one-element array, or the only member of
   an object.
   */
  function SoleEntry(body: Value): (e: (string, Value))
    requires IsObject(body) && KeyCount(body) == 1
    ensures body.Arr? ==> e == ("0", body.elems[0])
    ensures body.Obj? ==> body.fields.Keys == {e.0} && e.1 == body.fields[e.0]
  {
    match body
    case Arr(elems) => ("0", elems[0])
    case Obj(fields) =>
      SingletonSet(fields.Keys);
      var k :| k in fields.Keys;
      (k, fields[k])
  }

  // ---------------------------------------------------------------------------
  // Validation

  /**
   The body checks, in the source's order: an object, no own "__proto__",
   exactly one key, and that key in the allow-list. On success, the chosen
   operation and the value under its key.
   */
  function CheckBody(body: Value): (r: Result<(Op, Value), string>)
    ensures r.Success? ==> body.Obj? && body.fields.Keys == {KeyOf(r.value.0)}
                           && r.value.1 == body.fields[KeyOf(r.value.0)]
  {
    if !IsObject(body) then
      Failure(InvalidJsonBody)
    else if HasOwnProto(body) then
      Failure(InvalidInput)
    else if KeyCount(body) != 1 then
      Failure(ExactlyOneKey)
    else
      var (key, value) := SoleEntry(body);
      match ParseKey(key)
      case None => Failure(InvalidKey)
      case Some(op) => Success((op, value))
  }

  /** The request each operation runs on, once its input is checked. */
  datatype Request =
    | FibonacciReq(n: nat)
    | PrimeReq(xs: seq<Value>)
    | LcmReq(ns: seq<int>)
    | HcfReq(ns: seq<int>)
    | AiReq(text: string)

  /** What a checked request guarantees to the computation. */
  ghost predicate ValidRequest(req: Request)
  {
    match req
    case FibonacciReq(n) => n <= FibonacciLimit
    case PrimeReq(xs) => |xs| > 0
    case LcmReq(ns) => |ns| > 0 && Reductions.AllPositive(ns)
    case HcfReq(ns) => |ns| > 0 && Reductions.AllPositive(ns)
    case AiReq(text) => !Text.IsBlank(text)
  }

  /** Each operation's accepted inputs, stated positively. */
  ghost predicate Acceptable(op: Op, v: Value)
  {
    match op
    case FibonacciOp => v.Int? && 0 <= v.i <= FibonacciLimit
    case PrimeOp => v.Arr? && |v.elems| > 0
    case LcmOp => PositiveIntegers(v)
    case HcfOp => PositiveIntegers(v)
    case AiOp => v.Str? && exists i :: 0 <= i < |v.s| && !Text.IsSpace(v.s[i])
  }

  /** A non-empty array of positive integers. */
  ghost predicate PositiveIntegers(v: Value)
  {
    v.Arr? && |v.elems| > 0 && forall i :: 0 <= i < |v.elems| ==> v.elems[i].Int? && v.elems[i].i > 0
  }

  /** The integers of an array whose elements are all integers. */
  function IntsOf(xs: seq<Value>): (ns: seq<int>)
    requires forall i :: 0 <= i < |xs| ==> xs[i].Int?
    ensures |ns| == |xs|
    ensures forall i :: 0 <= i < |xs| ==> xs[i] == Int(ns[i])
  {
    if xs == [] then [] else [xs[0].i] + IntsOf(xs[1..])
  }

  /** `value.some((n) => !Number.isInteger(n) || n <= 0)`. */
  predicate SomeNotPositiveInteger(xs: seq<Value>)
  {
    exists i :: 0 <= i < |xs| && (!IsInteger(xs[i]) || xs[i].i <= 0)
  }

  /** No element fails the test exactly when every element is a positive integer. */
  lemma AllPositiveIntegers(xs: seq<Value>)
    ensures !SomeNotPositiveInteger(xs) <==> forall i :: 0 <= i < |xs| ==> xs[i].Int? && xs[i].i > 0
  {
  }

  /**
   The per-key input checks: the value is accepted exactly when it meets
   its operation's input conditions; otherwise the operation's message.
   */
  function CheckValue(op: Op, v: Value): (r: Result<Request, string>)
    ensures r.Success? <==> Acceptable(op, v)
    ensures r.Failure? ==> r.error == RejectMessage(op)
    ensures r.Success? ==> ValidRequest(r.value)
  {
    match op
    case FibonacciOp =>
      if !IsInteger(v) || v.i < 0 || v.i > FibonacciLimit then Failure(RejectMessage(op))
      else Success(FibonacciReq(v.i))
    case PrimeOp =>
      if !v.Arr? || |v.elems| == 0 then Failure(RejectMessage(op))
      else Success(PrimeReq(v.elems))
    case LcmOp =>
      if !v.Arr? || |v.elems| == 0 then Failure(RejectMessage(op))
      else
        AllPositiveIntegers(v.elems);
        if SomeNotPositiveInteger(v.elems) then Failure(RejectMessage(op))
      else Success(LcmReq(IntsOf(v.elems)))
    case HcfOp =>
      if !v.Arr? || |v.elems| == 0 then Failure(RejectMessage(op))
      else
        AllPositiveIntegers(v.elems);
        if SomeNotPositiveInteger(v.elems) then Failure(RejectMessage(op))
      else Success(HcfReq(IntsOf(v.elems)))
    case AiOp =>
      if !v.Str? then Failure(RejectMessage(op))
      else
        Text.TrimEmptyIffBlank(v.s);
        if |Text.Trim(v.s)| == 0 then Failure(RejectMessage(op))
        else Success(AiReq(v.s))
  }

  // ---------------------------------------------------------------------------
  // Dispatch and the handler

  /** The integers of a sequence as JSON numbers. */
  function Numbers(ns: seq<nat>): (vs: seq<Value>)
    ensures |vs| == |ns| && forall i :: 0 <= i < |ns| ==> vs[i] == Int(ns[i])
  {
    seq(|ns|, i requires 0 <= i < |ns| => Int(ns[i]))
  }

  /**
   The `data` each operation produces: the first `n` Fibonacci numbers; the
   kept elements, each as often as in the input; a positive common multiple;
   a positive common divisor; a non-empty answer derived from the
   collaborator's outcome for the prompt.
   */
  function Compute(req: Request, oracle: string -> Ai.Outcome): (data: Value)
    requires ValidRequest(req)
    ensures req.FibonacciReq? ==>
              data.Arr? && |data.elems| == req.n
              && forall k :: 0 <= k < req.n ==> data.elems[k] == Int(Fibonacci.Fib(k))
    ensures req.PrimeReq? ==>
              data.Arr? && PrimeFilter.IsSubsequence(data.elems, req.xs)
              && (forall i :: 0 <= i < |data.elems| ==> PrimeFilter.Keep(data.elems[i]))
              && forall v :: PrimeFilter.Keep(v) ==> multiset(data.elems)[v] == multiset(req.xs)[v]
    ensures req.LcmReq? ==>
              data.Int? && data.i > 0 && forall i :: 0 <= i < |req.ns| ==> Numeric.Divides(req.ns[i], data.i)
    ensures req.HcfReq? ==>
              data.Int? && data.i > 0 && forall i :: 0 <= i < |req.ns| ==> Numeric.Divides(data.i, req.ns[i])
    ensures req.AiReq? ==> data.Str? && data.s != []
  {
    match req
    case FibonacciReq(n) => Arr(Numbers(Fibonacci.Sequence(n)))
    case PrimeReq(xs) => Arr(PrimeFilter.Primes(xs))
    case LcmReq(ns) => Int(Reductions.LcmOfAll(ns))
    case HcfReq(ns) => Int(Reductions.HcfOfAll(ns))
    case AiReq(text) => Str(Ai.Answer(oracle(Ai.Prompt(text))))
  }

  /** The rejection messages the handler can send. */
  ghost predicate IsRejectMessage(msg: string)
  {
    msg in {InvalidJsonBody, InvalidInput, ExactlyOneKey, InvalidKey}
    || exists op :: msg == RejectMessage(op)
  }

  /**
   POST /bfhl for a parsed body, given how the collaborator would answer each
   prompt. Every response carries the fixed address; it is a success exactly
   when its status is 200, and otherwise a 400 whose data is one of the
   handler's messages.
   */
  function Handle(body: Value, oracle: string -> Ai.Outcome): (r: Response)
    ensures r.status == 200 || r.status == 400
    ensures r.body.officialEmail == Email
    ensures r.body.isSuccess <==> r.status == 200
    ensures !r.body.isSuccess ==> r.body.data.Str? && IsRejectMessage(r.body.data.s)
  {
    match CheckBody(body)
    case Failure(msg) => SafeError(400, msg)
    case Success((op, value)) =>
      match CheckValue(op, value)
      case Failure(msg) => SafeError(400, msg)
      case Success(req) => Success200(Compute(req, oracle))
  }
}
