# A verified model of the POST /bfhl handler

The repository is a one-endpoint HTTP service. Its only logic is the
`POST /bfhl` handler in `index.js` and three numeric helpers. The handler
takes a JSON body with exactly one allowed key and runs one of five
operations:

- `fibonacci`: the first N Fibonacci numbers.
- `prime`: the prime integers of an array.
- `lcm` and `hcf`: a left reduction of an array of positive integers.
- `AI`: one call to an external text-generation service.

Every answer is wrapped in the envelope `{ is_success, official_email, data }`.

This project models the handler as one pure function:
`Bfhl.Handle(body, oracle)`. It maps a parsed JSON value and a collaborator
to an HTTP status and an envelope. The helpers sit beside it as pure
functions. Every contract below is proved by Dafny.

Modules, one per concern of `index.js`:

- `Json`: the parsed body as the JavaScript runtime sees it.
  - Integers are kept apart from other numbers, as `Number.isInteger` does.
  - An object is the map of its own properties.
  - Arrays are objects too, so they pass the `typeof` check.
- `Numeric`: `isPrime`, `gcd` and `lcm`, with divisibility lemmas.
- `Reductions`: the `lcm` and `hcf` reductions.
- `Fibonacci`: the generating loop.
- `PrimeFilter`: the `prime` filter.
- `Text`: the whitespace class shared by `trim()` and `\s`, trimming, and the first token.
- `Ai`: the prompt and the answer extracted from the collaborator's outcome.
- `Bfhl`: the validation chain, dispatch, envelopes and `Handle`.
- `BfhlProperties`: properties of `Handle` as a whole.
- `BfhlExamples`: worked requests.

The collaborator is a parameter, `oracle: string -> Ai.Outcome`. An outcome is
either `Failure` or `Reply(text)`, where `text` is optional. Because the
collaborator is a parameter, the model can state which prompt it receives.

Three behaviours of the code are easy to miss:

- The `"__proto__"` check runs before the key count, so `{"__proto__": 1, "x": 2}`
  gets "Invalid input", not "Exactly one key is required".
- The AI answer is "Unknown" for a missing text. It is also "Unknown" for an
  empty text or one that starts with whitespace, because the first split
  token is then empty.
- An array body passes the object check. `[]` gets "Exactly one key is
  required". `[x]` gets "Invalid key", because its only key is `"0"`.

## Model

| member | source | states |
|---|---|---|
| Numeric.TrialDivision | index.js:25-30 | The loop from candidate `i` returns true exactly when no `d >= i` with `d*d <= n` divides `n` |
| Numeric.IsPrime | index.js:22-31 | False below 2; otherwise true exactly when no `d` with `2 <= d` and `d*d <= n` divides `n` |
| Numeric.IsPrimeCorrect | index.js:22-31 | Trial division up to the square root agrees with the definition of a prime, in both directions |
| Numeric.Gcd | index.js:33 | `gcd(a, 0) = a`; the result is 0 only for (0, 0); otherwise it divides both arguments; every common divisor divides it |
| Numeric.GcdIsGreatest | index.js:33 | Every common divisor of two numbers, not both zero, is at most their gcd |
| Numeric.Lcm | index.js:34 | `a*b` is divisible by `gcd(a, b)` (the division is exact); `lcm * gcd = a*b`; for positive arguments the result is a positive multiple of both |
| Numeric.LcmIsLeast | index.js:34 | Every common multiple of two positive numbers is a multiple of their lcm |
| Reductions.LcmReduce | index.js:101 | Folding `acc = lcm(acc, n)` from a positive seed gives a positive multiple of the seed and of every element |
| Reductions.LcmOfAll | index.js:101 | The reduction of a non-empty array of positive integers is positive and a multiple of every element |
| Reductions.LcmOfAllIsLeast | index.js:101 | The reduction divides every common multiple of the elements |
| Reductions.HcfReduce | index.js:113 | Folding `acc = gcd(acc, n)` from a positive seed gives a positive divisor of the seed and of every element |
| Reductions.HcfOfAll | index.js:113 | The reduction of a non-empty array of positive integers is positive and divides every element |
| Reductions.HcfOfAllIsGreatest | index.js:113 | Every common divisor of the elements divides the reduction |
| Fibonacci.Loop | index.js:74-79 | From any state satisfying the loop invariant, the loop ends with `n` elements, element `k` being `Fib(k)` |
| Fibonacci.Sequence | index.js:74-79 | Length `n`; element `k` is `Fib(k)`; starts 0, 1; each later element is the sum of the two before it; empty for 0 |
| PrimeFilter.Keep | index.js:88 | The filter's callback accepts exactly the integers that are prime in the mathematical sense |
| PrimeFilter.Primes | index.js:87-89 | An order-preserving subsequence of the input; only integers passing the primality test; each such value as often as in the input |
| PrimeFilter.PrimesAreExactlyThePrimeIntegers | index.js:87-89 | Every result element is a mathematically prime integer, and every prime integer in the input is in the result |
| Text.TrimStart | index.js:117 | The suffix that starts at the first non-whitespace character; everything dropped is whitespace |
| Text.TrimEnd | index.js:117 | The prefix that ends at the last non-whitespace character; everything dropped is whitespace |
| Text.Trim | index.js:117 | `s.trim()`: a contiguous piece of `s` with only whitespace before and after it, and empty or starting and ending with a non-whitespace character |
| Text.TrimEmptyIffBlank | index.js:117 | `s.trim().length === 0` holds exactly when every character of `s` is whitespace |
| Text.FirstToken | index.js:131-132 | `split(/\s+/)[0]`: a prefix free of whitespace that is followed by whitespace or reaches the end |
| Ai.Prompt | index.js:125 | `value.slice(0, 500)`: the prefix of length `min(|s|, 500)` |
| Ai.Answer | index.js:121-136 | The answer is "Unavailable" on failure. It is "Unknown" for missing or empty text, or text starting with whitespace. Otherwise it is the non-empty text up to the first whitespace |
| Bfhl.KeyOf | index.js:62 | Every operation's key is in the allow-list and differs from `"__proto__"` |
| Bfhl.ParseKey | index.js:62-65 | A key selects an operation exactly when it is in the allow-list, and that operation's key is the given key |
| Bfhl.HasOwnProto | index.js:49 | An own `"__proto__"` occurs only on an object, which then has at least one key; an array never has one. Its effect on the handler is stated by `BfhlProperties.ValidationOrder` |
| Bfhl.KeyCount | index.js:53-55 | The key count is zero exactly for `[]` and `{}`. The effect of the `!== 1` test is stated by `BfhlProperties.ValidationOrder` |
| Bfhl.SoleEntry | index.js:53-60 | With exactly one key, the entry is the object's only member, or `("0", element)` for a one-element array |
| Bfhl.CheckBody | index.js:45-65 | Passing the body checks means the body is an object whose only key is the chosen operation's key; the value is the member under that key |
| Bfhl.CheckValue | index.js:69-118 | A value is accepted exactly when it meets its key's conditions: an integer in [0, 1000]; a non-empty array; a non-empty array of positive integers; a string that is not all whitespace. A rejection carries the key's message |
| Bfhl.Compute | index.js:67-137 | Per key: `n` elements equal to `Fib(k)`; an order-preserving subsequence of kept elements, each as often as in the input; a positive common multiple of the elements; a positive common divisor of the elements; a non-empty answer string |
| Bfhl.Handle | index.js:15-143 | Status 200 or 400; every envelope carries the fixed email; `is_success` exactly on 200; a 400 carries one of the handler's messages |
| BfhlProperties.CheckBodyOfSingleAllowedKey | index.js:53-65 | An object whose only key is in the allow-list passes every body check and selects that key's operation |
| BfhlProperties.HandleAcceptsExactly | index.js:45-143 | The status is 200 exactly for an object whose one member is an allowed key with an acceptable value, whatever the collaborator does |
| BfhlProperties.ValidationOrder | index.js:45-65 | A non-object fails first; then an own `"__proto__"`, with or without other keys; then a key count other than one (arrays count elements); then a key outside the allow-list |
| BfhlProperties.ValueRejected | index.js:70-118 | An allowed key with an unacceptable value gets 400 with that key's own message |
| BfhlProperties.FibonacciResponse | index.js:69-80 | For integer N in [0, 1000]: status 200 and an array of N elements, element k being `Fib(k)` |
| BfhlProperties.PrimeResponse | index.js:82-90 | For a non-empty array: status 200 and an order-preserving subsequence holding exactly the input's prime integers, each as often as in the input |
| BfhlProperties.LcmResponse | index.js:92-102 | For positive integers: status 200, and the result is a positive multiple of every element that divides every common multiple |
| BfhlProperties.HcfResponse | index.js:104-114 | For positive integers: status 200, and the result is a positive divisor of every element that every common divisor divides |
| BfhlProperties.AiResponse | index.js:116-137 | For a string that is not all whitespace, the data is the answer to the collaborator's outcome for the 500-character prompt. A failed call still gives 200 with "Unavailable" |
| BfhlProperties.OracleSeesOnlyThePrompt | index.js:121-128 | Two collaborators that agree on the `AI` member's prompt give the same response; for any other body, any two collaborators do |
| BfhlExamples.FibonacciFive | index.js:69-80 | `{"fibonacci": 5}` answers `[0, 1, 1, 2, 3]` |
| BfhlExamples.LcmExample | index.js:92-102 | `{"lcm": [4, 6]}` answers 12 |
| BfhlExamples.HcfExample | index.js:104-114 | `{"hcf": [12, 18]}` answers 6 |
| BfhlExamples.KeptSmallValues | index.js:87-89 | 2, 3 and 5 pass the filter's callback; 4 and 9 do not |
| BfhlExamples.PrimeExample | index.js:87-89 | The `prime` filter maps `[2, 3, 4, 5, 9]` to `[2, 3, 5]` |
| BfhlExamples.TwoKeys | index.js:53-57 | A body with two keys gets 400 "Exactly one key is required" |
| BfhlExamples.FibonacciOutOfRange | index.js:70-72 | `{"fibonacci": -1}` and `{"fibonacci": 1001}` get 400 "Invalid fibonacci input" |

`SafeError` and `Success200` build the two envelopes; `Handle`'s row states their promise.

## Left out

- Express app setup is not modelled: the 10 KB body limit, CORS, dotenv, `app.listen`, the `/health` route and the 404 fallback (index.js:1-13, 36-41, 150-156). They are framework plumbing.
- Body parsing is not modelled. The model starts from the parsed value. The JSON parser may refuse a top-level primitive, and a non-JSON content type may leave an empty body. Both happen before the handler runs.
- The HTTPS call to the text-generation service, its API key and its 5-second timeout are not modelled (index.js:122-128). The call's outcome for a prompt is an input, `oracle`.
- The `console.error` logging in the AI branch is not modelled (index.js:134).
- The generic 500 catch-all is not modelled (index.js:145-147). In the source it is reachable from a body that passes validation: see the `lcm` lines below.
- Ai.Answer: a reply whose `text` is present but not a string makes `split` throw. The inner `catch` then answers "Unavailable". The model folds that case into `Failure`.
- Double-precision numbers are not modelled. Integers are unbounded. Fibonacci terms above 2^53 and large `a*b` products in `lcm` lose precision in the source but are exact here.
- Reductions.LcmOfAll: `lcm` computes `a * b` before dividing (index.js:34), so a large product overflows to `Infinity`. `{"lcm": [1e200, 1e200]}` then answers 200 with `data: null`, since `JSON.stringify(Infinity)` is `null`. The model answers 10^200.
- Reductions.LcmOfAll: after such an overflow the next step calls `gcd(Infinity, n)`. That becomes `gcd(n, NaN)` and then `gcd(NaN, NaN)` without end (index.js:33), and the stack overflow is caught by the catch-all. `{"lcm": [1e200, 1e200, 3]}` answers 500 "Internal server error". The model answers 200 with 3*10^200.
- Ai.Prompt: `slice(0, 500)` counts UTF-16 code units; the model counts Unicode scalar values. The two differ only for characters outside the Basic Multilingual Plane. A string holding an unpaired surrogate, such as the one `JSON.parse` makes from `"\ud800"`, cannot be represented at all: a Dafny `string` holds only Unicode scalar values, so such inputs lie outside the model.
- Numeric.Gcd: defined on natural numbers only. The handler passes only positive integers. The source's truncating `%` on negative operands is not modelled.
- Numeric.Lcm: requires that not both arguments are zero. For (0, 0) the source computes 0/0, which is NaN. The handler never reaches it.
- The order of `Object.keys` is not modelled; an object is a map of its own properties. The handler goes on only when there is exactly one key, so order cannot matter.
