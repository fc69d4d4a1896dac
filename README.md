# HelloController buffer-leak harness, modelled in Dafny

The controller of this Micronaut application (`HelloController`) calls its
own `/hello` endpoint with an HTTP client. It consumes each response with one
of three strategies (`ClientTestMethod`): `RETRIEVE`, `EXCHANGE` and
`EXCHANGE_RELEASE`. The strategies differ in what they do to the Netty
reference-counted buffer behind the response. `EXCHANGE` never releases it,
which is the leak the project reproduces. `EXCHANGE_RELEASE` releases it once,
behind a guard that the count is still positive. At start-up the controller
registers `count` repeating workers in a `CompositeDisposable` registry. The
endpoint they call, `greeting`, answers twenty salutations.

The model has five modules:

- `Options`: Java's `Optional` as `Option`, and `Result` for an operation that can fail.
- `Text`: `Repeat`, the specification of the greeting. It comes with an
  independent block-by-block description (`IsRepetition`) and a proof that the two agree.
- `Buffers`: a buffer reduced to its `refCnt`. Netty's `release` is modelled
  as a `Result` that fails on a zero count. The strategy's guard is `GuardedRelease`.
- `Strategies`: the `ClientTestMethod` datatype, the path each strategy
  requests, and `Get`, which processes one response. The HTTP response is an
  opaque input: its optional body and its optional buffer. `Process` applies
  `Get` to a run of successive responses. The lemmas about `Process` account
  for every reference-count claim.
- `Controller`: the class `HelloController`. Its `Greeting` method is a loop
  proved against `Repeat`. Its `StartLoop` method is a loop that appends
  handles to the `disposable` field. A handle is an opaque number given out in
  creation order.

## Model

| member | source | states |
|---|---|---|
| `Text.Repeat` | src/main/java/buffer/leak/app/HelloController.java:86-90 | n copies of s have length exactly n * \|s\| |
| `Text.RepeatAdd` | src/main/java/buffer/leak/app/HelloController.java:87-89 | repeating m + n times is repeating m times followed by n more copies (the builder only ever appends) |
| `Text.RepeatIsRepetition` | src/main/java/buffer/leak/app/HelloController.java:87-89 | every one of the n blocks of width \|s\| in Repeat(s, n) is a copy of s |
| `Text.BlockOfRepeat` | src/main/java/buffer/leak/app/HelloController.java:87-89 | the k-th block of width \|s\| of n copies of s is s, for every k below n |
| `Text.SplitLastBlock` | src/main/java/buffer/leak/app/HelloController.java:87-89 | a string of n blocks equal to s is n - 1 such blocks followed by one more copy of s |
| `Text.RepetitionIsRepeat` | src/main/java/buffer/leak/app/HelloController.java:87-89 | conversely, any string made of n blocks that all equal s is Repeat(s, n), so the block description fixes the greeting uniquely |
| `Controller.HelloController.Greeting` | src/main/java/buffer/leak/app/HelloController.java:84-91 | the loop leaves the builder holding i copies of `Salutation(username)` after i rounds; the result is 20 back-to-back copies of "Hello " + username + "; ", of length 20 * (\|username\| + 8) |
| `Buffers.Release` | src/main/java/buffer/leak/app/HelloController.java:61 | a release succeeds exactly when the count is positive, and then lowers it by exactly one; on a zero count it fails with an illegal-reference-count error |
| `Buffers.GuardedRelease` | src/main/java/buffer/leak/app/HelloController.java:59-62 | behind the `refCnt() > 0` guard the release never fails: a positive count drops by one, a zero count is left untouched, and the count never rises |
| `Strategies.Path` | src/main/java/buffer/leak/app/HelloController.java:39-55 | each strategy requests a path under the controller's own `/hello/` route |
| `Strategies.MethodOfPath` | src/main/java/buffer/leak/app/HelloController.java:39-55 | a path that names a strategy is exactly that strategy's request path |
| `Strategies.PathRoundTrip` | src/main/java/buffer/leak/app/HelloController.java:39-55 | a path maps back to a strategy if and only if it is that strategy's path, so `/hello/retrieve`, `/hello/exchange` and `/hello/exchange_release` are distinct |
| `Strategies.OrElseNull` | src/main/java/buffer/leak/app/HelloController.java:48 | the extracted body is null exactly when the response has no body, and otherwise the body itself |
| `Strategies.Get` | src/main/java/buffer/leak/app/HelloController.java:36-69 | every strategy emits the body or null, whatever happens to the buffer; no buffer is created or dropped; the buffer changes if and only if the strategy is EXCHANGE_RELEASE and the buffer is present with a positive count, and then its count drops by exactly one (the `ifPresent` step is `ReleaseIfPresent`) |
| `Strategies.Process` | src/main/java/buffer/leak/app/HelloController.java:97-99 | successive responses of one repeating worker are each consumed by exactly one `get`, in order |
| `Strategies.ClaimsAccounting` | src/main/java/buffer/leak/app/HelloController.java:56-64 | over any run, the claims outstanding afterwards plus the number of releases equal the claims at receipt |
| `Strategies.OnlyExchangeReleaseReleases` | src/main/java/buffer/leak/app/HelloController.java:37-49 | RETRIEVE and EXCHANGE release nothing: every buffer keeps the count it had at receipt (the leak EXCHANGE demonstrates) |
| `Strategies.ReleaseCountOfSingleClaims` | src/main/java/buffer/leak/app/HelloController.java:56-64 | when every buffer arrives with one claim, EXCHANGE_RELEASE releases as many times as there are claims |
| `Strategies.ExchangeReleaseFreesSingleClaims` | src/main/java/buffer/leak/app/HelloController.java:56-64 | when every buffer arrives with one claim, EXCHANGE_RELEASE leaves none outstanding: each buffer ends at count 0 |
| `Strategies.RetrieveHoldsNoClaims` | src/main/java/buffer/leak/app/HelloController.java:37-41 | RETRIEVE is handed only the decoded body: over responses without a raw buffer, no claim is outstanding afterwards |
| `Controller.Handles` | src/main/java/buffer/leak/app/HelloController.java:96-101 | n handles created one after another from `start` are start, start + 1, ..., in creation order |
| `Controller.HelloController.constructor` | src/main/java/buffer/leak/app/HelloController.java:71-82 | binds the strategy, the worker count and the delay, and starts with an empty registry |
| `Controller.HelloController.Subscribe` | src/main/java/buffer/leak/app/HelloController.java:97-100 | starting a worker creates one new handle, different from every handle created before |
| `Controller.HelloController.StartLoop` | src/main/java/buffer/leak/app/HelloController.java:94-103 | appends exactly max(count, 0) new handles (`Iterations(count)`) to the registry, in creation order, leaving earlier entries unchanged; the registry stays free of repeats |

## Left out

- The HTTP transport (`RxHttpClient.retrieve` and `exchange`) is not modelled. Its response is an opaque input to `Get`.
- `Strategies.Get` for RETRIEVE: what `retrieve` itself emits when a response has no body is client behaviour and is not visible here. The model gives RETRIEVE the same value-or-null extraction as the exchange variants.
- `Strategies.Get` for RETRIEVE: `retrieve` hands the strategy only a decoded `String`, so `byteBuf` has no counterpart in the source for this variant. Callers pass `None`, and `RetrieveHoldsNoClaims` covers that case.
- `Strategies.OrElseNull`: RxJava 2 turns a null returned from `map` into an error signal. That is library behaviour and is not modelled. The model stops at the Java value, null or a string.
- `Strategies.Process`: a worker ends for good at its first error. `repeatWhen` restarts the stream only when it completes, and `forEach` has no error handler. A transport failure raises such an error, and so does a null body, because RxJava 2 refuses a null from `map`. The runs the source can produce therefore have no `Null` reply before the last step. `Process` accepts any sequence of responses, so it also covers runs that go on after a `Null` reply. Its lemmas hold for every run, and so also for the reachable ones.
- The repetition with delay (`repeatWhen` with `delay`) and the `forEach` subscription are not modelled: they are timer-driven concurrent streams. `delayMillis` is stored and never used. `Process` covers only the sequential consumption of one worker's successive responses. It says nothing about timing or about how workers interleave.
- `cleanup` and what `CompositeDisposable.dispose()` does are not modelled: disposal and cancellation are library behaviour. The registry is only a sequence of handle numbers.
- Netty `ByteBuf` and `ReferenceCountUtil.release` internals are not modelled. Deallocation at count zero is out. Only the check-and-decrement effect is kept. A response whose body cannot be read as a `ByteBuf` is modelled as `byteBuf == None`.
- Logging is not modelled.
- Micronaut annotations, dependency injection, the routing of `/hello/{username}`, the binding of the configured strategy name to the enum, and the parsing of the `50ms` default delay are not modelled.
- `Controller.HelloController.Greeting`: a null `username`, which `StringBuilder` would append as `"null"`, is not modelled. The length is stated in characters, not in UTF-16 code units.
