/** HelloController.ClientTestMethod: the three ways of consuming one
    response of the controller's own HTTP client. */
module Strategies {
  import opened Options
  import opened Buffers

  /** The strategy, chosen once by configuration. */
  datatype ClientTestMethod = Retrieve | Exchange | ExchangeRelease

  /** The prefix of every route of the controller mounted at `/hello`, the
      controller the strategies call back into. */
  const ControllerRoot: string := "/hello/"

  /** The path a strategy requests from the client. */
  function Path(m: ClientTestMethod): (p: string)
    ensures |ControllerRoot| < |p| && p[..|ControllerRoot|] == ControllerRoot
  {
    match m
    case Retrieve => "/hello/retrieve"
    case Exchange => "/hello/exchange"
    case ExchangeRelease => "/hello/exchange_release"
  }

  /** The strategy, if any, that requests path `p`. */
  function MethodOfPath(p: string): (r: Option<ClientTestMethod>)
    ensures r.Some? ==> Path(r.value) == p
  {
    if p == "/hello/retrieve" then Some(Retrieve)
    else if p == "/hello/exchange" then Some(Exchange)
    else if p == "/hello/exchange_release" then Some(ExchangeRelease)
    else None
  }

  /** Each strategy's path leads back to that strategy and to no other, so
      the three paths are distinct. */
  lemma PathRoundTrip(m: ClientTestMethod, p: string)
    ensures MethodOfPath(p) == Some(m) <==> Path(m) == p
  {
  }

  /** The client's response, an opaque input: the body decoded as a string,
      if any, and the raw buffer behind it, if the transport exposes one. */
  datatype Response = Response(body: Option<string>, byteBuf: Option<Buffer>)

  /** A Java String reference: null or a value. */
  datatype Reply = Null | Text(text: string)

  /** `Optional.orElse(null)`. */
  function OrElseNull(o: Option<string>): (r: Reply)
    ensures r.Null? <==> o.None?
    ensures o.Some? ==> r == Text(o.value)
  {
    match o
    case None => Null
    case Some(s) => Text(s)
  }

  /** What one response leaves behind: the element emitted downstream and the
      state of the response's buffer afterwards. */
  datatype Step = Step(reply: Reply, byteBuf: Option<Buffer>)

  /** True when strategy `m` gives up a claim on the buffer of `res`. */
  predicate Releases(m: ClientTestMethod, res: Response)
  {
    m == ExchangeRelease && res.byteBuf.Some? && res.byteBuf.value.refCnt > 0
  }

  /** The buffer step of EXCHANGE_RELEASE (`doOnNext` with `ifPresent`). */
  function ReleaseIfPresent(bb: Option<Buffer>): Option<Buffer>
  {
    match bb
    case None => None
    case Some(b) => Some(GuardedRelease(b))
  }

  /** One response processed by `ClientTestMethod.get`. */
  function Get(m: ClientTestMethod, res: Response): (s: Step)
    // every variant emits the body, or null without one; the buffer step does not touch it
    ensures s.reply == OrElseNull(res.body)
    // a buffer is neither created nor dropped
    ensures s.byteBuf.Some? <==> res.byteBuf.Some?
    // the count changes exactly when the strategy releases, and then by exactly one
    ensures s.byteBuf != res.byteBuf <==> Releases(m, res)
    ensures Releases(m, res) ==> s.byteBuf.value.refCnt + 1 == res.byteBuf.value.refCnt
  {
    match m
    case Retrieve => Step(OrElseNull(res.body), res.byteBuf)
    case Exchange => Step(OrElseNull(res.body), res.byteBuf)
    case ExchangeRelease => Step(OrElseNull(res.body), ReleaseIfPresent(res.byteBuf))
  }

  /** Successive responses of one worker, each consumed by one `Get`. */
  function Process(m: ClientTestMethod, rs: seq<Response>): (out: seq<Step>)
    ensures |out| == |rs|
    ensures forall i :: 0 <= i < |rs| ==> out[i] == Get(m, rs[i])
  {
    if rs == [] then [] else Process(m, rs[..|rs| - 1]) + [Get(m, rs[|rs| - 1])]
  }

  /** The sum of the reference counts of the buffers present in `bs`. */
  function Outstanding(bs: seq<Option<Buffer>>): nat
  {
    if bs == [] then 0
    else Outstanding(bs[..|bs| - 1]) + (match bs[|bs| - 1] case None => 0 case Some(b) => b.refCnt)
  }

  /** The number of responses in `rs` whose buffer strategy `m` releases. */
  function ReleaseCount(m: ClientTestMethod, rs: seq<Response>): nat
  {
    if rs == [] then 0
    else ReleaseCount(m, rs[..|rs| - 1]) + (if Releases(m, rs[|rs| - 1]) then 1 else 0)
  }

  /** The buffers of a run, one entry per element, read off by `buf`. */
  function BuffersOf<T>(xs: seq<T>, buf: T -> Option<Buffer>): seq<Option<Buffer>>
  {
    seq(|xs|, i requires 0 <= i < |xs| => buf(xs[i]))
  }

  /** The buffer a response arrives with. */
  const Received := (r: Response) => r.byteBuf
  /** The buffer a processed response leaves behind. */
  const Remaining := (s: Step) => s.byteBuf

  /** Accounting over a run: the claims outstanding afterwards are the claims
      at receipt minus one per release. */
  lemma {:induction false} ClaimsAccounting(m: ClientTestMethod, rs: seq<Response>)
    ensures Outstanding(BuffersOf(Process(m, rs), Remaining)) + ReleaseCount(m, rs) == Outstanding(BuffersOf(rs, Received))
  {
    if rs != [] {
      var front := rs[..|rs| - 1];
      ClaimsAccounting(m, front);
      var after := BuffersOf(Process(m, rs), Remaining);
      var before := BuffersOf(rs, Received);
      assert after[..|after| - 1] == BuffersOf(Process(m, front), Remaining);
      assert before[..|before| - 1] == BuffersOf(front, Received);
    }
  }

  /** Only EXCHANGE_RELEASE ever releases: RETRIEVE and EXCHANGE leave every
      buffer with the count it had at receipt (the leak EXCHANGE demonstrates). */
  lemma {:induction false} OnlyExchangeReleaseReleases(m: ClientTestMethod, rs: seq<Response>)
    requires m != ExchangeRelease
    ensures ReleaseCount(m, rs) == 0
    ensures BuffersOf(Process(m, rs), Remaining) == BuffersOf(rs, Received)
  {
    if rs != [] {
      OnlyExchangeReleaseReleases(m, rs[..|rs| - 1]);
    }
  }

  /** EXCHANGE_RELEASE on buffers the transport handed over with a single
      claim leaves no claim outstanding: every buffer is freed exactly once. */
  lemma ExchangeReleaseFreesSingleClaims(rs: seq<Response>)
    requires forall i :: 0 <= i < |rs| && rs[i].byteBuf.Some? ==> rs[i].byteBuf.value.refCnt == 1
    ensures Outstanding(BuffersOf(Process(ExchangeRelease, rs), Remaining)) == 0
    ensures forall i :: 0 <= i < |rs| && rs[i].byteBuf.Some? ==>
              Process(ExchangeRelease, rs)[i].byteBuf == Some(Buffer(0))
  {
    ReleaseCountOfSingleClaims(rs);
    ClaimsAccounting(ExchangeRelease, rs);
  }

  /** When every buffer arrives with one claim, EXCHANGE_RELEASE releases once per claim. */
  lemma {:induction false} ReleaseCountOfSingleClaims(rs: seq<Response>)
    requires forall i :: 0 <= i < |rs| && rs[i].byteBuf.Some? ==> rs[i].byteBuf.value.refCnt == 1
    ensures ReleaseCount(ExchangeRelease, rs) == Outstanding(BuffersOf(rs, Received))
  {
    if rs != [] {
      var front := rs[..|rs| - 1];
      ReleaseCountOfSingleClaims(front);
      var before := BuffersOf(rs, Received);
      assert before[..|before| - 1] == BuffersOf(front, Received);
    }
  }

  /** RETRIEVE is handed only the decoded body, so its callers pass responses
      with `byteBuf == None`; over those no claim is ever outstanding. (No
      strategy creates a buffer, so the same holds for the other two.) */
  lemma {:induction false} RetrieveHoldsNoClaims(rs: seq<Response>)
    requires forall i :: 0 <= i < |rs| ==> rs[i].byteBuf.None?
    ensures Outstanding(BuffersOf(Process(Retrieve, rs), Remaining)) == 0
  {
    if rs != [] {
      var front := rs[..|rs| - 1];
      RetrieveHoldsNoClaims(front);
      var after := BuffersOf(Process(Retrieve, rs), Remaining);
      assert after[..|after| - 1] == BuffersOf(Process(Retrieve, front), Remaining);
    }
  }
}
