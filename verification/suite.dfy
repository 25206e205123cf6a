/**
 * The sequential logic of the test suite itself: `safe_post` and `safe_get`
 * are one HTTP request decorated with `retry(max_attempts=6, delay=5)`, and
 * the `created_advertisement_id` fixture creates an advertisement through
 * `safe_post` and skips its scenario unless the service answered 200.
 */
module Suite {
  import opened Optional
  import opened Retry
  import opened Helpers
  import opened Text

  /** A response as the suite reads it: the status code, and the `id` field
      of the JSON body when the body is an object that has one. */
  datatype Response = Response(status: int, id: Option<string>)

  /** The body of a creation request, `{name, price, sellerId}`. */
  datatype Payload = Payload(name: string, price: int, sellerId: int)

  /** How the fixture ends: it yields an id, skips the scenario, or raises. */
  datatype Setup = Provided(id: string) | Skipped | Errored

  const SafeAttempts: int := 6
  const SafeDelay: real := 5.0
  const Created: int := 200
  const PriceLow: int := 100
  const PriceHigh: int := 500000

  /** One call of `safe_post(...)` or `safe_get(...)`; `outcome(k)` is what
      the k-th HTTP request of the call does. With six attempts and a
      five-second delay the call always makes between one and six requests
      and ends in a response or in an exception of a request: never in the
      `raise None` error and never in an error of `time.sleep`. */
  function SafeRequest<E>(outcome: nat -> Outcome<Response, E>): (c: Call<Response, E>)
    ensures c.result.Returned? || c.result.Reraised? || c.result.Interrupted?
    ensures 1 <= |Invocations(c.trace)| <= SafeAttempts
    ensures Invocations(c.trace) == Span(1, |Invocations(c.trace)| + 1)
  {
    AttemptsInvoked(SafeAttempts, SafeDelay, outcome, 1, None);
    Wrapper(SafeAttempts, SafeDelay, outcome)
  }

  /** A response is handed back as soon as one request completes: an error
      status (4xx, 5xx) is a normal result and is not retried. */
  lemma SafeRequestKeepsStatus<E>(outcome: nat -> Outcome<Response, E>, k: nat)
    requires 1 <= k <= SafeAttempts
    requires outcome(k).Ok?
    requires forall j :: 1 <= j < k ==> outcome(j).Err?
    ensures var c := SafeRequest(outcome);
            && c.result == Returned(outcome(k).value)
            && c.result.value.status == outcome(k).value.status
            && |Invocations(c.trace)| == k
  {
    RetryFirstSuccess(SafeAttempts, SafeDelay, outcome, k);
  }

  /** When every request raises, the sixth request's exception reaches the
      scenario after five sleeps, 25 seconds in all. */
  lemma SafeRequestExhausted<E>(outcome: nat -> Outcome<Response, E>)
    requires forall j :: 1 <= j <= SafeAttempts ==> outcome(j).Err?
    ensures var c := SafeRequest(outcome);
            && c.result == Reraised(outcome(6).error)
            && |Invocations(c.trace)| == 6
            && Sleeps(c.trace) == 5
            && SleepTime(c.trace) == 25.0
  {
    RetryAllFail(SafeAttempts, SafeDelay, outcome);
  }

  /** The payload the fixture posts: a generated name, a price drawn from
      [100, 500000] and the session's seller id. */
  function FixturePayload(b: nat, m: nat, c: nat, priceDraw: nat, sellerId: int): (p: Payload)
    requires ValidChoice(b, m, c)
    requires priceDraw <= PriceHigh - PriceLow
    ensures PriceLow <= p.price <= PriceHigh
    ensures p.name != [] && Unpadded(p.name) && |p.name| <= LongestName
    ensures p.sellerId == sellerId
  {
    NameWellFormed(b, m, c);
    NameLength(b, m, c);
    Payload(Name(b, m, c), RandInt(PriceLow, PriceHigh, priceDraw), sellerId)
  }

  /** The fixture's decision on the creation response: skip unless the
      status is exactly 200, then read the body's `id`, which raises when
      it is missing. */
  function CreationSetup(r: Response): (s: Setup)
    ensures s.Skipped? <==> r.status != Created
    ensures s.Provided? <==> r.status == Created && r.id.Some?
    ensures s.Provided? ==> r.id == Some(s.id)
  {
    if r.status != Created then Skipped
    else
      match r.id
      case Some(id) => Provided(id)
      case None => Errored
  }

  /** `created_advertisement_id`: post the creation request through
      `safe_post`; an exception from it fails the fixture. */
  function CreatedAdvertisementId<E>(outcome: nat -> Outcome<Response, E>): (s: Setup)
    ensures var r := SafeRequest(outcome).result;
            && (s.Skipped? <==> r.Returned? && r.value.status != Created)
            && (s.Provided? ==> r == Returned(Response(Created, Some(s.id))))
            && (s.Errored? <==> !r.Returned? || r.value == Response(Created, None))
  {
    match SafeRequest(outcome).result
    case Returned(r) => CreationSetup(r)
    case _ => Errored
  }

  /** The fixture yields an id only when some request within the six
      attempts completed with status 200 and that id, every earlier request
      having raised. */
  lemma FixtureProvidesOnlyCreated<E>(outcome: nat -> Outcome<Response, E>)
    ensures CreatedAdvertisementId(outcome).Provided? ==>
              var n := |Invocations(SafeRequest(outcome).trace)|;
              && 1 <= n <= SafeAttempts
              && outcome(n) == Ok(Response(Created, Some(CreatedAdvertisementId(outcome).id)))
              && forall j :: 1 <= j < n ==> outcome(j).Err?
  {
    RetryResultExplained(SafeAttempts, SafeDelay, outcome);
  }

  /** If request k is the first to complete, its status decides: any status
      other than 200 skips the scenario, and a 200 yields the body's id, or
      fails the fixture when the body has none. */
  lemma FixtureDecidesOnStatus<E>(outcome: nat -> Outcome<Response, E>, k: nat)
    requires 1 <= k <= SafeAttempts
    requires outcome(k).Ok?
    requires forall j :: 1 <= j < k ==> outcome(j).Err?
    ensures var r := outcome(k).value;
            && (r.status != Created ==> CreatedAdvertisementId(outcome) == Skipped)
            && (r.status == Created && r.id.Some? ==> CreatedAdvertisementId(outcome) == Provided(r.id.value))
            && (r.status == Created && r.id.None? ==> CreatedAdvertisementId(outcome) == Errored)
  {
    RetryFirstSuccess(SafeAttempts, SafeDelay, outcome, k);
  }
}
