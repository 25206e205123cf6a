# Retry wrapper and payload builders of the Avito API test suite

The repository is an end-to-end test suite for a third-party classified-ads HTTP
service. Almost all of it is network I/O and assertions about that service. This
project models the two pieces of the suite's own sequential logic:

- **The bounded retry decorator** `retry(max_attempts, delay)` and the two request
  helpers built with it, `safe_post` and `safe_get` (six attempts, five seconds
  apart). One call of the wrapper is a pure function of `maxAttempts`, `delay` and
  `outcome`, where `outcome(k)` is what the k-th invocation of the wrapped callable
  does. It returns (`Ok`), raises an `Exception` that the wrapper catches (`Err`), or
  raises a `BaseException` outside `Exception` such as `KeyboardInterrupt`, which the
  wrapper does not catch (`Interrupt`). The model returns how the call ends plus a
  trace of its events: invocations, per-attempt failure messages, sleeps and the
  "all attempts exhausted" message (module `Retry`, file `retry.dfy`).
- **The `created_advertisement_id` fixture**. It posts a creation payload through
  `safe_post`, skips its scenario unless the status is exactly 200, and otherwise
  yields the body's `id` (module `Suite`, file `suite.dfy`).
- **The payload builders** `generate_unique_seller_id` and `generate_name`, with
  the random choices passed in as parameters. `random.randint(lo, hi)` becomes a draw
  `d` with `0 <= d <= hi - lo` that yields `lo + d`. `random.choice(words)` becomes an
  index into `words`. The fixed word lists are constants (module `Helpers`, file
  `helpers.dfy`).
- **Python's `str.strip()`** without an argument. It uses the whitespace set of
  `str.isspace` and is what `generate_name` applies to its result (module `Text`,
  file `text.dfy`).

Three behaviours of the wrapper's code shape the model:

- It catches every `Exception` raised by the wrapped callable. Since the wrapped
  helpers only issue a request, HTTP error statuses come back as normal results and
  are not retried.
- It does not check `max_attempts`. With `max_attempts <= 0` the loop never runs,
  and `raise None` fails with a `TypeError` (`RaisedNone`).
- It does not check `delay`. `time.sleep` converts the delay to a signed 64-bit count
  of nanoseconds and raises `OverflowError` when it does not fit, and `ValueError`
  when it is negative. Either exception is raised inside the `except` block and
  ends the call (`SleepRejected`).

## Model

| member | source | states |
|---|---|---|
| Retry.Attempts | avito/firsttask/test_avito.py:16-27 | The loop from attempt `a` on invokes nothing exactly when `a > max_attempts`, and otherwise starts by invoking attempt `a`. It ends in `raise None` exactly when it is never entered and no exception was stored. A refused sleep can only end it before the last attempt, and only for a delay `time.sleep` refuses, with the exception `time.sleep` raises for that delay. |
| Retry.Wrapper | avito/firsttask/test_avito.py:15-27 | A call invokes nothing, and ends in `raise None`, exactly when `max_attempts <= 0`. Otherwise it starts by invoking attempt 1. A refused sleep needs at least two attempts and a delay `time.sleep` refuses. |
| Retry.RetryAttemptBound | avito/firsttask/test_avito.py:16-19 | For every input, the wrapped callable is invoked with the consecutive attempt numbers 1..n, and n never exceeds `max_attempts` (0 when `max_attempts` is not positive). |
| Retry.RetryFirstSuccess | avito/firsttask/test_avito.py:17-24 | If attempt k is the first that does not raise and it returns v, and `time.sleep` accepts the delay or k = 1, the call returns v unchanged after exactly k invocations. There are k-1 failure messages, k-1 sleeps totalling (k-1)·delay, and no exhaustion message. |
| Retry.RetryInterrupted | avito/firsttask/test_avito.py:18-20 | An exception outside `Exception` escapes at the attempt that raised it (given the same condition on the delay), with no further invocation and no exhaustion message. |
| Retry.RetryAllFail | avito/firsttask/test_avito.py:20-27 | If all `max_attempts` attempts raise and `time.sleep` accepts the delay or `max_attempts` = 1, the exception of the final attempt, not an earlier one, is raised again. There are `max_attempts`-1 failure messages and `max_attempts`-1 sleeps, and the exhaustion message appears exactly once. |
| Retry.RetryExhaustedLast | avito/firsttask/test_avito.py:22-26 | On total failure, the trace ends with the final invocation immediately followed by the exhaustion message. No sleep comes after the last attempt. |
| Retry.RetryEventsInPlace | avito/firsttask/test_avito.py:17-26 | In every trace, each failure message directly follows the invocation it reports. That attempt raised, and attempts remained. Each sleep directly follows a failure message and lasts `delay`, which `time.sleep` accepts. The exhaustion message directly follows a failed invocation of attempt `max_attempts`. |
| Retry.RetryNoAttempts | avito/firsttask/test_avito.py:16-27 | With `max_attempts <= 0`, nothing is invoked, logged or slept, and the call ends in the `raise None` error with no stored exception. |
| Retry.RetrySleepRejected | avito/firsttask/test_avito.py:22-24 | With a delay `time.sleep` refuses and attempts remaining, the first failure is logged and the sleep then raises. The call ends there. The error is `OverflowError` exactly when the delay's nanosecond count falls outside the signed 64-bit range, and `ValueError` exactly when the delay is negative but within that range. |
| Retry.RetryResultExplained | avito/firsttask/test_avito.py:12-29 | Converse of the above, for every input. A returned value is that of the last invocation, and every earlier one raised. A re-raised exception is that of attempt `max_attempts`. A refused sleep ends the call only after a failed first attempt, for a delay `time.sleep` refuses, with the exception it raises for that delay. `raise None` happens if and only if `max_attempts <= 0`. The exhaustion message appears if and only if the last exception is re-raised. |
| Suite.SafeRequest | avito/firsttask/test_avito.py:31-37 | `safe_post`/`safe_get` make between one and six requests, numbered consecutively from 1. They end with a response or with an exception raised by a request, never with the `raise None` error or an error of `time.sleep`. |
| Suite.SafeRequestKeepsStatus | avito/firsttask/test_avito.py:31-37 | `safe_post`/`safe_get` hand back the first completed response unchanged, including its 4xx/5xx status, after exactly as many requests as it took. An error status is not retried. |
| Suite.SafeRequestExhausted | avito/firsttask/test_avito.py:31-37 | When all six requests raise, the sixth request's exception reaches the caller after six requests and five sleeps, 25 seconds in total. |
| Suite.FixturePayload | avito/firsttask/test_avito.py:45-49 | The fixture payload's price lies in [100, 500000]. Its name is non-empty, unpadded and at most 33 characters. It carries the given seller id. |
| Suite.CreatedAdvertisementId | avito/firsttask/test_avito.py:50-54 | The fixture skips exactly when `safe_post` returned a non-200 response. It yields an id only when `safe_post` returned a 200 whose body has that `id`. It fails exactly when `safe_post` raised, or returned a 200 without an `id`. |
| Suite.CreationSetup | avito/firsttask/test_avito.py:51-54 | The scenario is skipped if and only if the creation status is not exactly 200. An id is yielded if and only if the status is 200 and the body has an `id`, and it is that `id`. A 200 without `id` raises. |
| Suite.FixtureProvidesOnlyCreated | avito/firsttask/test_avito.py:44-54 | The fixture yields an id only when some request within the six attempts completed with status 200 and that id, and all earlier requests raised. |
| Suite.FixtureDecidesOnStatus | avito/firsttask/test_avito.py:50-54 | When request k is the first to complete, a non-200 status skips the scenario. A 200 with an id yields exactly that id, and a 200 without one fails the fixture. |
| Helpers.RandInt | avito/firsttask/utils/helpers.py:4 | A draw for `random.randint(lo, hi)` yields a value within [lo, hi] inclusive. |
| Helpers.RandIntOneToOne | avito/firsttask/utils/helpers.py:4 | Every value of [lo, hi] is produced by exactly one draw. |
| Helpers.SellerId | avito/firsttask/utils/helpers.py:3-4 | A generated seller id lies in [1000000, 9999999]. |
| Helpers.SellerIdSevenDigits | avito/firsttask/utils/helpers.py:3-4 | The decimal form of every generated seller id has exactly seven digits. |
| Helpers.SellerIdCovers | avito/firsttask/utils/helpers.py:3-4 | Every seven-digit number is the seller id of exactly one draw. |
| Helpers.Name | avito/firsttask/utils/helpers.py:6-10 | A generated name is no longer than brand + model + condition + two separators. |
| Helpers.WordLists | avito/firsttask/utils/helpers.py:7-9 | No entry of the three word lists has leading or trailing whitespace, and brands and models are non-empty. Their entries have at most 11, 11 and 9 characters. The bounds are reached, see `Helpers.NameLongest`. |
| Helpers.NameShape | avito/firsttask/utils/helpers.py:7-10 | With the empty condition the name is exactly "brand model", because `strip` removes the trailing separator. With any other condition it is exactly "brand model condition", because `strip` changes nothing. |
| Helpers.NameWellFormed | avito/firsttask/utils/helpers.py:7-10 | A generated name begins with the chosen brand, one space and the chosen model. It is non-empty and has no leading or trailing whitespace. |
| Helpers.NameLength | avito/firsttask/utils/helpers.py:7-10 | No generated name exceeds 33 characters, which is below the 255-character limit the suite expects the service to enforce. |
| Helpers.NameLongest | avito/firsttask/utils/helpers.py:7-10 | The bound is tight: brand 4, model 5 and condition 5 ("PlayStation", "Air Force 1", "2024 года") give a 33-character name. |
| Helpers.JoinedWords | avito/firsttask/utils/helpers.py:10 | For any unpadded, non-empty brand and model and any unpadded condition, the stripped f-string is "brand model" when the condition is empty and "brand model condition" otherwise. |
| Helpers.JoinedWordsWellFormed | avito/firsttask/utils/helpers.py:10 | For such words, the stripped f-string is non-empty, unpadded, and begins with "brand model". |
| Text.Strip | avito/firsttask/utils/helpers.py:10 | The result of `strip()` has no leading or trailing whitespace and is no longer than the input. |
| Text.StripPadded | avito/firsttask/utils/helpers.py:10 | `strip()` of an unpadded core surrounded by whitespace returns exactly that core. |
| Text.StripRemovesOnlySpace | avito/firsttask/utils/helpers.py:10 | Every string equals whitespace, then its stripped form, then whitespace, so `strip()` removes nothing but whitespace, and only at the ends. |
| Text.StripUnpadded | avito/firsttask/utils/helpers.py:10 | A string without padding is left unchanged by `strip()`. |

## Left out

- HTTP requests (`requests.post`/`requests.get`, the base URL, headers, the 60-second timeout): each request is only its abstract outcome.
- `time.sleep` wall-clock behaviour: a sleep is an event in the trace carrying its delay. The delay is a `real`; other numeric types are not distinguished.
- The limit of `time.sleep`: the model takes it as exactly 2^63 nanoseconds on real numbers. CPython multiplies a float delay by 10^9 in double precision and then rounds. Near ±2^63 ns this moves the limit by up to about a microsecond. For a few negative doubles just beyond the model's limit it gives `ValueError` where the model gives `OverflowError`. A NaN delay and the narrower limits of non-POSIX builds are not modelled.
- Console output: only the occurrence and order of the two messages are modelled, not their text, encoding or the rendering of the exception. Both `print` calls are assumed not to raise. In the code, an exception from either one (from `str(e)`, or from a stdout that cannot encode the text) would end the call from inside the `except` block.
- The `random` module: replaced by explicit draws and list indices. Whether the draws are uniform is not modelled.
- `*args`/`**kwargs` forwarding and `functools.wraps` metadata: the callable's behaviour for the call is given by `outcome`.
- pytest machinery: fixture scoping, the session-scoped seller id, `pytest.skip` reasons and the `xfail` marker. A skip is the `Skipped` value.
- The scenario bodies of `TestAvitoAPI` (avito/firsttask/test_avito.py:58-108): they are assertions about the remote service's answers, not logic of the suite. The skip inside `test_create_ad_positive` (lines 65-66) applies the same status test as `Suite.CreationSetup`. The 300-character probe appears only as the 255 limit in `Helpers.NameLength`.
- `response.json()` on a body that is not JSON: `Response.id` is `None` whenever reading `id` raises, and this error is not told apart from a missing `id`.
