# mail.tm poller: a verified model of its retry and polling core

The client polls the mail.tm REST API. It lists the message headers of one mailbox, page by
page. It fetches the full message for every id it has not processed yet and prints it. Every
HTTP call goes through one retry executor, `_make_mailtm_request`. This project models that
executor, the header pagination, one cycle of the deduplicating main loop, and the projection
of the domain listing. The HTTP calls become sequences of attempt outcomes, and the clock
becomes fuel.

Layout, one module per component of `mailtm.py`:

- `outcomes.dfy` (`Outcomes`): an attempt outcome (a transport exception, or a status code and
  a decoded body), the classified `MailTmError`, and `Result`.
- `executor.dfy` (`Executor`): the retry loop `MakeRequest`. It is proved equal to the
  declarative specification `Execute`, and the lemmas state the retry and error-precedence
  rules against `Execute`.
- `domains.dfy` (`Domains`): `get_mailtm_domains`.
- `listing.dfy` (`Listing`): `get_mailtm_headers`, its specification `Collected`, and a model
  of a provider that honours the page parameter, used for the finding below.
- `polling.dfy` (`Polling`): `read_email` and one cycle of `main`'s loop over the headers.

How the environment is modelled:

- The request function: a sequence `o` of attempt outcomes, one per call, in order.
- The time budget (600 s by default): fuel. `o` holds exactly the attempts that begin before
  the deadline. Once all of them have begun, the deadline has passed.
- `time.sleep(1.0)`: a counter of waits.
- The listing calls and the message fetches: sequences with one executor input per call, used
  in call order.

Two behaviours of `mailtm.py` that are easy to get wrong:

- A run of 429 responses that outlasts the budget raises `Status code: 429`. It does not raise
  `timeout` (`Executor.ThrottledThroughout`). `timeout` is raised only when no attempt could
  begin at all (`Executor.TimeoutIffNoAttempt`).
- A transport exception recorded on any earlier attempt wins over a later terminal status such
  as 404 or 500. The error raised then is not the status error (`Executor.TerminalStatusStops`,
  `Executor.TransportErrorWins`).

## Model

| member | source | states |
|---|---|---|
| `Executor.MakeRequest` | mailtm.py:13-35 | The loop returns or raises exactly `Execute(o)`. It makes `Made(o)` attempts: every attempt up to the first one not retried, or the whole budget. It sleeps `Stop(o)` times: once after each retried attempt and never after the attempt that ends the loop. |
| `Executor.Stop` | mailtm.py:17-27 | The index at which the loop stops. Every earlier attempt is a 429 or a transport exception. The attempt at that index (if any) is neither. |
| `Executor.LastTransport` | mailtm.py:15-26 | The value of `error` after some attempts. It is None exactly when no attempt raised. Otherwise it is the cause of a transport exception after which only responses came. |
| `Executor.LastStatus` | mailtm.py:16-20 | The value of `status_code` after some attempts. It is None exactly when no response arrived. Otherwise it is the status of a response after which only transport exceptions came. |
| `Executor.Classify` | mailtm.py:29-35 | The error raised after the loop, by precedence. A recorded transport exception gives `Wrapped` of it. Otherwise a recorded status gives `Status code` with it. Otherwise an expired deadline gives `timeout`, and only a run with neither and time left would give `unknown error`. Each case holds in both directions. |
| `Executor.Execute` | mailtm.py:13-35 | Definition: the body of the first 200/201 when only 429s and transport exceptions precede it; otherwise the classification of the attempts made. `MakeRequest` is proved equal to it, and the lemmas below state its properties. |
| `Executor.SuccessOnFirstHit` | mailtm.py:17-22 | If attempt k is the first 200/201 and every earlier one was retried, the body of attempt k is returned after exactly k+1 attempts and k waits. Earlier 429s and transport errors do not change this. |
| `Executor.ReturnedBodyIsFirstHit` | mailtm.py:19-22 | Conversely, any returned body belongs to a 200/201 attempt that only retried attempts preceded. |
| `Executor.TerminalStatusStops` | mailtm.py:20-32 | A status other than 200, 201 and 429 at attempt k ends the loop there. No later attempt runs and no wait follows. The error wraps the last earlier transport exception if there was one, and otherwise carries that status. |
| `Executor.TransportErrorWins` | mailtm.py:25-30 | In any failing run where some attempt raised a transport exception, the error raised is the transport one, even after a later terminal status. It wraps the last such exception. |
| `Executor.LastStatusWins` | mailtm.py:29-32 | In a failing run with no transport exception and at least one attempt, the error carries the status of the last response received. |
| `Executor.ThrottledThroughout` | mailtm.py:17-32 | If every admitted attempt returns 429, the whole budget is used, each attempt is followed by a wait, and the error is `Status code: 429`, not `timeout`. |
| `Executor.TimeoutIffNoAttempt` | mailtm.py:29-34 | `timeout` is raised if and only if no attempt could begin. |
| `Executor.UnknownUnreachable` | mailtm.py:29-35 | The `unknown error` branch is never reached. |
| `Executor.WaitsFollowRetries` | mailtm.py:23-27 | The number of waits equals the number of 429s and transport exceptions among the attempts made. At most one attempt (the one that ends the loop) has no wait after it. |
| `Executor.ServerErrorAtOnce` | mailtm.py:20-24 | A 500 on the first call raises `Status code: 500` after one attempt and no wait. |
| `Domains.DomainNames` | mailtm.py:43 | The list has the same length as the records, and element i is the `domain` field of record i. |
| `Domains.GetDomains` | mailtm.py:37-43 | On success the executor's record list is projected to its domain names. Otherwise the executor's error is raised unchanged. |
| `Listing.Halt` | mailtm.py:67-72 | The index of the listing call that ends the loop. Every earlier call returned a page with `hydra:next`. The call at that index raised or returned a page without it. |
| `Listing.PageParam` | mailtm.py:61 | Definition: the page number in the listing URL is 1 whatever the counter holds, because the URL is a constant string. |
| `Listing.Collected` | mailtm.py:59-75 | Definition: the error of the call that ends the loop if it raised, otherwise the concatenated `hydra:member` lists of all calls up to and including it. `CollectedKeepsEveryPage` and `CollectedFailsWithFirstError` state its properties. |
| `Listing.GetHeaders` | mailtm.py:55-75 | The loop returns exactly `Collected(Results(ls))`. `Results(ls)` holds the executor's result for each listing call. `Collected` gives the `hydra:member` lists of calls 1..n in order, where n is the first call whose page lacks `hydra:next`, or the error of the call that raised. It makes exactly n requests (`Halt(Results(ls)) + 1`). Every request carries page 1. |
| `Listing.AccumulatedPrefix` | mailtm.py:69 | Extending the accumulator only appends: what the first m calls gathered is a prefix of what the first n calls gathered. |
| `Listing.CollectedKeepsEveryPage` | mailtm.py:59-75 | In a successful collection, the members of each call j appear unchanged and contiguously, right after those of the calls before it. |
| `Listing.CollectedFailsWithFirstError` | mailtm.py:67 | The collection fails exactly when the call that ends the loop raised. It fails with that call's error, and the headers gathered before it are dropped. |
| `Listing.ThreePages` | mailtm.py:59-75 | With three pages where only the first two carry `hydra:next`, three requests gather the headers of all three pages, in order. |
| `Listing.AsWrittenNeverHalts` | mailtm.py:57-73 | Take a provider with at least two pages that answers each page number with that page. The requests as written (always page 1) all get page 1 with `hydra:next` back. No finite number of calls ever ends the loop. |
| `Listing.IntendedCollectsAllPages` | mailtm.py:57-73 | With the counter `page` in the URL, the same provider ends the loop on the last page, after one request per page, with the concatenation of all pages. |
| `Polling.NewIds` | mailtm.py:100-106 | Definition: the ids one cycle fetches, walking the listing and skipping ids already in the set or fetched earlier in the cycle. `NewIdsMembers`, `NewIdsDistinct`, `NewIdsInListingOrder` and `NewIdsCoverListing` state its properties. |
| `Polling.ReadEmail` | mailtm.py:80-89 | Returns or raises exactly what the executor does for the message fetch. |
| `Polling.PollCycle` | mailtm.py:100-106 | `headers` is the list `Listing.GetHeaders` returned at line 98. In a completed cycle the fetched ids are exactly `NewIds(headers, seen)`, and afterwards the set is the old set plus every listed id. The reported messages are the fetch results, in order. If a fetch fails, the cycle stops at that fetch with its error. The fetched ids are then a prefix of `NewIds`, and only the ids reported so far have been added to the set. |
| `Polling.NewIdsMembers` | mailtm.py:100-106 | A cycle fetches an id if and only if it is listed and not already in the seen set. |
| `Polling.NewIdsDistinct` | mailtm.py:103-106 | No id is fetched twice in one cycle, even when it is listed more than once. |
| `Polling.NewIdsInListingOrder` | mailtm.py:100-104 | Fetches follow the listing order of each id's first occurrence. Every fetched id is listed. |
| `Polling.NewIdsCoverListing` | mailtm.py:100-106 | The seen set plus the fetched ids equals the seen set plus every listed id. |
| `Polling.NextCycleSkipsSeen` | mailtm.py:95-106 | After a complete cycle, a later cycle fetches no id that was already seen or listed before. The seen set never shrinks, so a processed id is never fetched again. |
| `Polling.SingleMessageTwice` | mailtm.py:98-106 | With one header `A` and an empty set, `A` is fetched once and the set becomes {A}. A second cycle over the same listing fetches nothing. |

## Left out

- HTTP: `requests.get` and `requests.post`, URLs, request headers and JSON encoding and decoding are foreign library calls. Each call is an attempt outcome that the environment supplies, and each body comes already decoded.
- Exceptions other than `requests.exceptions.Timeout` and `ConnectionError`: for example another `RequestException`, or the `ValueError` of `r.json()` on a body that is not JSON. They escape the executor uncaught and are not modelled.
- Malformed replies: a listing body without `hydra:member`, a header without `id`, or a domain record without `domain` would raise `KeyError`. Bodies are typed values (`Page`, `Header`, `DomainRecord`) that always hold these fields.
- Time: `time.monotonic`, `time.sleep(1.0)` and `time.sleep(60)`. The deadline is fuel and the one-second sleeps are a counter. The 60-second pause between cycles is not modelled.
- `print` and the endless `while True` of `main`. Each is I/O or non-termination. One cycle is modelled, and the printed messages are its `reported` output.
- `create_mailtm_account` (mailtm.py:45-51): one executor call whose reply is discarded. Its `assert len(r['id']) > 0` is a check on an opaque server reply.
- The hard-coded account id and token (mailtm.py:93-94): they are only used in URLs and headers.
- `Executor.MakeRequest`: at mailtm.py:30, `raise MailTmError(e) from e` names `e`, but Python 3 deletes that name when the `except` clause that bound it ends. As written, this branch raises `UnboundLocalError`. The model raises what the line evidently means: a `MailTmError` wrapping the last recorded transport exception. A comment in the method marks the spot.
- `Listing.GetHeaders`: the Python loop ends only when some listing call raises or returns a page without `hydra:next`. The model requires that one of the supplied calls does so (`Halt(Results(ls)) < |ls|`). A provider that never does this makes the source loop forever, which is not modelled.
- `Polling.PollCycle`: requires one fetch input for every id it may fetch (`|NewIds(headers, seen)| <= |bodies|`). This stands in for the message endpoint always answering.

## Findings

| source | as written | input that shows it | evidently intended | confidence | as-written member | corrected member |
|---|---|---|---|---|---|---|
| mailtm.py:61 | The listing URL is the constant `messages?page=1?`. The counter `page` is incremented at line 73 but never used. | A provider with two pages `[A]` and `[B]` that returns page 1 with `hydra:next` and page 2 without it. Every request asks for page 1, gets `[A]` with `hydra:next` back, and the loop repeats forever, appending `A` again each time. | Each request carries the current value of `page`. The loop then reads pages 1, 2, … and stops after the last. | not executed | `Listing.AsWrittenNeverHalts` | `Listing.IntendedCollectsAllPages` |
