# Sliding-window request-rate tracking in fastapi-seed

This project models the request-rate tracking of the fastapi-seed application. The tracking appears twice:

- `RPSTrackerMiddleware` (`fastapi_seed/middleware/rps_tracker.py`). On every request it does three things under a lock:
  - appends the current time to a bounded `deque(maxlen=max_requests)`;
  - pops timestamps older than `current_time - window_size` from the front;
  - reports `len / (current_time - oldest)` requests per second, or 0 when the buffer is empty or the span is zero.
- `ContentModerationService` (`fastapi_seed/services/content_moderation.py`):
  - keeps a `deque(maxlen=1000)` of moderation request times;
  - `get_request_rate` evicts the entries older than a minute and divides the count by a fixed 60 seconds;
  - the service is a once-initialised singleton;
  - it names the classifier's scores through `CATEGORY_MAPPING`, which falls back to the raw label.

The project has four files:

- `window.dfy` (module `SlidingWindow`) is the specification.
  - `Push` is a bounded append.
  - `EvictStale` is the front-only eviction loop.
  - `TrailingRate` is the middleware's rate.
  - `Step` is one locked block of `dispatch`.
  - `WindowAt` is the buffer the tracker should hold after a given request history.
  - Two reference definitions back these up: `LastN` (the last `n` appended items) and `Recent` (a filter on the cutoff).
  - The lemmas tie each function to its reference definition.
- `deque.dfy` (module `BoundedDeque`) models `collections.deque(maxlen=...)` as a ring buffer over an array. Its `append` and `popleft` are proved against `Push` and the tail of the sequence.
- `rps_tracker.dfy` (module `RpsTracker`) models the middleware as a class over that deque.
  - The eviction is a `while` loop of `PopLeft` calls.
  - A ghost request history proves that, while the clock does not go back, the buffer is always `WindowAt(history)`.
- `content_moderation.dfy` (module `ContentModeration`) models:
  - the service's request buffer, a `TimestampDeque` of capacity 1000, and its rate;
  - the moderation endpoint, which records a request and then reads the rate;
  - the category lookup and the score table;
  - the `_instance`/`_initialized` singleton guard.

The clock (`time.time()`) is a parameter of every operation that reads it. Timestamps and rates are `real` numbers.

Three behaviours of the code shape what the model can promise:

- Both trackers read `time.time()`, which can go back. Sortedness and the window characterisation are therefore proved only while the clock does not go back (`StepSorted`, `RpsTrackerMiddleware.Dispatch`).
- The moderation service divides by a fixed 60 seconds (`MinuteRate`), the middleware by the observed span (`TrailingRate`). Once time has moved past the oldest timestamp, the minute rate never exceeds the trailing rate (`MinuteRateAtMostTrailingRate`). At zero span it does exceed it: a lone request read at its own time gives 1/60 against 0 (`MinuteRateExceedsTrailingRateAtZeroSpan`).
- Capacity eviction and window eviction are applied one after the other, so a request inside the window is dropped once `max_requests` newer ones have arrived (`StepAdvancesWindow`, `RpsTracker.CapacityDropSteps`).

## Model

| member | source | states |
|---|---|---|
| SlidingWindow.LastN | fastapi_seed/middleware/rps_tracker.py:22 | the reference definition of a bounded deque: the last `n` items appended, or all of them when fewer |
| SlidingWindow.Push | fastapi_seed/middleware/rps_tracker.py:30 | an append never makes the buffer exceed its capacity; it grows by one while there is room, keeps its length when full, and, when the capacity is positive, the new timestamp becomes the last element (with capacity 0 nothing is kept) |
| SlidingWindow.PushIsLastN | fastapi_seed/middleware/rps_tracker.py:22 | a bounded buffer always holds exactly the last `cap` timestamps appended to it, so a full buffer drops its oldest entry |
| SlidingWindow.PushSorted | fastapi_seed/middleware/rps_tracker.py:28-30 | appending a timestamp no earlier than those buffered keeps the buffer ascending |
| SlidingWindow.EvictStale | fastapi_seed/middleware/rps_tracker.py:52-54 | after eviction the buffer is empty or its front is at or after the cutoff; it never grows, and every element it removed was before the cutoff |
| SlidingWindow.EvictStaleIsSuffix | fastapi_seed/middleware/rps_tracker.py:53-54 | eviction removes from the front only: the result is a suffix of the buffer |
| SlidingWindow.RecentAllFresh | fastapi_seed/middleware/rps_tracker.py:53 | a buffer with no stale timestamp passes the filter whole |
| SlidingWindow.EvictStaleSortedIsRecent | fastapi_seed/middleware/rps_tracker.py:52-54 | on an ascending buffer the front-only loop leaves exactly the timestamps at or after the cutoff, in their original order, and every survivor is at or after the cutoff |
| SlidingWindow.EvictStaleSorted | fastapi_seed/middleware/rps_tracker.py:50-54 | eviction keeps an ascending buffer ascending |
| SlidingWindow.EvictStaleIdempotent | fastapi_seed/middleware/rps_tracker.py:50-54 | a second cleanup at the same time removes nothing more |
| SlidingWindow.EvictStaleSkipsStalePrefix | fastapi_seed/middleware/rps_tracker.py:53-54 | a leading run of stale timestamps can be skipped before evicting without changing the result |
| SlidingWindow.TrailingRate | fastapi_seed/middleware/rps_tracker.py:56-68 | the rate is zero exactly when the buffer is empty or the current time equals the oldest timestamp; otherwise rate times span equals the count, and the rate is positive when time has moved on |
| SlidingWindow.TrailingRateAtLeastCountOverWindow | fastapi_seed/middleware/rps_tracker.py:52-68 | once the stale timestamps are evicted and time has moved past the oldest timestamp, the trailing rate is at least the count spread over the whole window |
| SlidingWindow.TrailingRateBelowCountOverWindowAtZeroSpan | fastapi_seed/middleware/rps_tracker.py:65-66 | at zero span the bound fails: a lone timestamp read at its own time survives eviction but gives rate 0, below one request per window |
| SlidingWindow.Step | fastapi_seed/middleware/rps_tracker.py:29-32 | one record-cleanup step keeps the buffer within its capacity |
| SlidingWindow.StepKeepsCurrentTime | fastapi_seed/middleware/rps_tracker.py:29-32 | with a non-negative window and a positive capacity, the time just recorded survives cleanup as the last element, so the buffer is non-empty when the rate is read, and a single entry gives rate 0 |
| SlidingWindow.StepNegativeWindowEmpties | fastapi_seed/middleware/rps_tracker.py:30-31 | with a negative window the cutoff is after the current time, so each step empties a buffer of past timestamps |
| SlidingWindow.StepSorted | fastapi_seed/middleware/rps_tracker.py:28-31 | when the clock does not go back, a step keeps the buffer ascending |
| SlidingWindow.EarlierEvictionAbsorbed | fastapi_seed/middleware/rps_tracker.py:30-31 | evicting at an earlier cutoff before an append changes nothing once the later cutoff is applied after it |
| SlidingWindow.StepFromEmpty | fastapi_seed/middleware/rps_tracker.py:22-31 | the first request takes an empty buffer to the window of a one-request history |
| SlidingWindow.StepAdvancesWindow | fastapi_seed/middleware/rps_tracker.py:29-31 | when the clock does not go back, each step takes the window of a history to the window of that history extended by the new request: the last `max_requests` requests, minus those older than `now - window_size` |
| SlidingWindow.StepExtendsWindow | fastapi_seed/middleware/rps_tracker.py:29-31 | a step from an empty buffer with an empty history, or from the window of a history when the clock has not gone back, gives the window of the history extended by the new request |
| SlidingWindow.LastNSorted | fastapi_seed/middleware/rps_tracker.py:22 | the retained suffix of an ascending history is ascending |
| SlidingWindow.WindowAtIsRecent | fastapi_seed/middleware/rps_tracker.py:22-31 | for an ascending history the buffer is exactly the timestamps among the last `max_requests` that lie within the window, in arrival order |
| RpsTracker.SteadyRequestsSteps | fastapi_seed/middleware/rps_tracker.py:29-32 | with the defaults, requests at 0, 1 and 2 seconds keep all three and report 0 after the first and 1.5 after the third |
| RpsTracker.WindowExpiredSteps | fastapi_seed/middleware/rps_tracker.py:50-66 | with a 60-second window, a request at 100 evicts the one at 0, and the lone survivor gives rate 0 |
| RpsTracker.CapacityDropSteps | fastapi_seed/middleware/rps_tracker.py:22-32 | with room for two, a third request one second later drops the oldest although it is inside the window, and the rate is 2 |
| BoundedDeque.TimestampDeque.constructor | fastapi_seed/middleware/rps_tracker.py:22 | `deque(maxlen=capacity)` starts empty with the given capacity |
| BoundedDeque.TimestampDeque.Size | fastapi_seed/middleware/rps_tracker.py:58 | `len` is the number of buffered timestamps and never exceeds the capacity |
| BoundedDeque.TimestampDeque.Front | fastapi_seed/middleware/rps_tracker.py:62 | `[0]` is the oldest buffered timestamp |
| BoundedDeque.TimestampDeque.Append | fastapi_seed/middleware/rps_tracker.py:30 | the ring buffer's new contents are `Push` of the old ones: the timestamp is added at the back and, when the buffer is full, the oldest is dropped |
| BoundedDeque.TimestampDeque.PopLeft | fastapi_seed/middleware/rps_tracker.py:54 | returns the oldest timestamp and leaves the rest, in order |
| RpsTracker.RpsTrackerMiddleware.constructor | fastapi_seed/middleware/rps_tracker.py:14-24 | the window size is as given (default 60), the buffer is empty with capacity `max_requests` (default 1000), and the history is empty |
| RpsTracker.RpsTrackerMiddleware.CleanupOldRequests | fastapi_seed/middleware/rps_tracker.py:50-54 | the popleft loop leaves `EvictStale` of the old buffer at `current_time - window_size` |
| RpsTracker.RpsTrackerMiddleware.CalculateRps | fastapi_seed/middleware/rps_tracker.py:56-68 | returns `TrailingRate` of the buffer and cannot modify it |
| RpsTracker.RpsTrackerMiddleware.Dispatch | fastapi_seed/middleware/rps_tracker.py:26-32 | the buffer becomes `Step` of the old buffer and the rate is its `TrailingRate`; when the clock does not go back, the buffer stays the window of the full request history |
| ContentModeration.Category | fastapi_seed/services/content_moderation.py:23-33 | `CATEGORY_MAPPING.get(label, label)`, whose properties are stated by the lemmas below |
| ContentModeration.CategoryOfKnownLabels | fastapi_seed/services/content_moderation.py:23-33 | each of the nine known labels maps to its human-readable category |
| ContentModeration.CategoryMappingLabels | fastapi_seed/services/content_moderation.py:23-33 | the mapping knows exactly the nine labels H, H2, HR, OK, S, S3, SH, V and V2 |
| ContentModeration.CategoryOfUnknownLabel | fastapi_seed/services/content_moderation.py:95 | a label outside the mapping is returned unchanged |
| ContentModeration.CategoryInjectiveOnKnownLabels | fastapi_seed/services/content_moderation.py:23-33 | distinct known labels give distinct category names |
| ContentModeration.CategoryIdempotent | fastapi_seed/services/content_moderation.py:23-33 | no category name is itself a label, so a second lookup changes nothing |
| ContentModeration.ScoresByCategory | fastapi_seed/services/content_moderation.py:94-97 | the comprehension's keys are exactly the categories of the scored labels |
| ContentModeration.ScoreTable | fastapi_seed/services/content_moderation.py:91-97 | the result fails exactly when some scored index has no label (a `KeyError`); otherwise its keys are the categories of all scored labels |
| ContentModeration.ScoresByCategoryLastWins | fastapi_seed/services/content_moderation.py:94-97 | an index whose category no later index shares keeps its own score in the dictionary |
| ContentModeration.ScoreTableKeepsEveryScore | fastapi_seed/services/content_moderation.py:94-97 | when the labels are distinct known labels, every score appears under its own category |
| ContentModeration.MinuteRate | fastapi_seed/services/content_moderation.py:69-74 | the rate is zero exactly when the buffer is empty; rate times 60 is the count; with at most 1000 entries the rate is at most 1000/60 |
| ContentModeration.MinuteRateAtMostTrailingRate | fastapi_seed/services/content_moderation.py:72 | after eviction, and once time has moved past the oldest timestamp, the fixed-minute rate never exceeds the middleware's trailing rate over the same buffer |
| ContentModeration.MinuteRateExceedsTrailingRateAtZeroSpan | fastapi_seed/services/content_moderation.py:69-72 | at zero span the order turns round: a lone request read at its own time gives 1/60 here, while `_calculate_rps` (fastapi_seed/middleware/rps_tracker.py:65-66) gives 0 |
| ContentModeration.RecordedRequestIsCounted | fastapi_seed/api/content_moderation.py:28-29 | a request recorded at `t1` and a rate read at `t2` with `t1 <= t2 <= t1 + 60` give a rate of at least 1/60, because the request just recorded is still inside the minute |
| ContentModeration.RecordedRequestExpires | fastapi_seed/api/content_moderation.py:28-29 | when the rate is read more than a minute after the request was recorded, every request recorded so far is evicted and the rate is 0 |
| ContentModeration.ContentModerationService.constructor | fastapi_seed/services/content_moderation.py:37 | a fresh instance has not been initialised and holds no request times |
| ContentModeration.ContentModerationService.Init | fastapi_seed/services/content_moderation.py:40-51 | the first call sets the model name (default `KoalaAI/Text-Moderation`) and creates an empty buffer of capacity 1000; a later call changes nothing |
| ContentModeration.ContentModerationService.RecordRequest | fastapi_seed/services/content_moderation.py:79-80 | the buffer becomes `Push` of the old buffer with capacity 1000, so it stays within 1000 entries and drops the oldest on overflow; nothing else changes |
| ContentModeration.ContentModerationService.GetRequestRate | fastapi_seed/services/content_moderation.py:58-74 | the loop leaves `EvictStale` of the old buffer at `now - 60`; the rate is `MinuteRate` of what is left, between 0 and 1000/60 |
| ContentModeration.ContentModerationService.ModerateText | fastapi_seed/services/content_moderation.py:76-99 | the request is recorded before anything else, and the result is the score table, which fails when a label is missing; the initialisation flag and model name are untouched |
| ContentModeration.ContentModerationService.ModerateContent | fastapi_seed/api/content_moderation.py:28-29 | moderation at `t1` records the request; when a scored index has no label the `KeyError` ends the endpoint, so no rate is produced and the buffer is only pushed; otherwise the rate is read at `t2`, leaving the pushed buffer evicted at `t2 - 60` and a rate of at least 1/60 when read within a minute |
| ContentModeration.ServiceRegistry.constructor | fastapi_seed/services/content_moderation.py:19-20 | no instance exists before the first construction |
| ContentModeration.ServiceRegistry.Construct | fastapi_seed/services/content_moderation.py:35-56 | the first construction creates and initialises the one instance (with the default model name when none is given); a later one returns the same object with its model name and request buffer unchanged |

## Left out

- The threading locks: each locked block is one sequential method, and concurrent interleavings are not modelled.
- `time.time()` is the `currentTime`/`now` parameter. Nothing constrains the clock, except where a lemma says it must not go back.
- Logging, `request.state.rps`, and the asynchronous `call_next` and response handling of `dispatch`.
- IEEE floating point: timestamps, spans and rates are exact reals, so rounding in the division and subtraction is not modelled.
- The tokenizer, the classifier, `torch.sigmoid` and score extraction: the labels (`id2label`) and scores are parameters of `ModerateText`.
- `model_name` is recorded, but the model download it triggers is not modelled.
- A negative `max_requests` makes `deque` raise `ValueError`; the capacity is a `nat`, so that case is outside the model.
- ContentModeration.ContentModerationService.Init: a failed model load leaves `model_name` set and `_initialized` false, so the next construction runs `__init__` again; the model loads are not modelled, so `Init` always succeeds.
- ContentModeration.ScoreTable: the dictionary keeps its keys in first-insertion order; a Dafny `map` has no order, so the result states keys and values only.
- The bare instance `__new__` returns has no `request_times` yet; the model gives it an empty placeholder buffer, which `Init` replaces.
- `ContentModerationService.initialize` is the same call as the constructor and is covered by `ServiceRegistry.Construct`.
- RpsTracker.RpsTrackerMiddleware.Dispatch: the window-of-history guarantee is stated only while the clock does not go back. When the clock goes back, only the one-step `Step` relation is stated.
- The database managers, route handlers, ORM models and dependency wiring are not part of this model.
