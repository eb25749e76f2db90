# ets rate limiter — a Dafny model

This project models the rate-limiting core of the `ets` header library. It is built from three stacked classes:

- **`CircularBuffer<T>`** (`circular_buffer.dfy`, module `CircularBuffers`) is a fixed-size ring of the last `n` inserted values.
  - Storage is an array of `n` slots plus a write counter `head`.
  - `insert` writes slot `head % n`.
  - `back()` reads slot 0 until the ring is full, then slot `head % n`.
  - `is_full()` holds once `n` values have gone in.
- **`SlidingWindow`** (`sliding_window.dfy`, module `SlidingWindows`) is the admission gate over a ring of timestamps.
  - A request at `now` is denied when the ring is full and `now - back() <= interval`. It then returns `interval - (now - back())` and records nothing.
  - Otherwise it records `now` and returns 0.
- **`Throttler<H, O>`** (`throttler.dfy`, module `Throttlers`) sends admitted messages to the on-send callback and queues throttled ones in two FIFO lanes.
  - One lane holds the designated high-priority type; the other holds every other type.
  - `send_queued_messages` drains the high lane front to back, and moves on to the other lane only if the high lane emptied.

`scenarios.dfy` (module `Scenarios`) replays the repository's doctest cases against the classes, with explicit timestamps in place of the sleeps.

Each class keeps the fields of its C++ counterpart and is proved against a pure specification:

| class | specified by |
|---|---|
| `CircularBuffer` | `Slots` / `Oldest` of the insertion history |
| `SlidingWindow` | `Step` on a `Window` value |
| `Throttler` | `TrySend` / `Drain` / `SendQueued` on a `State` value |

The lemmas beside those functions state what the library promises. The main ones are:

- the ring layout;
- the gate's outcome, including its idempotent denial;
- the rate bound on recorded grants;
- lane FIFO and high-before-other ordering;
- every submitted message sent exactly once.

How the model stands in for the runtime pieces:

- **Time** is an integer number of nanoseconds passed to each request as `now`. The steady clock's epoch is 0, which is also the value-initialised timestamp in an empty ring slot.
- **The callback** is a ghost log `Sent` of the messages handed to it.
- **Type erasure:** the `StoredMessage` wrapper becomes the tagged datatype `Message<H, O> = High(h) | Other(o)`.

The library's design description and its code disagree on one point, and the model follows the code. The design describes an ordering guarantee: notification order within a lane equals submission order, and no lower-priority message is notified while a high-priority one is queued. The code does not enforce it. `try_send_message` asks the window first and sends at once if admitted, even while older messages wait in a lane (`lib/ets/Throttler.h:42-47`).

- `Throttlers.SubmissionOvertakesQueue` shows a new message sent while an older message of the same type is queued.
- `Throttlers.OtherOvertakesQueuedHigh` shows a lower-priority message sent while a high-priority one is queued.

FIFO order, and high before other, hold among the messages that were queued. That is what the drain lemmas state.

## Model

| member | source | states |
|---|---|---|
| CircularBuffers.Slots | lib/ets/CircularBuffer.h:22-26 | the storage after a history of insertions always has exactly `n` slots; each insertion overwrites slot `counter % n` |
| CircularBuffers.SlotHoldsRecent | lib/ets/CircularBuffer.h:24-25 | each of the last `min(k, n)` inserted values sits at index (its position in the history) mod `n` |
| CircularBuffers.SlotUnwrittenIsBlank | lib/ets/CircularBuffer.h:16 | a slot the write counter has not reached still holds the value-initialised `T` the constructor filled it with |
| CircularBuffers.BackSlotHoldsOldest | lib/ets/CircularBuffer.h:32-35 | the slot `back()` reads (0 before full, `head % n` after) holds the first inserted value (or the blank) before full, and the oldest of the last `n` values after; once full it is the slot the next insert overwrites |
| CircularBuffers.Oldest | lib/ets/CircularBuffer.h:32-35 | the value `back()` answers for a history: the blank for an empty history, and otherwise one of the inserted values |
| CircularBuffers.OldestForgetsEarlier | lib/ets/CircularBuffer.h:32-35 | once `n` values have gone in, `back()` depends only on the last `n` of them and is the first of those `n`, whatever came before |
| CircularBuffers.CircularBuffer.constructor | lib/ets/CircularBuffer.h:16 | storage of exactly `n` slots, all holding the value-initialised `T`, counter 0 |
| CircularBuffers.CircularBuffer.Insert | lib/ets/CircularBuffer.h:22-26 | writes exactly slot `head % n` and leaves every other slot unchanged; advances the counter by one; keeps the same storage of length `n`; fullness never reverts |
| CircularBuffers.CircularBuffer.Back | lib/ets/CircularBuffer.h:32-35 | the answer is the oldest of the last `n` inserted values once full; before that, the first inserted value, or the blank if none |
| CircularBuffers.CircularBuffer.IsFull | lib/ets/CircularBuffer.h:37 | true exactly when at least `n` values have been inserted |
| SlidingWindows.Step | lib/ets/SlidingWindow.h:31-41 | one request never changes the window's settings; it either leaves the recorded timestamps alone or appends exactly `now`; a non-zero delay never records anything |
| SlidingWindows.DelayIsRemainingWait | lib/ets/SlidingWindow.h:33-36 | a positive delay `d` is the remaining wait: every request in `[now, now + d)` is refused with a positive delay, one at `now + d` answers 0, and one just after is admitted and recorded |
| SlidingWindows.StepOutcome | lib/ets/SlidingWindow.h:31-41 | with a clock that never runs backwards: the delay lies in [0, interval]; it is 0 exactly when the request is admitted or hits the boundary `now - oldest == interval`; a denial leaves the window unchanged; an admission appends `now` |
| SlidingWindows.BurstAllowance | lib/ets/SlidingWindow.h:33-41 | until `max_messages` timestamps are recorded, every request is admitted and recorded, whatever the time |
| SlidingWindows.DenialIsIdempotent | lib/ets/SlidingWindow.h:33-37 | a denied request changes nothing, so repeating it at the same time gives the same answer |
| SlidingWindows.StepKeepsSorted | lib/ets/SlidingWindow.h:39 | admissions keep the recorded timestamps in clock order |
| SlidingWindows.StepKeepsSpaced | lib/ets/SlidingWindow.h:33 | any two recorded grants `max_messages` positions apart stay more than `interval` apart in time |
| SlidingWindows.GrantsInSpanAtMost | lib/ets/SlidingWindow.h:33 | rate bound: at most `max_messages` recorded grants fall in any closed span of length `interval` |
| SlidingWindows.BoundaryAnswersZeroUnrecorded | lib/ets/SlidingWindow.h:33-36 | as written, a full window at exactly `interval` past its oldest timestamp denies, returns 0 and records nothing |
| SlidingWindows.StrictStepZeroMeansRecorded | lib/ets/SlidingWindow.h:33-41 | with a strict comparison, a zero delay means exactly that `now` was recorded, and a non-zero delay is a wait in (0, interval] that changes nothing |
| SlidingWindows.StrictStep | lib/ets/SlidingWindow.h:33-41 | the gate with `<` in place of `<=`: same settings, records `now` or nothing, records nothing on a non-zero delay, and admits and records a request at exactly `interval` past the oldest timestamp of a full window |
| SlidingWindows.StrictStepKeepsSpaced | lib/ets/SlidingWindow.h:33 | under the strict gate the timestamps stay sorted and any two grants `max_messages` positions apart stay at least `interval` apart |
| SlidingWindows.StrictGrantsInSpanAtMost | lib/ets/SlidingWindow.h:33 | the strict gate's rate bound: at most `max_messages` recorded grants in any half-open span `[t, t + interval)` |
| SlidingWindows.StrictStepFillsClosedSpan | lib/ets/SlidingWindow.h:33 | under the strict gate a window of one records grants at 0 and 10 with interval 10, so a closed span of length `interval` can hold `max_messages + 1` grants |
| SlidingWindows.SlidingWindow.constructor | lib/ets/SlidingWindow.h:14-17 | a window over a fresh ring of `max_messages` slots with no timestamps recorded |
| SlidingWindows.SlidingWindow.Request | lib/ets/SlidingWindow.h:24-42 | the delay returned and the timestamps left are those of the gate `Step`, so every `Step` lemma applies to the object; the window stays sorted and spaced |
| Throttlers.TrySend | lib/ets/Throttler.h:39-67 | the delay and the new timestamps are those of one window request; exactly one message is added to sent plus queued; the delay is 0 exactly when the message was sent |
| Throttlers.SendQueued | lib/ets/Throttler.h:74-86 | window settings are kept; sent plus queued keeps its size; the sent log only grows and the lanes only shrink; the other lane loses messages only if the high lane ends empty; 0 exactly when both lanes end empty |
| Throttlers.Drain | lib/ets/Throttler.h:90-118 | draining a lane sends at most the whole lane; it returns 0 exactly when every queued message went out; window settings are kept |
| Throttlers.DrainKeepsWindow | lib/ets/Throttler.h:92-100 | a drain only appends to the window's recorded timestamps and keeps the window's invariants; a non-zero result is a wait in (0, interval] and is the window's own answer to a further request at `now` |
| Throttlers.TrySendOutcome | lib/ets/Throttler.h:39-67 | if admitted, the message is sent once and both lanes are unchanged; if denied, the message joins the back of exactly one lane (the high lane for the designated type), nothing is sent, and the wait is returned; no message is lost or duplicated |
| Throttlers.SendQueuedOutcome | lib/ets/Throttler.h:74-118 | one call sends a front part of the high lane, then a front part of the other lane, in queue order, and leaves the rest queued; nothing of the other lane goes out unless the high lane emptied; returns 0 exactly when both lanes end empty, and otherwise a wait in (0, interval] equal to the window's own answer to a further request at `now` |
| Throttlers.DrainAgedOut | lib/ets/Throttler.h:92-117 | when the oldest `k` timestamps of a full window have aged out, a lane of `k` messages drains completely and records `now` `k` times |
| Throttlers.QueuesDrainWhenAgedOut | lib/ets/Throttler.h:74-118 | with enough aged-out capacity, one call sends the whole high lane and then the whole other lane in queue order and returns 0 |
| Throttlers.SendQueuedAccounts | lib/ets/Throttler.h:104-113 | draining neither loses nor duplicates a message: sent plus queued is unchanged |
| Throttlers.FullDrainSendsAll | lib/ets/Throttler.h:79-85 | a drain keeps every submitted message accounted for, sent or queued; exactly once: after a drain that returns 0, the sent log is exactly the multiset of messages ever submitted |
| Throttlers.EmptyLanesDrainNothing | lib/ets/Throttler.h:92 | with both lanes empty, a drain asks the window nothing, changes nothing and returns 0 |
| Throttlers.SubmissionOvertakesQueue | lib/ets/Throttler.h:42-47 | a new submission admitted by the window is sent at once, while an older message of the same type is still queued |
| Throttlers.OtherOvertakesQueuedHigh | lib/ets/Throttler.h:42-47 | a lower-priority submission admitted by the window is sent at once, while a high-priority message is still queued |
| Throttlers.BoundarySendsUnrecorded | lib/ets/Throttler.h:43 | as written, at the window boundary the throttler sends message after message without recording any of them |
| Throttlers.Throttler.constructor | lib/ets/Throttler.h:26-29 | a throttler over a fresh window, with both lanes empty and nothing sent |
| Throttlers.Throttler.TrySendMessage | lib/ets/Throttler.h:39-67 | the delay and the new lanes and sent log are those of `TrySend`; every submitted message stays accounted for |
| Throttlers.Throttler.SendQueuedMessages | lib/ets/Throttler.h:74-86 | the delay and new state are those of `SendQueued`; a zero result leaves both lanes empty and the sent log equal to all messages submitted |
| Throttlers.Throttler.Enqueue | lib/ets/Throttler.h:53-63 | a throttled message joins the back of exactly one lane: the high lane for the designated type, the other lane otherwise |
| Throttlers.Throttler.SendHighLane | lib/ets/Throttler.h:77 | the first drain: the high lane's admitted front is sent in order and erased, the rest stays queued, as `Drain` over the high lane says |
| Throttlers.Throttler.SendRestLane | lib/ets/Throttler.h:79-83 | the second drain, over the other lane, with the same meaning |
| Throttlers.Throttler.SendFront | lib/ets/Throttler.h:94-110 | one round of the drain: one window request; the front message is sent exactly when the answer is 0 |
| Throttlers.Throttler.DrainLane | lib/ets/Throttler.h:90-118 | one request per queued message, front first; admitted messages are sent in order and erased; the first non-zero delay stops the loop with that message still queued; matches `Drain` |
| Scenarios.InsertAndItems | tests/TestCircularBuffer.cpp:11-38 | capacity 4, insert 1..8: `back()` answers 1, 1, 1, 1, 2, 3, 4, 5 |
| Scenarios.InsertAndOverrideItems | tests/TestCircularBuffer.cpp:41-60 | capacity 4, insert 0..999: `back()` is 0 for the first four insertions and `i - 3` after |
| Scenarios.CheckBufferIsFull | tests/TestCircularBuffer.cpp:63-84 | capacity 4, insert 1..6: `is_full()` is false, false, false, true, true, true |
| Scenarios.RequestAndCheck | tests/TestSlidingWindow.cpp:14-49 | 100 per second: 90 requests at 0.5 s and 10 at 1.1 s are admitted; 10 more at 1.1 s each wait 0.4 s; one at 1.5 s + 1 ns is admitted |
| Scenarios.SendMessageThrottleAndQueue | tests/TestThrottler.cpp:47-109 | 90 low- and 10 high-priority messages go out at once; 10 (high, low) pairs are queued with positive delays; one drain at 1.5 s + 1 ns sends the 10 queued high-priority messages before the 10 queued low-priority ones; 20 high and 100 low are sent in total |

## Left out

- `std::chrono::steady_clock::now()` is not read. Each request takes `now` as a parameter. The only requirement is that `now` is not earlier than any recorded timestamp (`SlidingWindow.h:30`).
- Throttlers.Throttler.SendQueuedMessages: every request within one call sees the same `now`. The source reads the clock again for each request.
- The `size_t` write counter `_head` is unbounded here. Wrap-around after 2^64 insertions is not modelled.
- A zero capacity (which would take a remainder by zero) and a non-positive interval are excluded by constructor preconditions rather than modelled as an error path.
- `SlidingWindow` keeps `_max_messages` beside the ring. The model reads the same value as the ring's array length.
- CircularBuffers.CircularBuffer.constructor takes the value-initialised `T{}` as an explicit argument, because Dafny has no default value for a generic type. The window passes 0, the clock's epoch.
- The on-send callback is a ghost log of sent messages. Its own effects (counters, printing) are not modelled.
- The C++ type-erasure machinery is replaced by the tagged `Message` datatype:
  - `StoredMessageBase` and its virtual `send()`;
  - `std::unique_ptr`;
  - the `if constexpr` type test.
- Throttlers.TrySendOutcome, Throttlers.FullDrainSendsAll: the model assumes that `on_send` returns normally and that `push_back` and `make_unique` do not throw (`Throttler.h:42-46, 56, 62, 94, 104, 109`). The "no message lost or duplicated" and "sent exactly once" statements hold only under that assumption. If `on_send` throws in `try_send_message`, a window slot is consumed and the message is neither sent nor queued. If it throws during a drain, the timestamp is recorded and the message stays at the front of its lane, so it is sent again later.
- `Throttler.h:145-147` exposes `_on_send_callback` to subclasses for testing. It is not modelled.
- `main.cpp` is not part of this model. It holds the demo program:
  - a mutex-protected queue;
  - worker threads;
  - console output.
- The tests' sleeps are replaced by fixed timestamps (0.5 s, 1.1 s, 1.5 s + 1 ns). The throttler test's polling loop becomes a single drain at a time when everything queued can go out.

## Findings

| source | as written | input that shows it | evidently intended | confidence | as-written member | corrected member |
|---|---|---|---|---|---|---|
| lib/ets/SlidingWindow.h:33-36 | a full window with `now - oldest == interval` takes the denial branch, records nothing and returns `interval - (now - oldest)`, which is 0; `Throttler` treats 0 as admitted (`lib/ets/Throttler.h:43, 96`) and sends the message | capacity 1, interval 10, one grant at 0; requests at 10 return 0 and record nothing, so every message at 10 is sent | a zero delay should mean the request was admitted and recorded, for instance by denying only when `now - oldest < interval` | not executed | Throttlers.BoundarySendsUnrecorded | SlidingWindows.StrictStepZeroMeansRecorded |

The classes keep the comparison as written, so they stay faithful to the code.

- `SlidingWindows.GrantsInSpanAtMost` is the rate bound for the gate as written. It bounds *recorded* grants in any closed span of length `interval`.
- `Throttlers.BoundarySendsUnrecorded` shows that the bound on *sent* messages fails at the boundary. `SlidingWindows.BoundaryAnswersZeroUnrecorded` exhibits the same boundary case on the window alone.
- The strict gate has a bound of its own, over half-open spans: `SlidingWindows.StrictGrantsInSpanAtMost`. Its closed spans can hold one grant more, as `SlidingWindows.StrictStepFillsClosedSpan` shows.
