# Discrete-event scheduler, modelled in Dafny

This project models the discrete-event scheduler in `src/event.rs` and the action-less copy of its queue, with its demo, in `src/main.rs`. Simulated time is Rust's `i32` (`Primitives.I32`).

- **Event ordering.** An `Event` pairs an execution time with an action. Its `Ord`/`PartialOrd` are the time order reversed, so Rust's max-heap `BinaryHeap` pops the earliest event first. Its `PartialEq` compares only times.
- **`EventManager`.** A priority queue with `add` and `next`. The `BinaryHeap` is modelled by its storage, a `seq<Event>` field that `Add` and `Next` reassign. Only the multiset of stored events (`Contents()`) is observable. `Next` returns an event of earliest time and may pick any one among ties.
- **`EventExecutor`.** A class with the three fields of the source. The `println!` of `t = …` is a ghost `log` of logged times. The object invariant `Valid()` says that consecutive log lines, counted from the initial `last_log_time` of 0, are at least `log_frequency` apart.
- **The `run` loop.** `RunStep` is one iteration of the `while` body. `Run` is the loop itself, with the hardcoded start time 0, log interval 100 (`LogInterval`) and bound 990 (`MaxTime`).
- **Actions.** Each boxed `EventAction` is an `ActionId`. What the actions do is a parameter `act: (ActionId, I32) -> Disposition`: `act(a, t)` is what action `a` returns when executed at time `t`. Rescheduling moves the same `ActionId` into the new event.
- **Shared pop model.** Module `Queue` holds the generic "pop returns an earliest element" model that both managers use. It includes the scan that finds that element and the lemmas about successive pops.
- **Draining.** `Events.EventManager.Drain` is not a method of the source. It is a caller that calls `next` until `None`, and it shows that the manager's own pops form the pop sequences the `Queue` lemmas are about.

The code fixes several things a generic scheduler would leave to its caller:
- `EventExecutor::new` takes only the log frequency and starts both times at 0.
- `run` takes no arguments. It starts at 0, logs every 100 units and stops at 990, not at a caller-chosen bound.

Files: `primitives.dfy` (i32, `Ordering`, `Option`), `queue.dfy` (module `Queue`), `events.dfy` (module `Events`, `src/event.rs`), `demo.dfy` (module `Demo`, `src/main.rs`).

## Model

| member | source | states |
|---|---|---|
| `Primitives.CompareInt` | src/event.rs:28 | `Ord::cmp` on `i32` answers `Less`, `Equal` or `Greater` exactly when the first time is smaller, equal or larger |
| `Primitives.Reverse` | src/event.rs:26-36 | reversing an ordering swaps `Less` and `Greater` and keeps `Equal` |
| `Primitives.CompareIntSwap` | src/event.rs:32-36 | comparing `other` with `self` is the reverse of comparing `self` with `other` |
| `Events.Equals` | src/event.rs:20-24 | two events are equal exactly when their execution times are equal, whatever their actions |
| `Events.Compare` | src/event.rs:32-36 | `cmp` is the reverse of the time comparison: an event with a smaller time compares `Greater`, and `Equal` holds exactly when `eq` does |
| `Events.PartialCompare` | src/event.rs:26-30 | `partial_cmp` is always `Some` and always agrees with `cmp` |
| `Events.CompareIsTotalOrder` | src/event.rs:20-36 | the inverted comparator is antisymmetric, transitive, and answers `Equal` exactly when `eq` holds, as `Ord` requires |
| `Events.GreatestIsEarliest` | src/event.rs:32-34 | an event is a greatest element under the inverted `cmp` exactly when its time is no later than any queued event's, so the max-heap's `pop` is a min-extraction |
| `Events.EventExecutor.constructor` | src/event.rs:54-60 | `log_frequency` is as given, `last_log_time` and `current_time` are 0, nothing has been logged, and the throttle invariant holds |
| `Events.EventExecutor.Execute` | src/event.rs:62-70 | `current_time` becomes the event's time; exactly when `current_time - last_log_time >= log_frequency`, one line with that time is logged and `last_log_time` becomes it, otherwise neither changes; the result is the action's disposition at that time, unchanged; the throttle invariant is kept |
| `Events.SpacedSpan` | src/event.rs:64-67 | log lines at least `gap` apart span at least `(n - 1) * gap` time units |
| `Events.LogCountBound` | src/event.rs:62-68 | with a positive interval, the number of log lines times the interval is at most the time of the last line: at most one line per interval |
| `Events.EventManager.constructor` | src/event.rs:78-82 | a new manager's queue is empty |
| `Events.EventManager.Add` | src/event.rs:84-86 | the queue gains exactly the given event and nothing else changes |
| `Events.EventManager.Next` | src/event.rs:88-90 | `None` exactly when the queue is empty, leaving it unchanged; otherwise it returns a queued event whose time is no later than any queued event's (a greatest under `cmp`), and exactly that one event leaves the queue |
| `Events.DispatchedSize` | src/event.rs:100-102 | after a dispatch, `Reschedule(t)` keeps the queue's size and queues an event at `t` with the popped action; `Delete` shrinks the queue by one |
| `Events.EventManager.RunStep` | src/event.rs:97-103 | on an empty queue nothing changes and the loop time stays; otherwise an earliest event is popped, the loop time and the executor's time become its time whatever that time is, the executor logs per the throttle, and the queue loses the event and gains one at `t` with the same action exactly when the action returns `Reschedule(t)` |
| `Events.EventManager.Run` | src/event.rs:92-105 | starting at time 0 with log interval 100, the loop stops short of time 990 only when all `fuel` iterations are spent, and it reports reaching 990 exactly when the loop time is at least 990; on an initially empty queue it spins, with time staying 0 and every iteration spent; the queue never grows; log lines are at least 100 apart; queued times stay non-negative |
| `Events.EventManager.Drain` | src/event.rs:88-90 | calling `next` until `None` returns the queued events in non-decreasing time order, each exactly once, as a pop sequence of the queue, and leaves the queue empty |
| `Queue.IndexOfEarliest` | src/event.rs:88-90 | the scan that models `pop` finds an index whose element has the earliest key |
| `Queue.RemoveAt` | src/event.rs:88-90 | taking one element out leaves exactly the other stored elements |
| `Queue.EarliestExists` | src/event.rs:88-90 | every non-empty queue has an element of earliest time |
| `Queue.PopSequenceExtends` | src/event.rs:88-90 | while events remain, a sequence of pops can always be extended by one more legitimate pop |
| `Queue.ExtendPopSequence` | src/event.rs:88-90 | popping an earliest remaining event extends a sequence of pops by that event |
| `Queue.PopStep` | src/event.rs:88-90 | one more pop extends the pop sequence and removes exactly the popped event from what remains |
| `Queue.PopSequenceComplete` | src/event.rs:88-90 | a sequence of pops after which nothing remains returns every event exactly once, in non-decreasing time order |
| `Queue.PopSequenceSorted` | src/event.rs:88-90 | successive pops with no insertion in between return non-decreasing times, each stored event at most once |
| `Queue.DrainReturnsEverything` | src/event.rs:88-90 | popping until the queue is empty returns exactly the events that were stored |
| `Demo.Equals` | src/main.rs:5-8 | derived equality holds exactly when the execution times are equal |
| `Demo.Compare` | src/main.rs:16-20 | `cmp` is the reverse of the time comparison: a smaller time compares `Greater` |
| `Demo.PartialCompare` | src/main.rs:10-14 | `partial_cmp` is always `Some` and agrees with `cmp` |
| `Demo.EventManager.constructor` | src/main.rs:33-37 | a new manager's queue is empty |
| `Demo.EventManager.Add` | src/main.rs:38-40 | the queue gains exactly the given event |
| `Demo.EventManager.Next` | src/main.rs:41-43 | `None` exactly on an empty queue; otherwise an event of minimum time leaves the queue and everything else stays |
| `Demo.EarliestIsStrictMinimum` | src/main.rs:54-57 | when one queued event is strictly earlier than all others, it is the only possible result of `next` |
| `Demo.PopEarliestTime` | src/main.rs:54-57 | `next().unwrap().execution_time` on a queue whose earliest event is unique succeeds and yields that event's time, and the other events stay queued |
| `Demo.RunDemo` | src/main.rs:46-58 | after adding 10, 5, 11 and 1, the four `unwrap`s succeed and the printed times are 1, 5, 10, 11 |

## Left out

- Printing (`println!` at src/event.rs:66 and src/main.rs:54-57) is I/O. The executor's output is the ghost `log` of logged times. `Demo.RunDemo` returns the printed times as a sequence.
- The concrete `EventAction` implementations and the `Box<dyn EventAction>` trait object are external code. An action is an `ActionId`, and its behaviour is the parameter `act`. Because `act` is a pure function, an action's internal state cannot change between its executions.
- `BinaryHeap` internals (sift-up, sift-down, array layout) are not modelled. The storage is a sequence scanned linearly for an earliest element. Which of several events with equal times is popped is left open, as in the source.
- Events.EventManager.Run: the source loop has no bound on its iterations. It spins forever when the queue empties before time 990. The model runs at most `fuel` iterations. `finished` says whether the loop time reached 990, and when it did not, all `fuel` iterations were spent. It does not prove that the source loop terminates.
- Events.EventManager.Run: requires every queued event and every rescheduled time to be non-negative. This keeps `current_time - last_log_time` within `i32`, which the source leaves to its callers. `Events.EventManager.RunStep` has the same requirement.
- Events.EventExecutor.Execute: requires `current_time - last_log_time` to fit in `i32`. Rust's overflow panic or wrap-around is not modelled.
- Whole-run properties are not proved. One example: an action that returned `Delete` is never dispatched again. What is proved is each iteration's effect on the queue, in `RunStep` and `DispatchedSize`, and that the whole run never grows the queue, in `Run`.
- Rust ownership moves (`event.action` moved into the new event) are modelled by reusing the same `ActionId`. Nothing in the model requires the queued events to carry distinct ids, which `Box` ownership guarantees in the source. Memory release on `Delete` is not modelled.
