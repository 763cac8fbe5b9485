# SeatLock seat-state engine, modelled in Dafny

SeatLock keeps the reservation state of a fixed pool of seats. Each seat moves
Available → Held → Sold. A hold carries a deadline, and a seat whose hold has
lapsed counts as Available again. The repository has two stores for this state:

- **The lock-based store** (`SeatManager`). It keeps a table from seat id 1..N
  to a mutex-guarded `Seat` record with a status, a string owner and a hold
  deadline. `holdSeat` and `confirmSeat` check expiry lazily. `cleanupExpiredHolds`
  sweeps every seat eagerly. `getSeatStates` reports (id, status, owner) in id order.
- **The lock-free store** (`AtomicSeatManager`). It keeps one atomic `int`
  word per index 0..N. Bits 0-1 hold the status code (0 Available, 1 Held,
  2 Sold) and the bits above hold a numeric holder. Each operation is a
  load/check/compare-and-swap loop with one legal transition.

Files:

- `seats.dfy` (module `Seats`): the `Seat` record, its status enumeration and
  its two constructors, from `include/Seat.h`.
- `lock_based.dfy` (module `LockBased`): the per-seat locked bodies as pure
  step functions (`Hold`, `Confirm`, `Release`, `ExpireHold`, `Sweep`). It also
  has the class `SeatManager` over a `map<int, Seat>`, whose methods rewrite one
  entry at a time, and lemmas about runs of operations.
- `lock_free.dfy` (module `LockFree`): the bit encoding as pure functions with
  both round trips, the per-word transitions, and the class
  `AtomicSeatManager` over an `array<int>` of words. Each method is a guard
  followed by one compare-and-swap.
- `agreement.dfy` (module `Agreement`): where the two stores give the same
  answer and where they differ.

Each hold, confirm and release call is one sequential step on one seat. The
per-seat mutex or the compare-and-swap retry loop guarantees exactly that. The
sweep and the two reports visit every seat, one seat at a time. The current
time is an integer `now` parameter counted in seconds.

Where the two stores disagree, or the code disagrees with its own comments,
the model follows the code:

- The lock-based `releaseSeat` frees a Sold seat and returns true
  (src/SeatManager.cpp:63-66). The test's comment calls Sold final unless there
  is a refund or admin release, and adds that releaseSeat forces Available
  (tests/test_basic.cpp:23-25). The lock-free store's own comment leaves the
  question to business logic and decides no, so it refuses to release a Sold
  seat (src/AtomicSeatManager.cpp:93-96).
- The lock-free store ignores `durationMs` and stores no deadline, so its holds
  never expire. The header's comment describes a packed timestamp
  (include/AtomicSeatManager.h:10), but the code leaves it out
  (src/AtomicSeatManager.cpp:45-48).
- The lock-free store accepts index 0 and allocates totalSeats + 1 words. Its
  snapshot never reports index 0.
- The lock-based store lets a caller hold a seat under the empty name. That
  leaves a Held seat with no owner (`LockBased.EmptyOwnerMayHold`). So the code
  keeps "Available ⇒ no owner", but not its converse.
- The lock-based hold accepts any `int` duration. A negative one makes a hold
  that has lapsed the moment it is made, so a second caller takes the seat at
  the same instant (`LockBased.NegativeDurationLapsesAtOnce`). With a
  non-negative duration, holds exclude each other until the deadline
  (`LockBased.HoldExcludes`).

## Model

| member | source | states |
|---|---|---|
| `Seats.ThreeStatuses` | include/Seat.h:5-9 | A status is exactly one of three distinct values: Available, Held, Sold |
| `Seats.DefaultSeat` | include/Seat.h:17 | The default constructor yields seat 0, Available, empty owner, the epoch as deadline, and satisfies "Available ⇒ no owner" |
| `Seats.NewSeat` | include/Seat.h:18 | `Seat(id)` yields that id, Available, empty owner, the epoch as deadline, and satisfies "Available ⇒ no owner" |
| `LockBased.Info` | src/SeatManager.cpp:88 | A report entry carries the seat's own id, status and owner |
| `LockBased.Expired` | src/SeatManager.cpp:21 | A seat counts as expired only while Held with its deadline strictly before now |
| `LockBased.ExpireHold` | src/SeatManager.cpp:20-24 | Lazy expiry keeps the id and deadline. It leaves no expired hold behind and touches only an expired hold, which becomes Available with no owner |
| `LockBased.Hold` | src/SeatManager.cpp:18-33 | A hold succeeds iff the seat is Available or its hold has expired. On success the seat is Held by the caller until now + duration. On failure the seat is unchanged |
| `LockBased.Confirm` | src/SeatManager.cpp:43-56 | A confirm succeeds iff the seat is Held by the caller and now ≤ deadline, and then it becomes Sold with the owner kept. The holder arriving late reverts the seat to Available with no owner. Every other case changes nothing |
| `LockBased.Release` | src/SeatManager.cpp:63-66 | A release always succeeds, even on a Sold seat. The seat becomes Available with no owner, and its id and deadline are kept |
| `LockBased.Sweep` | src/SeatManager.cpp:69-80 | One cleanup pass keeps the id set, leaves no expired hold, leaves every non-expired seat untouched, and frees every expired one |
| `LockBased.IdRange` | src/SeatManager.cpp:5-9 | The ids the constructor creates are exactly 1..n, and there are n of them (none when n ≤ 0) |
| `LockBased.Apply` | include/SeatManager.h:17-29 | No public operation adds or removes a seat id |
| `LockBased.ApplyPreservesValid` | src/SeatManager.cpp:11-80 | Each operation keeps the table invariant: ids 1..size, each record carrying its own id, and every Available seat without an owner |
| `LockBased.RunPreservesValid` | src/SeatManager.cpp:11-80 | Any sequence of operations keeps the table invariant and the id set |
| `LockBased.SoldLeftOnlyByRelease` | src/SeatManager.cpp:11-80 | Hold, confirm and the sweep never change a Sold seat. Only release takes a seat out of Sold |
| `LockBased.SweepIdempotent` | src/SeatManager.cpp:69-80 | Sweeping twice at the same instant equals sweeping once |
| `LockBased.SweepConverges` | src/SeatManager.cpp:69-80 | Once every hold's deadline has passed, a sweep leaves no Held seat |
| `LockBased.LazyExpiry` | src/SeatManager.cpp:45-53 | Once a hold's deadline has passed, the holder's confirm fails and reverts the seat to Available, and another caller's hold then succeeds with no sweep in between |
| `LockBased.HoldExcludes` | src/SeatManager.cpp:20-33 | After a successful hold with a non-negative duration, no second hold succeeds until the deadline has passed, and the failed hold changes nothing |
| `LockBased.NegativeDurationLapsesAtOnce` | src/SeatManager.cpp:19-29 | A hold with a negative duration succeeds, but a second caller's hold at the same instant also succeeds and takes the seat |
| `LockBased.OwnershipEnforced` | src/SeatManager.cpp:45-56 | A confirm by someone other than the holder fails, and the seat stays Held by the holder |
| `LockBased.EmptyOwnerMayHold` | src/SeatManager.cpp:26-30 | A hold under the empty name succeeds and leaves a Held seat with an empty owner |
| `LockBased.SeatManager.constructor` | src/SeatManager.cpp:5-9 | Creates exactly ids 1..totalSeats, all Available with no owner, and the table invariant holds |
| `LockBased.SeatManager.HoldSeat` | src/SeatManager.cpp:11-34 | An unknown id returns false with no change. Otherwise the result and the new table follow `Hold` on that seat alone, and the invariant is kept |
| `LockBased.SeatManager.ConfirmSeat` | src/SeatManager.cpp:36-57 | An unknown id returns false with no change. Otherwise the result and the new table follow `Confirm` on that seat alone, and the invariant is kept |
| `LockBased.SeatManager.ReleaseSeat` | src/SeatManager.cpp:59-67 | Returns true exactly for a known id, and frees that seat alone |
| `LockBased.SeatManager.CleanupExpiredHolds` | src/SeatManager.cpp:69-80 | The new table is the sweep of the old one at `now`, and the invariant is kept |
| `LockBased.SeatManager.GetSeatStates` | src/SeatManager.cpp:82-92 | One entry per seat, in ascending id order 1..n, each the seat's (id, status, owner) |
| `LockBased.BasicScenario` | tests/test_basic.cpp:6-29 | On ten seats: hold by User1 succeeds, hold by User2 fails, confirm by User1 succeeds, and after release seat 1 is reported Available with no owner |
| `LockFree.AtomicStatus.Code` | include/AtomicSeatManager.h:16-20 | The status codes lie in 0..2 |
| `LockFree.FromCode` | src/AtomicSeatManager.cpp:111-113 | The cast from a code back to a status inverts `Code` |
| `LockFree.StatusBits` | src/AtomicSeatManager.cpp:38 | `w & 3` is a code in 0..3, and the word is 4 × holder + that code |
| `LockFree.Holder` | src/AtomicSeatManager.cpp:69 | `w >> 2` is the floor of w / 4, and for a non-negative word it lies between 0 and the word |
| `LockFree.Encode` | src/AtomicSeatManager.cpp:45-48 | For a holder in [0, 2^29), the packed word is a non-negative `int` whose low two bits are the status code and whose bits above are the holder |
| `LockFree.EncodedWordWellFormed` | src/AtomicSeatManager.cpp:17-19 | Every word the store writes is well formed: status code 0..2, non-negative, and Available only as the word 0 |
| `LockFree.EncodeDecode` | src/AtomicSeatManager.cpp:66-73 | Decoding an encoded word gives back its status and holder |
| `LockFree.DecodeEncode` | src/AtomicSeatManager.cpp:109-113 | Every well-formed word has a holder that fits the encoding, and encoding its decoded status and holder gives the word back |
| `LockFree.HoldWord` | src/AtomicSeatManager.cpp:33-55 | A hold succeeds iff it moves the word from Available to Held, writing the caller as holder. There is no expiry check, and on failure the word is unchanged |
| `LockFree.ConfirmWord` | src/AtomicSeatManager.cpp:62-78 | A confirm succeeds iff the word is Held by the caller. It then moves Held to Sold and keeps the holder. On failure the word is unchanged |
| `LockFree.ReleaseWord` | src/AtomicSeatManager.cpp:89-103 | A release succeeds iff the word is not Sold, and then writes 0. A Sold word is left unchanged |
| `LockFree.HoldWordExcludes` | src/AtomicSeatManager.cpp:38-52 | Once a hold has succeeded, any later hold fails and leaves the word unchanged |
| `LockFree.ReleaseAvailableIdempotent` | src/AtomicSeatManager.cpp:98-101 | Releasing an Available seat returns true and changes nothing |
| `LockFree.ApplyWord` | src/AtomicSeatManager.cpp:29-104 | Every operation maps a well-formed word to a well-formed word |
| `LockFree.OneLegalTransition` | include/AtomicSeatManager.h:32-39 | Each call either fails with no change or makes its own transition: hold Available→Held, confirm Held→Sold, release non-Sold→0 |
| `LockFree.RunWord` | src/AtomicSeatManager.cpp:29-104 | A word stays well formed under any sequence of operations |
| `LockFree.SoldIsAbsorbing` | src/AtomicSeatManager.cpp:93-96 | No sequence of operations changes a Sold word |
| `LockFree.ToSizeT` | src/AtomicSeatManager.cpp:30 | Converting an `int` to `size_t` keeps a non-negative value and adds 2^64 to a negative one |
| `LockFree.Admits` | src/AtomicSeatManager.cpp:30 | The size_t bounds check admits exactly 0 ≤ id < size: negative ids wrap and are refused, and index 0 is admitted |
| `LockFree.AtomicSeatManager.constructor` | src/AtomicSeatManager.cpp:22-27 | Allocates totalSeats + 1 words, all 0 (Available, holder 0) |
| `LockFree.AtomicSeatManager.CompareExchange` | src/AtomicSeatManager.cpp:50 | Writes the desired word iff the current word equals the expected one, and reports whether it did |
| `LockFree.AtomicSeatManager.HoldSeat` | src/AtomicSeatManager.cpp:29-56 | An out-of-range id returns false with no change. Otherwise the result and the new words follow `HoldWord` on that index alone, and every word stays well formed |
| `LockFree.AtomicSeatManager.ConfirmSeat` | src/AtomicSeatManager.cpp:58-79 | An out-of-range id returns false with no change. Otherwise the result and the new words follow `ConfirmWord` on that index alone |
| `LockFree.AtomicSeatManager.ReleaseSeat` | src/AtomicSeatManager.cpp:81-104 | An out-of-range id returns false with no change. Otherwise the result and the new words follow `ReleaseWord` on that index alone |
| `LockFree.AtomicSeatManager.GetSnapshot` | src/AtomicSeatManager.cpp:106-116 | Lists indices 1..size-1 in ascending order with the decoded status and holder, and never index 0. An Available entry has holder 0 |
| `LockFree.SoldSeatScenario` | src/AtomicSeatManager.cpp:29-116 | On one seat: hold succeeds, a second hold fails, confirm succeeds, release of the Sold seat fails, and the snapshot is [(1, Sold, 7)] |
| `Agreement.AsAtomic` | include/AtomicSeatManager.h:16-20 | The lock-based statuses map to the atomic codes 0, 1, 2 in the same order |
| `Agreement.HoldAgreesWhileLive` | src/AtomicSeatManager.cpp:38-52 | With no expired hold, a hold gives the same answer and the same next status in both stores |
| `Agreement.ConfirmAgreesWhileLive` | src/AtomicSeatManager.cpp:66-76 | With no expired hold and matching owner/holder, a confirm gives the same answer and the same next status in both stores |
| `Agreement.ExpiredHoldDisagrees` | src/AtomicSeatManager.cpp:38-43 | On an expired hold, the lock-based store admits a new hold and the lock-free store refuses it with no change |
| `Agreement.ReleaseComparison` | src/AtomicSeatManager.cpp:93-96 | Release agrees on every non-Sold seat. On a Sold seat the lock-based store frees it and the lock-free store refuses |

## Left out

- Threads, the per-seat mutexes, memory orderings and the spurious failures of `compare_exchange_weak`. Each call is one sequential step on one seat, and each retry loop is its guard followed by one compare-and-swap that succeeds.
- `std::chrono::steady_clock`. The time is an integer `now` argument counted in whole seconds, and the finer clock resolution is not modelled. The default time point is 0.
- Integer overflow in the lock-based store. `now + holdDurationSeconds`, the constructor's `++i` at `INT_MAX` and the `(int)seats.size()` cast are unbounded integers here.
- LockBased.SeatManager.CleanupExpiredHolds: visits ids in ascending order, not in the unordered map's unspecified order. Each step touches only its own seat, so the resulting table is the same.
- LockFree.AtomicSeatManager.HoldSeat: requires 0 ≤ userId < 2^29, because `userId << 2` is undefined or overflows outside that range.
- LockFree.AtomicSeatManager.constructor: requires -1 ≤ totalSeats < INT_MAX, because a smaller count makes the vector's size wrap and its allocation throw, and `totalSeats + 1` overflows at `INT_MAX`.
- The unused `AtomicSeat::userId` and `AtomicSeat::holdExpiry` fields. No code reads or writes them.
- The expiry worker (`ExpiryWorker`). It only starts, stops and sleeps a thread that calls `cleanupExpiredHolds`, which is modelled.
- The load drivers (`src/main.cpp`, `main_bench.cpp`), the placeholder server, the web backend and the frontend. They are I/O, timing and UI around the stores.
