# gpiots in Dafny

A model of the core of gpiots, a Raspberry Pi kernel module that time-stamps
GPIO rising edges in an interrupt handler and hands the timestamps to one
reader per line through a character device, together with the two user-space
monitors that pair start/end timestamps of a lane.

- `ring.dfy` (module `Ring`): the bounded ring buffer. `capacity + 1` slots,
  `head` (next write) and `tail` (next read) wrapping at `size`, one slot kept
  free. `Ring.Fifo<T>` keeps the array and the two indices and a ghost
  `contents` (oldest first); `Valid()` ties `contents` to the slots from
  `tail` to `head`. Read and write are the loops of gpio_fifo.c:32-68 with
  invariants and exact FIFO postconditions. The three copies (`gpio_fifo.c` over
  `struct timespec`, `gpiots_fifo.c` over `struct timespec64`, `fifo.c` over
  `fifo_payload_t`) are the same code line for line, so this one generic
  class models all three.
- `fifo_clients.dfy` (modules `GpiotsFifo`, `UserFifo`): the class used at the
  element types of `gpiots_fifo.c` and `fifo.c`. They cover the round trip, a
  write to a full buffer, and a capacity-3 scenario.
- `time.dfy` (module `Time`): timestamps, the lane payload, and the integer
  microsecond conversion `sec * 1000000 + nsec / 1000`, with C's truncating
  division written out.
- `driver.dfy` (module `Driver`): the per-device logic of `gpio_stamp.c`.
  - `Device` has the FIFO and `opencount`. It supports exclusive open, which
    clears the FIFO, plus release, non-blocking read and poll.
  - `GpioTs` has the `module_unload` flag and the interrupt handler.
  - Each method is proved against a pure step function on a `DevView`.
  - Lemmas about those functions cover:
    - opening a device that is already open;
    - open, release, open;
    - a new session seeing only new events;
    - interrupts appending in order, and overflow keeping the queue;
    - poll predicting read;
    - over any sequence of events, at most one holder and a bounded queue.
- `lanes.dfy` (module `Lanes`): the lane state of `gpiots_test.c`. It covers
  initialisation, the dispatch of a timestamp to lane `i / 2`, and evaluation
  with reset. Each due lane is reported exactly once.
- `pairs.dfy` (module `Pairs`): the pairing of `test.c`. A ready slot is zeroed
  before the read, and both lanes are compared only when device 3 was ready.
  Only a strictly negative difference is rejected.

Three behaviours of the code worth noting:
- In `gpiots_test.c`, a lane is evaluated whenever its end second is positive,
  even with no start recorded. That pair is reported as a speed against
  `{0, 0}`, not as out of order (`Lanes.EndWithoutStartGivesSpeed`).
- `test.c` accepts a zero elapsed time, while `gpiots_test.c` rejects it
  (`Pairs.ZeroElapsedTreatedDifferently`).
- `gpio_ts_release` decrements `opencount` (gpio_stamp.c:126); it does not
  reset it to 0 (`Driver.Device.Release`).

## Model

| member | source | states |
|---|---|---|
| `Ring.Fifo.Create` | gpio_fifo.c:12-15 | a new buffer is valid and empty, `head == tail == 0`, `size == capacity + 1` |
| `Ring.Fifo.Read` | gpio_fifo.c:32-47 | returns `min(n, count)` (or `n` itself when `n <= 0`); the copied entries are the oldest, in order, and exactly those leave the front of the contents; `head` is untouched, the rest of the output buffer is untouched, and on an empty buffer nothing changes |
| `Ring.Fifo.Write` | gpio_fifo.c:51-68 | returns `min(n, free slots)` (or `n` when `n <= 0`); exactly the first that-many input items are appended after the existing contents, which are never overwritten; `tail` is untouched |
| `Ring.Fifo.DataAvailable` | gpio_fifo.c:71-73 | the index test `tail != head` holds exactly when the buffer holds an entry |
| `Ring.Fifo.Clear` | gpio_fifo.c:75-77 | afterwards both indices are 0, the contents are empty and no data is available, whatever the prior state |
| `Ring.Fifo.Capacity` | fifo.c:65-66 | the live count never exceeds `size - 1` |
| `Ring.Advance` | gpio_fifo.c:38-41 | the wrapped increment keeps an index in `[0, size)` |
| `Ring.AdvanceIsModular` | gpio_fifo.c:61-64 | incrementing and wrapping at `size` is incrementing modulo `size` |
| `Ring.CountIsModular` | fifo.c:63-67 | the number of live entries is `(head - tail + size) % size` and at most `size - 1` |
| `Ring.FullIsModular` | gpio_fifo.c:57 | the two-way full test as gpio_fifo.c:57 writes it (next slot is `tail`, or the last slot with `tail` at 0) is equivalent to `(head + 1) % size == tail` |
| `Ring.FullIffAtCapacity` | gpiots_fifo.c:86-87 | the buffer is reported full exactly when it holds `size - 1` entries |
| `Ring.EmptyIffIndicesMeet` | gpiots_fifo.c:100-102 | the count is 0 exactly when `head == tail` |
| `Ring.WriteSlotIsFree` | fifo.c:69-73 | the slot at `head` is the one after the newest entry and holds none of the live entries, so writing it overwrites nothing |
| `GpiotsFifo.WriteThenRead` | gpiots_fifo.c:61-97 | writing k <= capacity timestamps into a new buffer and reading k returns k both times and the same sequence |
| `GpiotsFifo.FullWriteKeepsContents` | gpiots_fifo.c:84-88 | a write to a full buffer returns 0 and draining afterwards yields exactly the earlier contents |
| `UserFifo.CapacityThreeScenario` | fifo.c:39-77 | capacity 3: A,B,C fit, D is refused, reading 2 gives [A,B], D,E then fit, reading 5 gives [C,D,E] |
| `Time.UsecPart` | gpiots_test.c:91-92 | `nsec / 1000` truncates toward zero as C's `/` does: the quotient has the sign of `nsec` and is off by less than one unit of 1000 toward zero |
| `Time.Usecs` | test.c:75-76 | `sec * 1000000 + nsec / 1000`; for nanoseconds in `[0, 1e9)` the result lies in the timestamp's own second |
| `Time.UsecsWithinSecond` | gpiots_test.c:91-92 | for nanoseconds in `[0, 1e9)` C's truncating `nsec / 1000` equals the Euclidean one, so the value is `sec * 1000000 + nsec / 1000` in plain arithmetic |
| `Time.ElapsedSignFollowsOrder` | test.c:75-77 | a positive microsecond difference means the end is strictly later; a later end never gives a negative difference |
| `Lanes.InitLanes` | gpiots_test.c:42-45 | returns a new array in which lane i has id i and both timestamps `{0, 0}` |
| `Lanes.Dispatch` | gpiots_test.c:81-86 | an event on device i changes only lane `i / 2`: its start for even i, its end for odd i |
| `Lanes.EvaluateLanes` | gpiots_test.c:89-103 | the reports are those of the due lanes (end second > 0) in lane order, a speed when micros > 0 and out of order otherwise; due lanes are reset, the others unchanged |
| `Lanes.FirstLaneRound` | gpiots_test.c:41-103 | on fresh lanes, a start from device 0 and an end from device 1 followed by evaluation report lane 0 once, with its verdict, exactly when the end second is positive, and nothing otherwise |
| `Lanes.EvaluatedLaneIsEmpty` | gpiots_test.c:100 | an evaluated lane is back in its initial state and no longer due |
| `Lanes.ReportedOnce` | gpiots_test.c:89-101 | a second evaluation pass right after the first reports nothing |
| `Lanes.ReportCount` | gpiots_test.c:90 | one pass reports exactly as many lines as there are due lanes |
| `Lanes.SpeedOnlyForLaterEnd` | gpiots_test.c:93-96 | a speed is reported only for an end strictly later than the start, with positive micros |
| `Lanes.EndWithoutStartGivesSpeed` | gpiots_test.c:90-96 | an end with no recorded start is evaluated against `{0, 0}` and reported as a speed |
| `Pairs.RefreshSlots` | test.c:62-72 | each ready device's slot is zeroed and then holds what its read delivered (`{0, 0}` if nothing); other slots keep their value |
| `Pairs.EvaluatePairs` | test.c:73-85 | when device 3 was ready, channels 0/1 and 2/3 are compared in that order, otherwise nothing; the slots are only read, never reset |
| `Pairs.RejectedOnlyWhenEndEarlier` | test.c:78-82 | a pair is rejected only when its end is strictly earlier; an end later than its start is always accepted with its micros |
| `Pairs.ZeroElapsedTreatedDifferently` | test.c:78 | equal timestamps are a speed over 0 micros here but out of order in the lane monitor |
| `Driver.Device.constructor` | gpio_stamp.c:299-306 | a new device has an empty FIFO of GPIO_TS_FIFO_SIZE entries and is not open |
| `Driver.Device.Open` | gpio_stamp.c:105-118 | the new device state and return value are those of `OpenStep`: `-EBUSY` with nothing changed when open, else FIFO cleared and count raised |
| `Driver.Device.Release` | gpio_stamp.c:123-130 | `opencount` drops by one; the FIFO is kept |
| `Driver.Device.Read` | gpio_stamp.c:135-158 | the outcome is `ReadStep`: `-ENOMEM` before touching the FIFO, else `min(length, count)` oldest entries drained and delivered, or lost with `-EFAULT` when the copy fails |
| `Driver.Device.Poll` | gpio_stamp.c:164-184 | returns both bits, `POLLPRI` OR-ed with `POLLIN`, exactly when the FIFO holds data, else 0, and changes nothing |
| `Driver.GpioTs.constructor` | gpio_stamp.c:96 | the unload flag starts out false, so interrupts are handled |
| `Driver.GpioTs.BeginUnload` | gpio_stamp.c:359 | sets the flag that makes every later interrupt a no-op |
| `Driver.GpioTs.Handler` | gpio_stamp.c:195-227 | null device or unloading or not open: `-IRQ_NONE`, nothing changes; otherwise one timestamp is appended if there is room (else an overflow is counted) and a wake-up is issued in both cases |
| `Driver.OpenWhileOpenIsBusy` | gpio_stamp.c:110-112 | opening an open device returns `-EBUSY` and leaves everything unchanged |
| `Driver.ReopenAfterRelease` | gpio_stamp.c:110-126 | after open, release, open, both opens succeed and the second starts with an empty FIFO |
| `Driver.IgnoredInterruptChangesNothing` | gpio_stamp.c:201-216 | while unloading or not open, an interrupt changes nothing |
| `Driver.InterruptsAppendInOrder` | gpio_stamp.c:218-224 | while open with room, interrupts append their timestamps in arrival order and wake once each |
| `Driver.OverflowKeepsQueue` | gpio_stamp.c:219-223 | once full, further interrupts leave the buffered timestamps as they are and are counted as overflows |
| `Driver.InterruptsFillThenDrop` | gpio_stamp.c:218-224 | while open, interrupts append in arrival order until the FIFO is full and every later one is dropped: the queue is the first `capacity` entries of the old queue followed by the new timestamps |
| `Driver.FreshSessionSeesOnlyNewEvents` | gpio_stamp.c:113-114 | after a successful open the FIFO holds exactly the timestamps of interrupts since then, the first `capacity` of them when more arrived |
| `Driver.PollPredictsRead` | gpio_stamp.c:172-177 | poll reports readiness exactly when a read of at least one record would return one, the oldest |
| `Driver.StepKeepsExclusive` | gpio_stamp.c:110-126 | one open, release, interrupt, read or poll keeps `opencount == holders <= 1` and the FIFO within capacity |
| `Driver.RunKeepsExclusive` | gpio_stamp.c:105-227 | over any sequence of those events, at most one file holds the device and the FIFO stays within capacity |

## Left out

- Allocation failure in the buffer's create is left out, so creation always succeeds. When the second allocation fails, gpio_fifo.c:15-18 returns NULL and leaks the first; that leak is not modelled either. The destroy functions are not modelled, nor is the read-side `kfree`. This includes the bounce buffer that leaks on the `-EFAULT` path.
- A negative capacity is excluded (`capacity: nat`). The driver always passes 128.
- C `int` overflow is not modelled. Integers are unbounded in `size + 1`, in `sec * 1000000`, in `length * sizeof(struct timespec)`, and in converting the `size_t` length to `int`.
- `Driver.Device.Read` takes `length` as a count of entries, as the driver uses it. It does not model a partial `copy_to_user`: on `-EFAULT` nothing counts as delivered.
- Spinlocks are not modelled: each locked region is one atomic step. There is no concurrency between the handler and the file operations.
- `Driver.RunKeepsExclusive`: holds only for file operations that do not overlap. Each open and release is one atomic step, but `gpio_ts_open` tests and increments `opencount` without a lock (gpio_stamp.c:110-114) and `gpio_ts_release` decrements it without one (gpio_stamp.c:126). Two overlapping opens can both see `opencount == 0` and both return 0; the model does not capture that interleaving.
- The wait queue is a ghost count of wake-ups. `poll_wait` registration is not modelled, and neither is sleeping.
- `getnstimeofday` is not modelled: the handler receives the clock reading as a parameter.
- The handler's overflow `printk` is a ghost count of overflows.
- The device lookup through `iminor`/`devtable` and `filp->private_data` is not modelled: the operations act on the `Device` directly.
- Module init and exit are left out as registration plumbing. This covers the character-device region, class, devices, `cdev_add`, GPIO request and export, and `request_irq`/`free_irq`. Only `module_unload := true` is kept.
- The floating-point speed and its rounding are left out, in both test programs. Only the integer microseconds and the branch taken are modelled.
- The open/poll/read/printf loops of the test programs are left out. The model covers their lane and slot updates. In `gpiots_test.c` a failed read leaves `ts` with its previous value, and `Lanes.Dispatch` stores whatever `ts` holds.
- `client/gpiots_client_safe.c` is left out: it is I/O only.
