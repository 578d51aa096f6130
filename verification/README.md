# FIFO ring buffer (BeRTOS `fifobuf`) in Dafny

This project models the general-purpose FIFO buffer of
`host/gr-kcsa-ks1q/lib/util/fifobuf.c`. The buffer is a ring over a
caller-supplied array, described by four positions:

- `begin` is the first slot.
- `end` is the last slot. It is inclusive, not one past the end.
- `head` is the next slot to read.
- `tail` is the slot after the last write.

A cursor that moves past `end` goes back to `begin`. One slot always stays
free, so the buffer can tell full from empty:

- it is empty when `head == tail`;
- it is full when `tail == head - 1`, or when `head == begin && tail == end`.

The C file has two copies of `fifo_init`, `fifo_isempty`, `fifo_isfull`,
`fifo_push` and `fifo_pop`. One works on `unsigned char` (`FIFOBuffer`) and
the other on `int16_t` (`FIFOBuffer_q15`). `fifo_room`, `fifo_flush` and
`fifo_len` exist only for `FIFOBuffer`. The model is generic over the
element type `T`, so one definition covers both copies. `FifoScenarios` uses
it at `Byte` (0..255) and at `Q15` (-32768..32767). At `Q15`, the generic
`Room`, `Flush` and `Len` go beyond what the program provides.

Files:

- `fifobuf.dfy` (module `FifoBuf`) holds the state and the C functions.
  - The state is a datatype `Fifo<T>`. It holds the storage `slots` and the
    four positions. Position `p` is stored in `slots[p - begin]`.
  - `begin` is any integer, standing for the array's address. So the room
    and fullness formulas are written exactly as in the source.
  - `Valid` is the descriptor invariant. The storage covers `begin..end`,
    and both cursors lie inside it.
  - `Contents` is the abstraction: the held elements, oldest first.
  - Each C function that takes a `FIFOBuffer *` becomes a pure function.
    It maps the old descriptor and storage to the new ones. `fifo_pop`
    also returns the element it reads.
- `fifo_runs.dfy` (module `FifoRuns`) covers whole sequences of pushes and
  pops, as a producer and a consumer would issue them. It proves FIFO order,
  room accounting, and the fill-exactly and drain-exactly properties.
- `fifo_scenarios.dfy` (module `FifoScenarios`) holds the two element types
  and worked runs: a two-slot buffer, a five-slot buffer, and a run that
  wraps `tail`.

Points where the code and its comments part ways; the model follows the
code:

- The header comment (fifobuf.c:55-57) says the buffer is full when `tail`
  points to the location immediately after `head`. The test it quotes,
  `tail == head - 1`, and the code of `fifo_isfull` mean the slot
  immediately before `head`. `FullIffTailBehindHead` states the code's
  meaning: one more step of `tail` would land on `head`.
- The comment on `fifo_len` says only that it returns the length of the
  buffer. The code returns `end - begin`. That is the usable capacity, one
  less than the number of slots, and never the number of elements held.
- Initialisation with fewer than two slots is not rejected at run time. The
  `ASSERT(size > 1)` in `fifo_init` is commented out. The model keeps it as
  the precondition `|buf| > 1` of `Init`. `OneSlotIsEmptyAndFull` shows what
  goes wrong otherwise: a one-slot buffer is empty and full at once, so it
  can hold nothing.

## Model

| member | source | states |
|---|---|---|
| FifoBuf.Init | host/gr-kcsa-ks1q/lib/util/fifobuf.c:246-253 | For a region of more than one slot: `head == tail == begin` and `end == begin + size - 1`. The new buffer holds nothing, is empty and not full, and has room for `size - 1` elements. |
| FifoBuf.IsEmpty | host/gr-kcsa-ks1q/lib/util/fifobuf.c:81-85 | True exactly when the buffer holds no element. |
| FifoBuf.IsFull | host/gr-kcsa-ks1q/lib/util/fifobuf.c:106-112 | The two-clause test is true exactly when the buffer holds `end - begin` elements, that is, every slot but one. |
| FifoBuf.FullIffTailBehindHead | host/gr-kcsa-ks1q/lib/util/fifobuf.c:55-61 | Full holds exactly when one more circular step of `tail` would land on `head`. |
| FifoBuf.Room | host/gr-kcsa-ks1q/lib/util/fifobuf.c:122-132 | Both branches give the capacity minus the number of elements held. The result lies in `0..end-begin`. It is 0 exactly when full and the whole capacity exactly when empty. |
| FifoBuf.Len | host/gr-kcsa-ks1q/lib/util/fifobuf.c:264-270 | `fifo_len` is the number of slots minus one, the usable capacity. |
| FifoBuf.Next | host/gr-kcsa-ks1q/lib/util/fifobuf.c:159-164 | The step after a cursor stays inside `begin..end`. |
| FifoBuf.NextModular | host/gr-kcsa-ks1q/lib/util/fifobuf.c:39-40 | A step that resets `end` to `begin` is adding one modulo the number of slots. |
| FifoBuf.Contents | host/gr-kcsa-ks1q/lib/util/fifobuf.c:42-57 | The buffer holds fewer elements than it has slots: one slot is always free. |
| FifoBuf.ContentsModular | host/gr-kcsa-ks1q/lib/util/fifobuf.c:35-50 | The number held is `(tail - head)` modulo the number of slots. The `i`-th oldest element sits `i` slots after `head`, modulo the number of slots. |
| FifoBuf.Push | host/gr-kcsa-ks1q/lib/util/fifobuf.c:149-165 | On a buffer that is not full, the value is appended at the newest end. `tail` takes one circular step. `head`, `begin` and `end` do not change, and the result is a valid buffer. |
| FifoBuf.PushStorage | host/gr-kcsa-ks1q/lib/util/fifobuf.c:156-157 | The pushed value lands in the slot the old `tail` named. Every other slot keeps its value. |
| FifoBuf.Pop | host/gr-kcsa-ks1q/lib/util/fifobuf.c:195-211 | On a non-empty buffer, the value returned is the oldest one held, and the rest stay in order. `head` takes one circular step. The storage and `tail` do not change. |
| FifoBuf.PushPopRoom | host/gr-kcsa-ks1q/lib/util/fifobuf.c:149-211 | A push lowers the room by one and a pop raises it by one. Neither changes the capacity `fifo_len` reports. |
| FifoBuf.Flush | host/gr-kcsa-ks1q/lib/util/fifobuf.c:231-238 | After a flush the buffer holds nothing and its room equals its capacity. The storage, `tail`, `begin` and `end` do not change. |
| FifoRuns.Run | host/gr-kcsa-ks1q/lib/util/fifobuf.c:135-211 | Take any mix of pushes and pops in which no push meets a full buffer and no pop meets an empty one. Every pop yields exactly one value. The values popped, followed by what is still held, equal what was held at the start followed by the values pushed. This is FIFO order. The capacity does not change. |
| FifoRuns.RunPushes | host/gr-kcsa-ks1q/lib/util/fifobuf.c:135-165 | Pushes that fit in the room all succeed. Running them first is the same as starting from the buffer they fill. |
| FifoRuns.RunPops | host/gr-kcsa-ks1q/lib/util/fifobuf.c:185-211 | Any number of pops up to the number held all succeed. |
| FifoRuns.PushesThenPopsComplete | host/gr-kcsa-ks1q/lib/util/fifobuf.c:135-211 | A producer pushes values within the room, then a consumer pops no more than is held. The run completes, and the consumer reads the oldest values of what was held followed by what was pushed. |
| FifoRuns.PushAll | host/gr-kcsa-ks1q/lib/util/fifobuf.c:149-165 | Pushing a sequence that fits in the room appends it in order. The room drops by its length. |
| FifoRuns.Drain | host/gr-kcsa-ks1q/lib/util/fifobuf.c:195-211 | Popping until empty returns exactly the held elements, oldest first. The storage and `tail` are left alone. |
| FifoRuns.FillThenDrain | host/gr-kcsa-ks1q/lib/util/fifobuf.c:185-211 | Fill a freshly initialised buffer with `xs`, then drain it: the result is `xs`. |
| FifoRuns.FillExactly | host/gr-kcsa-ks1q/lib/util/fifobuf.c:55-61 | Pushing `room` values makes the buffer full on the last push and on no earlier one. |
| FifoRuns.DrainExactly | host/gr-kcsa-ks1q/lib/util/fifobuf.c:52-53 | Any `k` pops, up to the number held, all succeed. They leave the buffer empty exactly when `k` equals the number held: empty on the last pop and not before. A single pop empties a non-empty buffer exactly when it held one element. |
| FifoRuns.RoomAfterRun | host/gr-kcsa-ks1q/lib/util/fifobuf.c:122-132 | After a completed run of `k` push calls and `j` pop calls from a fresh `size`-slot buffer, the room is `(size - 1) - (k - j)`. |
| FifoRuns.FlushIdempotent | host/gr-kcsa-ks1q/lib/util/fifobuf.c:234-238 | Flushing twice gives the same buffer as flushing once. |
| FifoRuns.FlushEmpties | host/gr-kcsa-ks1q/lib/util/fifobuf.c:231-238 | Whatever `head` and `tail` were, a flushed buffer is empty and has all of its capacity free. If the capacity is positive, it is not full. |
| FifoRuns.OneSlotIsEmptyAndFull | host/gr-kcsa-ks1q/lib/util/fifobuf.c:248-249 | A one-slot region is empty and full at the same time, with no room. This is why initialisation demands more than one slot. |
| FifoScenarios.TwoSlotBuffer | host/gr-kcsa-ks1q/lib/util/fifobuf.c:246-253 | The minimum buffer, two slots of bytes: one push makes it full with no room. The next pop returns that byte and leaves it empty. |
| FifoScenarios.FiveSlotBuffer | host/gr-kcsa-ks1q/lib/util/fifobuf.c:149-211 | Five byte slots. Push A, B, C, D and it is full. A pop returns A and leaves room for one. Pushing E fills it again. Four pops then give B, C, D, E and leave it empty. |
| FifoScenarios.WrappingRun | host/gr-kcsa-ks1q/lib/util/fifobuf.c:159-164 | Five q15 slots: push three, pop two, push three more. `tail` wraps behind `head` and the buffer is full. The values come out in push order. |

## Left out

- `fifo_pushblock` is not modelled. It sits under `#if 0`, is marked
  untested, and relies on `memcpy` and a polling `Delay` loop.
- The concurrency notes are not modelled. They say when `fifo_isempty`,
  `fifo_isfull`, `fifo_push` and `fifo_pop` are safe against an interrupt
  context, and the answer depends on whether the CPU updates a pointer
  atomically. The model is single-threaded.
- The `__MWERKS__` `#pragma interrupt called` lines and the commented-out
  `ASSERT_VALID_FIFO` are compiler and debug plumbing. `Valid` plays the
  role of the descriptor check, and every operation requires it.
- Undefined behaviour is not modelled as behaviour. Pushing onto a full
  buffer or popping from an empty one is undefined in the source. It is a
  precondition of `Push` and `Pop`. `Run` reports such a call as
  `Undefined` and does not continue.
- Raw pointers are modelled as integer positions. In C, `head - 1` with
  `head == begin` forms a pointer before the array. Here it is the integer
  `begin - 1`, which never equals `tail`.
- The C functions update the descriptor in place. The model returns a new
  descriptor value instead, and the caller-owned array is part of that
  value.
- Fixed-width integers are not modelled. `size`, `fifo_room` and
  `fifo_len` are `uint32_t` in C. Under `Valid` the room and the length lie
  in `0..size-1`, so no wrap-around can occur. `Init` does not bound `size`
  by 2^32.
- `fifobuf.h` is not part of this model. It declares the `FIFOBuffer` and
  `FIFOBuffer_q15` structs, which `Fifo<T>` stands for. It also provides the
  interrupt-locked wrappers `fifo_isempty_locked` and `fifo_push_locked`
  that fifobuf.c:79 and :147 refer to. Those wrappers fall under the
  concurrency item above.
