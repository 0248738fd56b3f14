# stumble-term: log buffer, frame-time history and key handling

stumble-term is a desktop window that shows the lines it reads from standard
input and, on demand, a frame-time overlay. Almost all of its logic is inline
in `main` in `src/main.rs`. This project models the three pieces of that code
that keep state, and proves the facts the Rust code relies on without checking
them:

- **The log buffer** (module `InputLog`). It holds the accumulated text as
  bytes, because Rust's `String::len` counts bytes. It also holds the index of
  line starts, which begins as `[0]`. An accepted (non-empty) line does three
  things: it pushes the current text length as a new start; above 200 starts
  it drops the 10 oldest; and it appends `'>'` and the line to the text. The
  redraw picks the start of the 60th most recent line (the first line while
  fewer than 60 are held) and slices the text from there.
  - `Receive` is imperative, with the `for _ in 1..=10 { remove(0) }` loop.
    It is proved against the pure function `Step`.
  - The proofs show the index is never empty, never holds more than 200
    entries, and is sorted. Every entry lies within the text and, unless it
    is the end of the text, points at the `'>'` that opens a line. Only the
    initial `[0]` over the empty text is such an end; once any line has been
    accepted, every entry points at a `'>'`.
  - So the two indexings in `draw_stuff` cannot panic, `len() - 60` cannot
    underflow, and `text.get(start..)` cannot fail. The start is in range and
    sits on a UTF-8 character boundary. Either it is the end of the text, or
    it points at `'>'`, which is an ASCII byte.
    Panics are modelled as `None`.
- **`PerfGraph`** (module `Perf`). This is a class over an array with a cursor
  `head`. The element type is generic in place of `f32`. `Update` moves the
  cursor one slot round the ring and overwrites only that slot. After 100
  updates the cursor is back where it started. The render walk
  `(head + i) % history_count` visits every slot exactly once. As written, the
  walk starts at the cursor, which is the newest value, and then goes from the
  oldest value to the second newest.
- **Key and close handling** (module `Events`). This is a pure transition on
  an abstract event type:
  - F3 pressed flips the overlay flag.
  - Q pressed, or a close request, yields `Exit`.
  - Every other event yields the `Poll` that the handler writes first, and
    leaves the flag as it was.
- **The closure state** (module `EventLoop`). Class `App` holds the overlay
  flag, the history and the log. `HandleEvent` is one call of the
  `el.run` closure, and it ties the three pieces above together. The clock and
  the input channel are parameters of `HandleEvent`: the measured frame time,
  and what one `try_recv` returned.

The reader thread sends an empty string each time `read_line` returns
`Ok(0)`, which happens at end of input. The `line.len() > 0` guard is what
keeps those empty strings out of the log. `Step` models that guard.

## Model

| member | source | states |
|---|---|---|
| `InputLog.LogBuffer.constructor` | src/main.rs:78-79 | the log starts with no text and the index `[0]` |
| `InputLog.InitialWellformed` | src/main.rs:78-79 | the initial log satisfies the invariant: the index is non-empty, at most 200 long and sorted, and its one entry 0 is within the (empty) text |
| `InputLog.Trim` | src/main.rs:144-148 | the trimmed index is no longer than the pushed one and is a suffix of it; `TrimKeepsNewest` states how much is dropped |
| `InputLog.Step` | src/main.rs:141-155 | the text only grows, with the old text as a prefix, by `'>'` and the line for an accepted line and by nothing otherwise; `AcceptAppends`, `IgnoredLeavesLog` and `StepPreservesWellformed` state the rest |
| `InputLog.LogBuffer.Receive` | src/main.rs:141-155 | the receive block, loop included, produces exactly `Step` of the old log; an accepted line appends `'>'` and the line, and pushes the old text length (then drops the first 10 entries if that push made 201); anything else changes nothing; the invariant is kept |
| `InputLog.TrimKeepsNewest` | src/main.rs:144-148 | a trim removes exactly the 10 oldest entries, and only above 200; the rest is a suffix in its original order |
| `InputLog.AcceptAppends` | src/main.rs:142-151 | after an accepted line the old text is a prefix, the new bytes are `'>'` and the line, the newest start equals the old text length and points at `'>'`, and the index grows by one or drops from 200 to 191 |
| `InputLog.IgnoredLeavesLog` | src/main.rs:141-155 | an empty line or an empty or closed channel leaves text and index unchanged |
| `InputLog.StepPreservesWellformed` | src/main.rs:143-151 | one receive keeps the index non-empty, at most 200 long and sorted, with each entry within the text and, unless it is the end of the text, at a `'>'` |
| `InputLog.AcceptOpensEveryLine` | src/main.rs:143-151 | after an accepted line every entry of the index lies strictly inside the text, on a `'>'` |
| `InputLog.RunPreservesWellformed` | src/main.rs:141-155 | the invariant holds after any sequence of receives |
| `InputLog.Index` | src/main.rs:182-186 | indexing the line starts succeeds exactly for an index in range, and yields one of the entries |
| `InputLog.IsCharBoundary` | src/main.rs:187 | the boundary test that `str::get` applies: a boundary never lies past the end of the text, and every offset of an ASCII byte is one |
| `InputLog.SliceFrom` | src/main.rs:187 | `text.get(start..)` succeeds exactly when `start` is within the text and on a character boundary, and returns the tail from `start` |
| `InputLog.DisplayStart` | src/main.rs:182-186 | the start selection succeeds exactly on a non-empty index and picks one of its entries; `DisplayStartIsRecentMinimum` says which |
| `InputLog.Displayed` | src/main.rs:182-187 | a successful selection and slice yields a suffix of the text; `DisplayNeverFails` shows it always succeeds on a well-formed log |
| `InputLog.DisplayStartIsRecentMinimum` | src/main.rs:180-186 | on a sorted index, the chosen start exists exactly when the index is non-empty, is one of the last min(60, len) starts, and is at most every one of them |
| `InputLog.DisplayNeverFails` | src/main.rs:180-187 | on a well-formed log neither `line_starts[..]` nor `len() - 60` nor `get(start..).unwrap()` fails; the displayed text is the tail from the chosen start, and every displayed line start lies between that start and the end of the text |
| `InputLog.LogBuffer.DisplayedText` | src/main.rs:175-187 | the text `draw_stuff` lays out is the non-failing result of the display selection, and is a suffix of the buffer |
| `Perf.Advance` | src/main.rs:213 | the cursor step stays below `history_count`; it moves by one, or from the last slot back to 0 |
| `Perf.AdvanceTimesWraps` | src/main.rs:212-215 | within one lap, k updates move the cursor k slots, wrapping at most once |
| `Perf.FullCycleRestoresHead` | src/main.rs:212-215 | `history_count` consecutive updates return the cursor to its start |
| `Perf.RenderSlot` | src/main.rs:235 | the slot read at each render step is in range |
| `Perf.RenderSlotWrapsOnce` | src/main.rs:235 | the render slot is `head + i` wrapped past the end at most once |
| `Perf.RenderWalkIsPermutation` | src/main.rs:234-235 | the render walk reads distinct slots at distinct steps, and every slot at some step |
| `Perf.Rotation` | src/main.rs:234-235 | the values in walk order have the same length and the same multiset as the history |
| `Perf.RotationAt` | src/main.rs:234-235 | entry i of the walk order is the value at slot `(head + i) % history_count` |
| `Perf.PerfGraph.constructor` | src/main.rs:204-210 | a new graph has `history_count = 100`, 100 slots all holding the zero value, and `head = 0` |
| `Perf.PerfGraph.Update` | src/main.rs:212-215 | `update` keeps `head < history_count == values.len()`, advances `head` by one modulo `history_count`, writes the argument at the new `head`, and leaves every other slot unchanged |
| `Perf.PerfGraph.RenderOrder` | src/main.rs:234-235 | the loop of `render` reads the history in rotation order from `head`: newest first, every slot once |
| `Events.Transition` | src/main.rs:93-122 | the result is `Exit` exactly for a close request or a Q press; the overlay flag flips exactly for an F3 press; any other event gives `Poll` and the old flag |
| `Events.F3TwiceRestores` | src/main.rs:112-120 | two F3 presses restore the overlay flag |
| `Events.ShownAfterCountsF3` | src/main.rs:112-120 | after any run of events, the overlay flag equals the old flag when the run holds an even number of F3 presses, and its negation when the number is odd |
| `EventLoop.App.constructor` | src/main.rs:73-79 | the closure starts with a fresh history, the overlay hidden and the initial log |
| `EventLoop.App.Redraw` | src/main.rs:123-168 | the redraw arm updates the history, receives at most one line, does not fail in the text selection, and lays out the displayed text and, when shown, the history in walk order |
| `EventLoop.App.HandleEvent` | src/main.rs:92-172 | one event: flag and control flow as `Transition` says; a redraw does what `Redraw` states, with the display selection explicitly succeeding; any other event leaves the history and the log unchanged |

## Left out

- Window, GL context and canvas creation, resize handling, font loading, and every `fill_text` and `fill_path` call. These are calls into the windowing and drawing libraries. The model stops at which text and which values would be drawn.
- The splitting of the displayed text at `'\n'` and the per-line drawing. These only feed library calls.
- The standard-input reader thread and the `mpsc` channel. These are I/O and concurrency. What one `try_recv` returns is an input of `Receive` and `HandleEvent`.
- The cache-size queries and the window title. These are hardware queries and string formatting.
- `Instant` and the `dt` computation. The frame time is an input of `HandleEvent`.
- `get_average`, the FPS and millisecond labels, the 80-FPS clamp and the graph coordinates. These are floating-point numerics. The history holds values of a generic type, `real` in `App`.
- What the event loop does after `Exit` is set, and the redraw that `MainEventsCleared` requests. Both are behaviour of the windowing library. `LoopDestroyed` returns at once and is modelled as an event that changes nothing.
- Line starts and the text length are unbounded naturals, so `usize` overflow is not modelled. It would need more than 2^64 bytes of input.
- The text only ever grows. Trimming applies to the index alone, so the bytes of dropped lines stay in memory. The model keeps that behaviour but proves nothing about memory use.
- Perf.AdvanceTimesWraps: states the cursor after k updates only for k up to one lap, not for arbitrary k modulo `history_count`. One lap is enough for the full-cycle property.
