# Keyboard-layout notification watcher: protocol core

The watcher subscribes to the compositor's event stream on a local socket.
It reads newline-delimited JSON messages and sends a desktop notification
"Layout Changed" whenever the active keyboard layout changes. This project
models and proves the two pieces of `main.c` that carry the logic:

- **The protocol state machine** (`process_line`). A session has three phases:
  - `Waiting`: the acknowledgement `{"Ok": …}` is expected.
  - `LayoutInit`: the `KeyboardLayoutsChanged` snapshot is expected. It fills
    the layout table once and sets the current index.
  - `Receiving`: `KeyboardLayoutSwitched` events are handled. Each one moves
    the current index and sends one notification, but only when its index is
    in range and differs from the current one.

  Any line that does not parse, or lacks the key the current phase expects,
  is ignored. It is modelled in `protocol.dfy`, module `Protocol`.
  - `Step` and `Run` are the specification of one line and of a session.
  - The class `ProgramState` holds the fields of `program_state_t`: the
    phase, the `layouts` array with its fill count `n`, and `current_idx`.
    It adds a log of the notification bodies sent.
  - `ProgramState.ProcessLine` is proved to do exactly what `Step` says.
- **The line reassembler** (the byte loop of `read_socket`). Bytes of every
  `read` chunk are appended one at a time to a growable buffer. The capacity
  doubles when `len + 1` reaches it. On a newline, the bytes before it go to
  the state machine as one line, and `len` returns to 0 while the capacity
  is kept. It is modelled in `reader.dfy`, module `Reader`.
  - The class `LineBuffer` works over an `array`.
  - `ReadSocket` runs the nested loops over a sequence of chunks.
  - Two independent specifications are proved equal: `Scan` (the byte loop
    as a left fold) and `Split` (the stream cut at its newlines).
  - Hence the lines delivered depend only on the concatenation of the
    chunks. The unterminated tail is never processed.

The JSON parser is represented by the decoded-message datatype
`Protocol.Message`. `ReadSocket` takes it as a function parameter `decode`.
A notification is represented by appending its body to `ProgramState.sent`.

In these places the model follows the code where a reader might expect
otherwise:

- The snapshot's `current_idx` is copied without a bounds check
  (main.c:108-110). So `0 <= currentIdx < |layouts|` is not an invariant of
  the model. `Protocol.Consistent` promises it only once a notification has
  been sent.
- If the snapshot has no numeric `current_idx`, the current index stays at
  its initial 0. A first switch to index 0 is then not notified.
- The resize in the read loop is modelled as it is evidently intended:
  grow and keep the bytes. It is not modelled as written, which drops the
  `realloc` result (see "## Findings").

## Model

| member | source | states |
|---|---|---|
| `Protocol.ProgramState.constructor` | main.c:159-162 | The state starts zero-initialised, in phase `Waiting`, with an empty table, index 0 and nothing sent. |
| `Protocol.ProgramState.ProcessLine` | main.c:81-156 | One decoded line changes the phase, the filled table `layouts[..n]`, the current index and the notification log exactly as `Step` says. `n` never exceeds the allocated table length, and it is 0 before the snapshot. The snapshot loop copies each string entry into `layouts[n]` and increments `n`. |
| `Protocol.StringNames` | main.c:111-129 | The table built from the snapshot never has more entries than the `names` array that sized the allocation. |
| `Protocol.StringNamesAppend` | main.c:119-129 | The table keeps the arrival order: the table of `a + b` is the table of `a` followed by the table of `b`. |
| `Protocol.StringNamesMembership` | main.c:119-129 | A name is in the table if and only if it is a string entry of `names`. Non-strings are skipped. |
| `Protocol.StringNamesAllText` | main.c:119-129 | When every entry of `names` is a string, the table equals `names` entry for entry. |
| `Protocol.StepInWaiting` | main.c:83-96 | While waiting, the phase moves to `LayoutInit` if and only if the line parses and has key `Ok`. Nothing else changes. Any other line, including an unparsable one, changes nothing. |
| `Protocol.StepInLayoutInit` | main.c:97-131 | While waiting for the snapshot, the phase moves to `Receiving` if and only if the line has key `KeyboardLayoutsChanged`. The table becomes the string names when `names` is an array. The index is taken only when `current_idx` is numeric. Nothing is sent. Any other line changes nothing. |
| `Protocol.StepInReceiving` | main.c:133-148 | While receiving, the phase and the table never change. A notification is sent if and only if the line is a switch to a numeric `idx` with `0 <= idx < n` and `idx != current_idx`. Exactly one is then sent, the name at `idx`, and `idx` becomes current. Every other line changes nothing. |
| `Protocol.StepPhaseForward` | main.c:88-152 | The phase never goes back, and one line advances it by at most one phase. |
| `Protocol.StepTwiceReceiving` | main.c:139-145 | While receiving, the same line twice acts as once. A repeated switch event does not notify again. |
| `Protocol.StepKeepsConsistent` | main.c:88-152 | One line preserves `Consistent`: an empty table, index 0 and no notification before the snapshot; every notification names a table entry; the latest one names the current layout. |
| `Protocol.RunConsistent` | main.c:88-152 | Every session from the initial state is `Consistent`. |
| `Protocol.RunKeepsTable` | main.c:133-148 | Once receiving, a session stays receiving and its table is never changed again. The table is filled exactly once. |
| `Protocol.RunPhaseForward` | main.c:88-152 | Over any sequence of lines the phase never goes back. |
| `Protocol.RunLogGrows` | main.c:142-145 | Notifications are only appended, never changed or removed, and each line adds at most one. |
| `Protocol.RunRepeated` | main.c:142-145 | While receiving, a line delivered k >= 1 times in a row acts as once, so it notifies at most once. |
| `Protocol.ExampleSession` | main.c:81-156 | Take an unparsable line, then `Ok`, a snapshot `["us","de","fr"]` with index 1, the switch to 2 twice, and a switch to 99. The table ends as `["us","de","fr"]`, the index as 2, and exactly one notification, "fr", is sent. |
| `Reader.LineBuffer.constructor` | main.c:164-169 | The buffer starts with capacity 4096 and no pending bytes. |
| `Reader.LineBuffer.Grow` | main.c:176-184 | Growth doubles the capacity and keeps every pending byte. This is the intended behaviour of the resize. |
| `Reader.LineBuffer.Append` | main.c:175-185 | The capacity doubles exactly when `len + 1 >= capacity`. The byte is appended to the pending bytes. Afterwards `len < capacity`. |
| `Reader.LineBuffer.TakeLine` | main.c:188-192 | The newline is overwritten with a NUL terminator in place. The line is the pending bytes without their newline. `len` returns to 0 and the capacity is kept. |
| `Reader.FeedByte` | main.c:185-192 | One byte advances the buffer and the delivered lines as `Push` says. A newline hands its line to `ProcessLine`, and the program state follows the delivered lines. |
| `Reader.ReadChunk` | main.c:174-193 | One chunk advances the buffer and the delivered lines as `Scan` says. The state carried over from earlier chunks is kept. |
| `Reader.ReadSocket` | main.c:158-195 | Lines are delivered exactly once each, in order, without their newline, and they are the lines of the whole concatenated stream. The leftover is the unterminated tail, which is never processed. The program state is the initial state run over the decoded lines. |
| `Reader.ScanAppend` | main.c:173-194 | Pushing `a + b` equals pushing `a` and then `b` from the state reached. Carrying the pending bytes across a read makes the read boundary invisible. |
| `Reader.ScanChunksIsScan` | main.c:173-194 | Processing chunk after chunk, with the buffer kept between reads, equals processing their concatenation at once. |
| `Reader.ChunkBoundariesInvisible` | main.c:173-194 | Two chunkings with the same concatenation deliver the same lines and leave the same tail. |
| `Reader.ScanIsSplit` | main.c:185-192 | The byte loop, started empty, yields exactly the stream cut at its newlines. |
| `Reader.SplitRoundTrip` | main.c:185-192 | No line and no tail contains a newline. Putting a newline after each line and appending the tail gives back the stream. |
| `Reader.SplitUnique` | main.c:185-192 | Conversely, the cut at newlines is the only way to write a stream as newline-free lines, each followed by a newline, plus a newline-free tail. |
| `Reader.FillAsWrittenShort` | main.c:176-185 | As written, a line of up to 4095 bytes is still held by the buffer. |
| `Reader.FillAsWrittenLong` | main.c:176-185 | As written, from the 4096th byte of a line on, the buffer no longer holds the line's bytes. |

## Left out

- JSON parsing (cJSON) is not modelled. Lines are decoded by the `decode` parameter into `Protocol.Message`, which records only the keys the code looks up.
- Reading the numeric fields through `valueint` is not modelled. Indices are unbounded integers, so the conversion from a JSON double (truncation, saturation to the `int` range) and the 32-bit `int` width are left out.
- The decoder receives all the bytes before the newline. The code passes a NUL-terminated string, so the parser stops at an embedded NUL byte. That truncation is taken to be part of `decode`.
- `send_notification` is a D-Bus call to the desktop notification service and is not modelled. It is represented only by appending the body to `sent`. Its delivery failures are only logged and do not affect the state.
- Socket creation, the `NIRI_SOCKET` lookup, the initial `"EventStream"` command, exit codes and the logging macros are I/O and are not modelled.
- The blocking `read` is not modelled. The input is a finite sequence of chunks of any size, including sizes above 4096.
- A `read` error is not modelled separately: the code ends the loop on it just as on end of stream, and `read_socket` still returns 0 (main.c:173, 195). The finite chunk sequence stands for both.
- Allocation failures are not modelled. These are `malloc` of the line buffer, `realloc`, `calloc` of the table (after which the phase is already `Receiving` with `n = 0`) and `strdup` (after which the table is only partly filled). The final `free` cleanup is not modelled either.
- The `default: Unknown state` branch is not modelled. It cannot be reached because the phase is a three-valued datatype.
- Overflow of the `size_t` capacity when it doubles is not modelled. Capacities are unbounded.

## Findings

| source | as written | input that shows it | evidently intended | confidence | as-written member | corrected member |
|---|---|---|---|---|---|---|
| main.c:179-183 | The result of `realloc(lb.buf, lb.capacity)` is discarded. `lb.buf` is then set to `new_buf`, an uninitialised local, so the next write and the later `process_line` go through an indeterminate pointer. | A line of 4095 bytes followed by its `'\n'`: appending the 4096th byte triggers the resize. | `lb.buf = realloc(lb.buf, lb.capacity)`, with a NULL check that keeps the old block, so the bytes already read are kept. | high; not executed | `Reader.FillAsWrittenLong` | `Reader.LineBuffer.Append` |
