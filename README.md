# serisnif in Dafny

serisnif listens to one or two serial devices ("left" and "right"). It cuts the
incoming byte stream into frames by silence: chunks that arrive within the
inter-frame timeout of each other belong to the same frame. It prints each
frame with its arrival time, stream offsets and a hex dump, and it can append
one line per frame to a log file through a queue that respects the file
stream's backpressure.

This project models the three parts of `src/serisnif.js` that hold logic:

- **Frame assembler** (`assembler.dfy`, module `Assembler`). `SerialListener` is a
  class with the fields `chunk` (the pending frame, `None` when Idle), `offset`
  and `timerArmed`. `OnData` is the serial port's `'data'` callback: it clears
  the timer, opens or extends the pending frame, and re-arms the timer. `OnTimer`
  is the timer callback: it advances the offset, emits the frame and returns to
  Idle. Ghost fields record the callbacks run (`trace`) and the frames emitted
  (`emitted`). The object invariant `Valid()` ties every field to `Segment(trace)`,
  a reference grouping of the trace that only says which chunks belong together
  and when each group started. The lemmas then show what the emitted frames are:
  - offsets start at 0 and are contiguous;
  - each frame's payload is its group's chunks concatenated in arrival order;
  - emitted and pending bytes together are exactly the bytes received.
  `TwoBursts` and `EmptyChunkOpensFrame` are client methods showing two bursts
  becoming frames at offsets 0 and 3, and an empty chunk becoming an empty frame.
- **Queued log writer** (`logger.dfy`, module `Logger`). `QueuedLogger` is the
  state that `makeLogger` closes over: `queue`, `buffWaiting`, and the file
  stream. The event loop is made explicit:
  - `ticks` counts scheduled `process.nextTick(write)` callbacks;
  - `drainListeners` counts pending `once('drain', write)` registrations;
  - `RunTick` and `EmitDrain` are the environment running those callbacks.
  `LogStream.Write` appends the line to the file and answers "accepted" or
  "full" as it pleases. `Valid()` states the properties:
  - everything logged is either in the file or still queued, in order;
  - at most one pass or drain listener is pending;
  - queued lines without `buffWaiting` always have a pass pending.
- **Rendering** (`render.dfy`, `hex.dfy`, `decimal.dfy`). These cover:
  - the stream name;
  - the console header `<timestamp> <name> len N from a to b`;
  - the log line `<timestamp> <name> <hex>\n`;
  - `Buffer.toString('hex')`;
  - JavaScript's decimal rendering of integers.
  The header, the log line, the hex text and the decimal numbers each have a
  parser as their partner, and the round trips are proved. The stream name
  has no parser; its contract fixes the result for every input.

The writer can get stuck, as the code is written. Suppose the stream refuses
the last queued line. `write` then sets `buffWaiting` and registers for
`'drain'`. When `'drain'` comes, `write` finds the queue empty and runs no loop
iteration, so `buffWaiting` stays set. From then on, every call of the logging
function returns early at `src/serisnif.js:79`, and nothing is ever scheduled
again. The model keeps this behaviour:
- `EmitDrain` ensures `Stuck()` when the queue was empty;
- `Log` keeps `Stuck()`, and while stuck neither callback can run;
- `DrainOnEmptyQueue` walks through the scenario.

The model follows the code in these behaviours:
- A zero-length chunk is not ignored. When Idle, it opens a pending frame and
  arms the timer, so an empty frame can be emitted.
- A frame's time is the arrival time of its first chunk
  (`src/serisnif.js:35`), not the time the frame closed.
- The header's last offset is `offset + len - 1`, which is `offset - 1` for an
  empty frame. `IntToString` renders that value, including `-1`.
- No file rotation exists in the code.
- The log writer is not guaranteed to deliver every line: see the stuck state
  above.

## Model

| member | source | states |
|---|---|---|
| Assembler.StreamName | src/serisnif.js:20 | the name starts with the device; an alias follows after one space exactly when one was given and is non-empty (JavaScript truthiness) |
| Assembler.SerialListener.constructor | src/serisnif.js:20-23 | a new listener is Idle: no pending frame, no timer, offset 0, nothing emitted; its name is `StreamName(device, alias)` |
| Assembler.SerialListener.OnData | src/serisnif.js:31-42 | a chunk never emits and never moves the offset, and leaves exactly one timer armed; when Idle it opens a frame stamped with the chunk's time and the current offset; otherwise it appends the bytes and keeps the frame's time and offset; the listener stays consistent with the reference grouping |
| Assembler.SerialListener.OnTimer | src/serisnif.js:42-46 | an expiry (only possible while a timer is armed) emits the pending frame exactly once, advances the offset by its length, and returns to Idle with no timer armed |
| Assembler.FrameOfGroup | src/serisnif.js:33-43 | frame i carries the first-chunk time of group i, starts at the total length of the earlier groups, and holds group i's chunks concatenated in order |
| Assembler.FramesContiguous | src/serisnif.js:36-43 | the first frame starts at offset 0 and each later frame starts where the previous one ends |
| Assembler.FramesPayloads | src/serisnif.js:40-44 | the frames' payloads, concatenated, are exactly the bytes of the groups |
| Assembler.FrameOffsetIsPriorLength | src/serisnif.js:36-43 | each frame's offset is the total length of all earlier frames |
| Assembler.SegmentKeepsEveryByte | src/serisnif.js:31-46 | the closed groups followed by the pending group hold exactly the bytes received, in arrival order, with none dropped or duplicated |
| Assembler.ListenerOutput | src/serisnif.js:21-46 | for any listener: emitted offsets are contiguous from 0; emitted payloads plus the pending one are exactly the bytes received; the offset is the total emitted length |
| Hex.Encode | src/serisnif.js:147 | the hex text has two lower-case hex digits per byte |
| Hex.DecodeEncode | src/serisnif.js:147 | decoding the hex text of a payload gives the payload back |
| Hex.EncodeDecode | src/serisnif.js:147 | the decoder accepts only texts the encoder produces: what it decodes re-encodes to the same text |
| Hex.HexIsBijective | src/serisnif.js:147 | a text decodes to a payload exactly when it is that payload's hex text |
| Decimal.NatToString | src/serisnif.js:142-143 | a count renders as a non-empty string of digits with no leading zero |
| Decimal.IntToString | src/serisnif.js:143 | an offset renders as non-empty text without spaces, starting with `-` exactly when it is negative and with no zero right after the `-` |
| Decimal.NatToStringValue | src/serisnif.js:142-143 | the digits of a count read back as the count |
| Decimal.IntToStringRoundTrip | src/serisnif.js:142-143 | the text of any integer, including the negative last offset of an empty frame at 0, parses back to that integer |
| Render.Header | src/serisnif.js:141-143 | the console header starts with the timestamp, a space, the name and ` len `; its three numbers are fixed by `HeaderRoundTrip` |
| Render.HeaderRoundTrip | src/serisnif.js:141-143 | the console header gives back the timestamp and name, the length, the first offset `offset` and the last offset `offset + len - 1` of the frame |
| Render.HeadersAdjoin | src/serisnif.js:141-143 | for any contiguous frames, even a single one, the first header range starts at 0 and each later range starts one past the previous one's last offset |
| Render.LogLine | src/serisnif.js:145-147 | a log line is newline-terminated and its length is the timestamp's, the name's, twice the payload's, plus three |
| Render.LogLineRoundTrip | src/serisnif.js:145-147 | for a timestamp without spaces, a log line gives back its timestamp, its name (spaces included) and exactly the payload bytes |
| Logger.LogStream.Write | src/serisnif.js:63 | the stream appends the line to the file whatever it answers |
| Logger.QueuedLogger.constructor | src/serisnif.js:55-58 | a new logger has an empty queue and a fresh empty file, with no pass, drain listener or `buffWaiting` |
| Logger.QueuedLogger.Log | src/serisnif.js:77-81 | the line joins the tail of the queue; a pass is scheduled exactly when the queue was empty and no drain was awaited; nothing else changes, so a stuck logger stays stuck |
| Logger.QueuedLogger.WritePass | src/serisnif.js:60-70 | lines leave the queue from the head only as they are handed to the stream, in order, each once; the pass stops only on an empty queue or a refusal, which sets `buffWaiting` and registers one drain listener; a pass over an empty queue leaves `buffWaiting` as it was |
| Logger.QueuedLogger.RunTick | src/serisnif.js:80 | the scheduled pass hands at least one line to the stream in FIFO order and ends with an empty queue or a pending drain listener; `buffWaiting` is left set exactly when a drain listener is registered, so a tick never leaves the logger stuck |
| Logger.QueuedLogger.EmitDrain | src/serisnif.js:64 | the drain listener resumes the pass in FIFO order and, when lines were queued, hands at least one of them to the stream; the logger is left stuck, with `buffWaiting` set and nothing pending, when the queue was empty; when lines were queued, `buffWaiting` is left set exactly when a new drain listener is registered, so it is not stuck |

## Left out

- Opening the serial port, its error report and `process.exit()` (src/serisnif.js:15-30): device I/O and process termination.
- `fs.createWriteStream` and the stream's `'error'` handler that exits (src/serisnif.js:56, 72-75): file I/O. The file is a ghost sequence of lines.
- Logger.LogStream.Write: whether the stream has room is left open (any answer is allowed). Node's buffer accounting is not part of this model.
- Logger.QueuedLogger.EmitDrain: may run whenever a drain listener is registered. Node emits `'drain'` only once the stream's buffer has emptied, which is not modelled.
- Real time: `setTimeout`, `clearTimeout`, `process.nextTick` and `once('drain')` become explicit flags and counters that the environment methods consume. The length of the timeout plays no part, since the model only sees whether the timer fired before the next chunk.
- `new Date()` is a `Time` value passed to `OnData`. The `moment` formatting of it (src/serisnif.js:140) is an opaque timestamp string, assumed free of spaces by `LogLineRoundTrip` as its format is.
- The `buffer-hexdump` dump and the `console.log` output (src/serisnif.js:141-144): library output and I/O. Only the header text is modelled.
- The yargs options and the `[left, right].forEach` wiring (src/serisnif.js:84-150): configuration glue. The two listeners share no state (`OnData` and `OnTimer` modify only their own object), so one listener is modelled.
- The pending record is a value. The source updates its `data` field in place and hands the same object to the `'data'` listeners. The listener drops it on emission, so no later change is visible.
- JavaScript Numbers are exact integers only up to 2^53. Offsets and lengths are unbounded here.
- src/test.js, the traffic generator (random bytes, serial writes, delays): I/O with no state to model.
- File-size rotation: no code for it exists in the repository.
