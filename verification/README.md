# P1 smart-meter reader: telegram reassembly and dispatch

This project models the core of `node-p1-reader`, a Node.js module that reads a
Dutch smart meter's P1 port. The serial line reader delivers the meter's output
line by line. For every line, a callback in `_setupSerialConnection` does the
following:

- it appends the line and a CRLF to a receive buffer;
- it looks for the first start marker (`/` in the meter protocol) and the first
  stop marker (`!`);
- it drops stale data that ends in a stop marker;
- once a telegram and its four hex-digit checksum trailer are complete, it cuts
  the telegram out;
- it checks the checksum if configured to;
- on the first telegram with a timestamp it pins the serial port;
- it emits `connected`, `reading-raw`, `reading` and `error` events.

The callback is modelled as a pure step function. It takes a session (the buffer
`received` and the pinned port `serialPortUsed`) and one line. It returns the
next session and the events emitted, in order. `Run` folds the step over a
sequence of lines.

Modules, leaves first:

- `Wrappers`: `Option`. `None` stands for JavaScript's `false`, `null` or `NaN`.
- `JsString`: `indexOf` for one character (`IndexOf`), the first-occurrence
  predicate `FirstAt`, and the suffix relation `IsSuffix`.
- `JsParseInt`: `parseInt(text, 16)`, following section 19.2.5 of the
  ECMAScript language specification. It skips leading white space and line
  terminators, reads an optional sign, drops an optional `0x`/`0X`, and then
  reads the longest run of hex digits. It gives `None` (`NaN`) when that run is
  empty. `Hex4` writes a 16-bit checksum the way the meter does.
- `Reassembler`: one scan of the buffer (`Scan`), main.js lines 81-95. It
  returns `Waiting`, `Discarded` or `Extracted`.
- `P1Reader`: the session, the events, the checksum gate and pinning
  (`Dispatch`, lines 97-128), the whole callback (`Step`, lines 78-129) and
  `Run`.
- `Properties`: lemmas about one line and about any sequence of lines.

The things the callback reads but never changes are fields of `Env`:

- the two marker characters from the configuration file;
- the `crcCheckRequired` option;
- the port the callback was set up for;
- the checksum validator `checkCrc` and the decoder `parsePacket`, which are
  function-valued parameters.

`checkCrc` receives the trailer value as `Option<int>`, with `None` for `NaN`.
The decoded packet's timestamp is an `Option`, with `None` for `null`.

Details of the callback's behaviour:

- At most one frame is extracted per line. The callback scans the buffer once
  and does not loop over it. After a discard, both indices are reset to -1
  (main.js:86-87), so nothing is extracted in that call either.
- Stale data is discarded only when the first stop marker precedes a start
  marker that exists (`endCharPos < startCharPos`). A stop marker with no start
  marker anywhere in the buffer is kept.
- The checksum input is the frame with a literal `!` appended (main.js:99). The
  configured stop character is not used there.
- `!serialPortUsed` uses JavaScript truthiness (`IsPinned`). A port pinned
  under the empty name `""` still counts as unpinned, so a second `connected`
  would follow.
- `_tryNextSerialPort` is called at main.js:113 but is not defined in main.js.
  The model records the call as a `TryNextPort` event and assumes that the call
  returns. The handling of that frame then goes on as written.

## Model

| member | source | states |
|---|---|---|
| JsString.IndexOf | main.js:81-82 | the result is -1 exactly when the character is absent; otherwise it is the position of its first occurrence |
| JsParseInt.ParseIntHex | main.js:94 | a non-empty all-hex trailer parses to its hex value; any parsed value of an n-character text has magnitude below 16^n |
| JsParseInt.Trailer16Bit | main.js:94 | a 4-hex-digit trailer parses to its hex value, which is below 65536 |
| JsParseInt.Hex4RoundTrip | main.js:94 | a 16-bit checksum written as four upper-case hex digits parses back to itself |
| Reassembler.Scan | main.js:81-95 | a discard cuts just after the first stop marker; an extraction's frame runs from the first start marker up to the first stop marker, its trailer is the next 4 characters, and the rest follows the trailer |
| Reassembler.ScanDecision | main.js:84-92 | it discards iff a start marker exists and every start marker has a stop marker before it; it extracts iff a start marker exists, the data is not stale and some stop marker has 4 characters after it; otherwise it waits |
| Reassembler.ScanExtractsAt | main.js:91-95 | when a frame is ready, the cut happens exactly at the first start and first stop positions, with a 4-character trailer |
| Reassembler.ScanFrameShape | main.js:93 | with distinct markers, an extracted frame begins with the start marker and contains no stop marker |
| Reassembler.FrameRoundTrip | main.js:91-95 | G + F + stop + T + R, with G free of markers, F starting with the start marker and free of stop markers, and T of length 4, scans to frame F, trailer T and remainder R |
| P1Reader.Dispatch | main.js:97-128 | a checksum failure gives exactly one "Invalid CRC" error and keeps the pin; an accepted frame gives an optional pin event, then reading-raw of the frame, then reading (timestamp present) or "Invalid reading" (absent); connected is emitted iff the frame passes, the port is unpinned and the timestamp is present; an unpinned port's first event is connected (and the port gets pinned) with a timestamp and the failover request without one |
| P1Reader.Step | main.js:78-129 | the new buffer is a suffix of old buffer + line + CRLF; a pinned port is kept; the pin only ever becomes this callback's port; at most 3 events come from one line |
| Properties.StepRetains | main.js:79-92 | with no stale stop marker and no complete frame, the buffer becomes exactly old + line + CRLF and nothing is emitted |
| Properties.StepDiscards | main.js:84-88 | stale data: the buffer becomes the text after the first stop marker, is strictly shorter, and no event is emitted |
| Properties.StepExtracts | main.js:91-95 | a complete frame is buffer[start..stop), the trailer is buffer[stop+1..stop+5), and the buffer becomes buffer[stop+5..], strictly shorter; frame and trailer value go to the gate |
| Properties.StepFrameShape | main.js:93 | with distinct markers every reading-raw frame starts with the start marker and holds no stop marker |
| Properties.DispatchWellOrdered | main.js:106-125 | for one frame, reading-raw is followed at once by that frame's decoded reading (timestamp present) or "Invalid reading" (absent); every reading or "Invalid reading" comes right after the reading-raw it decodes; connected is followed by reading-raw and reading, the failover request by reading-raw and "Invalid reading" |
| Properties.RunWellOrdered | main.js:78-129 | the same order holds, both ways, for the whole event stream over any sequence of lines |
| Properties.RunKeepsPin | main.js:106-110 | once a port is pinned, no later line changes it |
| Properties.DispatchConnectedIffPinned | main.js:106-111 | handling a frame emits one connected event if it pins the port and none otherwise |
| Properties.StepConnectedIffPinned | main.js:106-111 | a line emits one connected event if it pins the port and none otherwise |
| Properties.RunConnectedOnce | main.js:106-111 | over any lines, connected is emitted once if the pin changed and never otherwise; never when the session started pinned |
| Properties.ConnectedAtMostOnceFromStart | main.js:106-111 | from the start-up state (serialPortUsed = false, line 5; empty buffer, line 76), connected is emitted at most once |
| Properties.RunBufferSuffix | main.js:79-95 | over any lines the buffer is always a suffix of its start plus every delivered line with its CRLF |
| Properties.RunAccumulates | main.js:79-92 | from a buffer holding no stop marker, lines without a stop marker only accumulate: buffer = old + each line + CRLF, and no events |
| Properties.TelegramAcrossLines | main.js:78-95 | from a buffer with no stop marker, and with no marker before the telegram's start marker, a telegram spread over several lines is extracted once, by the line holding the stop marker; the frame runs from the first start marker to the stop marker, with the CRLFs of the lines it spans, and the trailer and remainder exact |
| Properties.TelegramAcrossLinesHex | main.js:91-99 | the same, with an all-hex trailer reaching the checksum validator as its value below 65536 |

## Left out

- The constructor (main.js:16-55) is left out: option handling, the emulator, serial port listing and `availablePorts`. It is I/O against a library that is not part of this model. Its only effect on the core is the `crcCheckRequired` flag and the port, both fields of `Env`.
- `getSerialPort` (main.js:62-64) has no member of its own: it returns the session's `serialPortUsed` field.
- `lineReader.eachLine` is left out: how bytes become lines, and its `last` argument, which the callback ignores. The model takes lines that are already split.
- `checkCrc` and `parsePacket` are parameters of `Env`. Their sources are not part of this model, so no CRC-16 is computed here.
- `_tryNextSerialPort` is not defined in main.js. Its call is recorded as a `TryNextPort` event, and the port failover, timer and timeout race it belongs to are left out.
- `EventEmitter` is replaced by the returned event sequence. Node's rule that an `error` emitted with no listener throws is left out.
- Debug logging and `debug.writeToLogFile` are left out: they produce no output the core depends on.
- Strings are sequences of Unicode scalar values, not UTF-16 code units. The meter sends ASCII, where the two agree.
- `parseInt` results are mathematical integers. JavaScript's `-0` for a trailer such as `-000` becomes `0`.
- Properties.DispatchConnectedIffPinned: assumes the port name is non-empty. With the empty name, a session pinned to `""` is still falsy, so a passing telegram with a timestamp emits `connected` again while the pin stays the same (main.js:106-111).
- Properties.StepConnectedIffPinned: assumes a non-empty port name, for the same reason.
- Properties.RunConnectedOnce: assumes the port name is non-empty. An empty name is falsy in JavaScript, so pinning it leaves the session unpinned and a later telegram emits `connected` again. The constructor never uses an empty explicit port (main.js:37).
- Properties.ConnectedAtMostOnceFromStart: assumes a non-empty port name, for the same reason.
- Properties.StepFrameShape: assumes distinct start and stop characters. With equal characters the code extracts an empty frame.
