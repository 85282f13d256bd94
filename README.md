# jac:stack GPS serial line framer

The jac:stack extension (namespace `pxt_jac_stack`) reads NMEA 0183 text from a GPS
receiver over a serial port. Its only logic is `parseBuffer`. The module-level string
`_serialBuffer` is meant to hold the received text, but main.ts:86 discards it (see
"## Findings"). `parseBuffer` discards characters until the buffer starts with the
sentence-start marker `$`. It hands `parseNMEA` the text before the first line feed,
or the whole buffer when there is none, and then cuts the buffer down.

This project models that framer as the code is written:

- `jac_stack.dfy`, module `JacStack`:
  - the class `Stack` holds the buffer as the field `serialBuffer`;
  - `Stack.ParseBuffer` runs the resync `while` loop over that field, extracts the line and reassigns the buffer;
  - `parseNMEA` has an empty body, so `Stack.ParseNmea` just records each line it is handed in the ghost log `parsed`;
  - the method is proved against the pure functions `SyncIndex`/`Resync` (the resync loop), `LineLength`/`FirstLine` (JavaScript's `split("\n")[0]`) and `Step` (one whole call);
  - lemmas state what the code promises, and also where it goes wrong.
- `intended_framer.dfy`, module `IntendedFramer`: the corrected framing that the code evidently means to do, with its properties proved (see "## Findings").

Character strings are `seq<char>`. JavaScript strings are sequences of UTF-16 code
units, and every operation here works on single units. `charAt(0)` on an empty string
yields `""`, which is never `'$'`. The model writes this as the guard `|s| > 0 && s[0] == '$'`.

## Model

| member | source | states |
|---|---|---|
| `JacStack.SyncIndex` | main.ts:89-90 | the resync loop stops at the first `'$'` or at the end of the buffer, whichever comes first; no `'$'` is ever dropped, so the loop terminates after at most as many steps as the buffer has characters |
| `JacStack.ResyncDropsPrefix` | main.ts:89-90 | the resynced buffer is a suffix of the original; it is empty or starts with `'$'`; every dropped character is not `'$'` |
| `JacStack.ResyncNoOp` | main.ts:89-90 | a buffer that already starts with `'$'` is left unchanged, so resync is idempotent |
| `JacStack.ResyncAtFirstMarker` | main.ts:89-90 | the resynced buffer begins exactly at the first `'$'` of the original |
| `JacStack.LineLength` | main.ts:94 | `split("\n")[0]` ends at the first line feed, or at the end of the text when there is none; it contains no line feed |
| `JacStack.FirstLineOfTerminated` | main.ts:94 | for text holding no line feed, followed by a line feed, `split("\n")[0]` gives back exactly that text |
| `JacStack.StepEmitsIffSynced` | main.ts:92-95 | `parseNMEA` is called (once) exactly when the resynced buffer is non-empty; when it is not called the buffer is left empty |
| `JacStack.StepDrainsWithoutMarker` | main.ts:89-93 | a buffer with no `'$'`, the empty buffer included, drains to empty and nothing is parsed |
| `JacStack.StepLine` | main.ts:93-96 | the parsed line is a non-empty prefix of the resynced buffer, starts with `'$'` and holds no line feed; it is followed by a line feed or is the whole buffer; the new buffer is the resynced buffer from index (line length - 1), an index always in range; the buffer is shorter than the resynced one by exactly line length - 1 and never grows |
| `JacStack.RunFromEmpty` | main.ts:86 | from the initial empty buffer, any number of calls leave the buffer empty and never call `parseNMEA`, whatever the serial port delivers |
| `JacStack.StuckOnBareMarker` | main.ts:96 | a buffer starting with the bare line `"$"` is left unchanged by a call, and `"$"` is parsed |
| `JacStack.RunStuckOnBareMarker` | main.ts:93-96 | from such a buffer, `n` calls parse `"$"` `n` times and never change the buffer |
| `JacStack.UnterminatedIsEmitted` | main.ts:94-96 | a sentence with no line feed is parsed all the same, and only its last character stays in the buffer |
| `JacStack.GarbagePrefixDropped` | main.ts:89-96 | leading garbage without `'$'` is dropped; the terminated sentence after it is parsed; the buffer keeps the sentence's last character, the line feed and everything after |
| `JacStack.Stack.constructor` | main.ts:13 | the buffer starts empty and nothing has been parsed |
| `JacStack.Stack.ParseNmea` | main.ts:100-101 | the line is appended to the ghost log; the buffer is not touched |
| `JacStack.Stack.ParseBuffer` | main.ts:85-98 | the new buffer and the lines logged are those of `Step` on the old buffer: at most one line logged, buffer never grows, an empty buffer stays empty; the text read from the port plays no part |
| `IntendedFramer.IntendedStep` | main.ts:85-98 | corrected call: the incoming text is appended before resync; a line is emitted only when its line feed is present; the resynced buffer is exactly the line, the line feed and the new buffer; otherwise the resynced buffer is kept whole |
| `IntendedFramer.IntendedFramesSentence` | main.ts:86-96 | corrected call: a terminated sentence just read, after `'$'`-free garbage, is emitted, and exactly the text after its line feed is kept |
| `IntendedFramer.IntendedWaitsForTerminator` | main.ts:94 | corrected call: with no line feed in the resynced buffer nothing is emitted and the buffer keeps all of it |
| `IntendedFramer.IntendedMakesProgress` | main.ts:96 | corrected call: each emitted line shrinks the resynced buffer by its length plus one: the line and its line feed leave the buffer, so a later call cannot emit the same text again |

## Left out

- Serial and I2C configuration and event wiring (`setI2CAddress`, `setSerialPins`, `setAutoUpdates`, `serial.redirect`, `serial.onDataReceived`; main.ts:15-44): hardware I/O. `serial.readString()` (main.ts:86) is the parameter `incoming` of `Stack.ParseBuffer`, which the code ignores.
- When `parseBuffer` runs: the event scheduling that calls it on each line feed is not modelled. `Run` counts calls instead.
- `updateLocation`, `gpsAccuracy`, `gpsLatitude`, `gpsLongitude`, `gpsAltitude`, `gpsTime` (main.ts:51-83): empty bodies or constant results, with nothing to verify.
- `parseNMEA` (main.ts:100-101): its body is empty. It is modelled only as the recorder `Stack.ParseNmea`. No sentence decoding exists in this code.
- The `FixType` enum, `_seenUpdate`, `_i2cAddress`, `_uartBaud`, `_uartTx`, `_uartRx` (main.ts:7-18): `parseBuffer` never reads or writes them.
- Block-editor annotations (`//%` comments).
- `IntendedFramer.IntendedStep` is a value-level function. The class `Stack` keeps the behaviour as written, so `Stack.ParseBuffer` does not use it.

## Findings

| source | as written | input that shows it | evidently intended | confidence | as-written member | corrected member |
|---|---|---|---|---|---|---|
| main.ts:86 | `_serialBuffer.concat(serial.readString())` discards its result, since strings are immutable | buffer `""`, any incoming text such as `"$GPGGA,1\n"`: the buffer stays `""` and `parseNMEA` is never called | `_serialBuffer = _serialBuffer.concat(...)` | high (not executed) | `JacStack.RunFromEmpty` | `IntendedFramer.IntendedFramesSentence` |
| main.ts:94-95 | `split("\n")[0]` is the whole buffer when no line feed has arrived, and it is parsed anyway | buffer `"$GP"`: `"$GP"` is parsed and `"P"` is kept | parse only a terminated line; keep a partial sentence whole | medium (not executed) | `JacStack.UnterminatedIsEmitted` | `IntendedFramer.IntendedWaitsForTerminator` |
| main.ts:96 | `slice(line.length - 1)` keeps the buffer from the line's last character on, not from after the line feed | buffer `"$\n..."`: the buffer never changes and `"$"` is parsed on every call | `slice(line.length + 1)` | high (not executed) | `JacStack.RunStuckOnBareMarker` | `IntendedFramer.IntendedMakesProgress` |
