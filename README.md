# BluetoothTerminal receive framing, modelled in Dafny

BluetoothTerminal turns a single BLE characteristic into a line-oriented
terminal. A central device writes chunks of bytes to the characteristic. The
peripheral copies each byte into a fixed 128-byte receive buffer and prints a
message whenever a newline byte arrives. The repository holds this receive
loop twice:

- the library class `BluetoothTerminal` (`src/BluetoothTerminal.cpp`). It also
  cuts a message when the buffer is one byte short of full;
- a stand-alone sketch (`src/main.cpp`). It has no bound check, but it has a
  periodic send of `"Test\n"` once more than a second has passed.

Around the loop sit a connection flag, set by the connect and disconnect
events, and (in the library) a `send` that writes a message to the
characteristic.

The project has three modules:

- `Framing` (`framing.dfy`) gives one iteration of the receive loop as
  `Step`, and the loop over a byte sequence as `Run`. A `Policy` selects
  either the library's "cut when full" rule or the sketch's "newline only"
  rule. The module proves what the loop promises:
  - conservation: the messages laid end to end, then the pending bytes, are
    the received bytes;
  - chunking does not matter: a partial message carries over to the next
    chunk;
  - every message is a well-formed frame, and the buffer index between
    bytes stays at most `bufferSize - 2`;
  - a newline-terminated line comes out as one message that includes its
    newline;
  - a full buffer is emitted, not dropped;
  - the split is unique: any other cut of the input into framed messages
    and a partial is the one the loop makes, so for the sketch the messages
    are exactly the input's lines.
- `Terminal` (`terminal.dfy`) is the library class, with the fields of the
  `.cpp`, and the sizes and defaults of the class declaration in the `.h`.
  `OnWrite` is the in-place loop over `buffer: array<char>` with
  `bufferIndex`. Its contract ties the new buffer contents and the ghost list
  of printed messages to `Run` on the old state.
- `MainSketch` (`sketch.dfy`) holds the sketch's globals as one object:
  `buffer`, `bufferI`, `deviceConnected` and `lastMillis`. Its `Loop` method is one
  pass of `loop()` and takes the current time as the parameter `currentMillis`.

The `.cpp` and the `.h` of the library do not match each other. The `.cpp`
uses `buffer`, `bufferIndex`, `bufferSize`, `isDeviceConnected`,
`onConnect(BLEDevice)` and `begin`. The `.h` declares `receiveBuffer`,
`receiveBufferIndex`, `receiveBufferSize`, `isConnected`, `handleConnected`
and `start`. The model follows the `.cpp`'s behaviour and names. It takes the
capacity (128), the initial index (0), the initial flag (disconnected), the
separators (`'\n'`) and the characteristic size (20) from the `.h`.

In these respects the code behaves differently from what a framing layer is
often expected to do, and the model follows the code:

- On a full buffer the code emits the buffered bytes as a message. It does
  not discard them. `FullBufferExample` shows this for a 4-byte buffer.
- `send` writes the message whether or not a device is connected. It appends
  no separator and does not split the message into chunks.
- Both receive loops keep the newline inside the emitted message.
- Both receive loops use a hard-coded `'\n'`. They ignore the declared
  `receiveSeparator` field.
- A disconnect clears neither the buffer nor `bufferIndex`. Bytes one central
  leaves unterminated become the start of the next central's first message.
  The client method `Terminal.ReconnectKeepsPartial` shows this: `"ab"`, a
  disconnect, a connect and `"x\n"` give the single message `"abx\n"`.

## Model

| member | source | states |
|---|---|---|
| Terminal.BluetoothTerminal.constructor | src/BluetoothTerminal.h:28-43 | starts disconnected, with index 0, a buffer whose length equals `bufferSize` = 128, both separators `'\n'`, and a characteristic value size of 20 equal to the declared characteristic size; nothing received, printed or sent |
| Terminal.BluetoothTerminal.OnConnect | src/BluetoothTerminal.cpp:85-92 | sets the connection flag to true and changes nothing else |
| Terminal.BluetoothTerminal.OnDisconnect | src/BluetoothTerminal.cpp:97-104 | sets the flag to false and changes nothing else; a partial message stays buffered (nothing is flushed on disconnect) |
| Terminal.BluetoothTerminal.IsDeviceConnected | src/BluetoothTerminal.cpp:62-65 | returns the connection flag and only reads the object |
| Terminal.BluetoothTerminal.Send | src/BluetoothTerminal.cpp:46-60 | writes the message exactly once and unchanged whatever the flag's value; no separator is added, no fragment is written, and the receive state is untouched |
| Terminal.BluetoothTerminal.OnWrite | src/BluetoothTerminal.cpp:109-134 | the in-place loop leaves `buffer[0..bufferIndex)` and the printed messages as `Run` with the library policy gives them from the old state; it keeps `0 <= bufferIndex <= bufferSize - 2`; earlier messages are kept as a prefix; all printed messages plus the pending bytes equal all bytes received; every message is framed |
| Framing.Conservation | src/BluetoothTerminal.cpp:118-133 | for either policy, the emitted messages laid end to end and then the pending bytes equal the old messages, the old pending bytes and the input, in order; old messages stay a prefix |
| Framing.RunAppend | src/BluetoothTerminal.cpp:118-133 | feeding `a + b` in one call gives the same messages and partial as feeding `a` and then `b`, so bytes after the last newline of a chunk become the prefix of the next call's message |
| Framing.StepSound | src/BluetoothTerminal.cpp:120-131 | one byte keeps every message framed and the partial bounded by `size - 2`, so both `buffer[bufferIndex++]` and the terminator write stay in bounds |
| Framing.RunSound | src/BluetoothTerminal.cpp:118-133 | after any input every message has length between 1 and `size - 1`, has no newline before its last byte, and ends with a newline or is exactly `size - 1` bytes long; the partial has no newline and at most `size - 2` bytes |
| Framing.PartialAccumulates | src/BluetoothTerminal.cpp:120-123 | bytes without a newline that do not fill the buffer only extend the partial message, and no message is emitted |
| Framing.LineEmits | src/BluetoothTerminal.cpp:120-131 | a newline-terminated line that fits is emitted as one message: the pending bytes, the line and the newline; the index becomes 0 |
| Framing.FullBufferFlushes | src/BluetoothTerminal.cpp:123-131 | once `size - 1` bytes without a newline have accumulated, they are emitted as one message and the index resets; no byte is dropped |
| Framing.MultiMessageChunk | src/main.cpp:35-49 | for either policy, the chunk `"ab\ncd\n"` yields the two messages `"ab\n"` then `"cd\n"`, and nothing stays pending |
| Framing.FullBufferExample | src/BluetoothTerminal.cpp:123-131 | with a 4-byte buffer, `"abcdef"` yields `"abc"` and `"def"`; after `"g\n"` the next message is `"g\n"` |
| Framing.SplitIsUnique | src/BluetoothTerminal.cpp:118-133 | for either policy, any split of the input into framed messages and a partial that concatenates to the input is exactly the split `Run` gives: with the sketch's rule the messages are the input's lines; with the library's each message ends at the first newline within `size - 1` bytes, or after exactly `size - 1` bytes |
| MainSketch.Sketch.constructor | src/main.cpp:11-14 | the globals start disconnected, with `bufferI` and `lastMillis` 0 and a 128-byte buffer |
| MainSketch.Sketch.OnConnect | src/main.cpp:16-20 | sets the global flag to true |
| MainSketch.Sketch.OnDisconnect | src/main.cpp:22-26 | sets the global flag to false |
| MainSketch.Sketch.OnWrite | src/main.cpp:28-50 | as long as the writes stay inside the 128-byte buffer, the loop leaves the buffer and the printed messages as `Run` with no bound check gives them; a trailing partial message persists in `buffer[0..bufferI)`; all messages plus the pending bytes equal the received bytes |
| MainSketch.PartialInBounds | src/main.cpp:35-38 | bytes without a newline stay in bounds exactly when the buffer can hold all of them |
| MainSketch.LineInBounds | src/main.cpp:38-42 | a line stays in bounds exactly when the buffered bytes, the line and its newline come to at most 127 bytes, which leaves the last slot for the terminator |
| MainSketch.LongestLine | src/main.cpp:12-13 | 127 bytes plus a newline would write the terminator one past the end of `char buffer[128]`; 126 bytes plus a newline fit |
| MainSketch.Sketch.Loop | src/main.cpp:81-94 | `lastMillis` becomes `currentMillis` exactly when `currentMillis > lastMillis + 1000`, whether or not a device is connected; `"Test\n"` is written only then and only while connected; the invariant keeps periodic sends more than 1000 ms apart |

## Left out

- BLE setup is not modelled. This covers local and device name, service and characteristic registration, event-handler wiring and advertising in `begin` and `setup`. It is glue over the ArduinoBLE library.
- The endless loop after a failed `BLE.begin()` is not modelled. It is non-terminating failure handling.
- `BLE.poll()` in `loop` is not modelled. It is the transport's event dispatch; each event is a method call of the model.
- The `getInstance` singleton and the static trampolines are replaced by one object. So is the by-value copy of the instance in `begin`.
- All `Serial` logging is left out. The one exception is the print of each completed message, which is the ghost list `emitted`.
- `emitted` records each message as the bytes `buffer[0..index)`. `Serial.print` of the buffer stops at the first NUL byte, so a chunk that carries a NUL byte prints a shorter text. That truncation is not modelled.
- `device.address()` is left out. `characteristic.value()` and `valueLength()` become the `chunk` parameter, with each `uint8_t` cast to `char` taken as a `char`.
- `setValue` belongs to ArduinoBLE, an external library. The model records the value handed to it. Any truncation to the characteristic's 20-byte size inside the library is not modelled.
- The `std::function` handlers and their setters, and the separator setters, are left out. They are declared in `BluetoothTerminal.h`, but `BluetoothTerminal.cpp` defines none of them. Only `examples/LolinS3/LolinS3.cpp` calls the handler setters, and no code calls the separator setters.
- `examples/LolinS3/LolinS3.cpp` is not part of this model. It calls `enableDebug` and `setName`, which neither `BluetoothTerminal.h` nor `BluetoothTerminal.cpp` declares, and `start` and `isConnected`, which `BluetoothTerminal.h` declares but `BluetoothTerminal.cpp` does not define.
- Send-side fragmentation, inter-chunk delay and set-once identifiers are not modelled. Neither `BluetoothTerminal.cpp` nor `main.cpp` implements them.
- MainSketch.Sketch.Loop: `millis()` is a parameter. `unsigned long` values are naturals, so neither the clock's wrap-around nor the wrap of `lastMillis + 1000` is modelled.
- MainSketch.Sketch.OnWrite: the sketch checks no bound. A write past `buffer[127]` is undefined behaviour in the source. The model therefore requires the chunk to stay in bounds. `LineInBounds`, `PartialInBounds` and `LongestLine` state exactly when it does.
- Terminal.BluetoothTerminal.Send: `message` is any `seq<char>`, while the source's `const char *` cannot hold a NUL byte, since `Serial.print` and `setValue` both stop at the first one. The model does not cut a message at an embedded NUL.
- `bufferIndex` is a C `int`. Its overflow is not modelled, because the model proves the index stays below `bufferSize`.
