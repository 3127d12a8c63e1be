# SLCAN engine of esp32-slcan (ESP32-S3)

A Dafny model of the protocol engine of the ESP32-S3 SLCAN firmware. SLCAN is
the Lawicel CANUSB ASCII protocol: a host sends command lines over a serial
port and the adapter answers with ACK (`Z` CR) or NACK (BEL). The firmware:

- opens and closes the CAN controller;
- sets timing and acceptance filters;
- turns `t`/`T`/`r`/`R` command lines into CAN frames;
- prints every received frame as an ASCII line.

The model has four modules:

- `Hex` (`hex.dfy`): the fixed-width number fields of the wire format.
  - `sscanf("%0NX")` becomes `ScanHex`.
  - `printf("%0Nx")` / `printf("%0NX")` become `FormatHex`.
  - `printf("%d")` becomes `FormatDecimal`.
  - Read-back lemmas cover all three.
- `Frames` (`frames.dfy`): the frame codec.
  - `Decode` is the corrected decoder of `send_canmsg`; `DecodeAsWritten` is the decoder as written.
  - `EncodeFrame` is the line `xfer_can2tty` prints.
  - Layout lemmas say where each field sits. The round trip is `DecodeArguments` / `EncodeThenDecode`.
- `Protocol` (`protocol.dfy`): the engine as values.
  - The session globals are `Session`.
  - One command line is `Dispatch` (`parse_slcancmd` with `changeCANSpeed`, `changeCANFilter`, `send_canmsg` and the ACK/NACK writers).
  - The byte framer of `xfer_tty2can` is `FeedByte` / `Feed` over an `Engine`.
  - Lemmas cover each command, the open/closed gating, reply termination, buffer overflow and line dispatch.
- `Firmware` (`firmware.dfy`): the firmware as it runs. Class `Slcan` holds:
  - the globals;
  - the static 32-byte `cmdbuf` array and its index `cmdidx`;
  - the serial output written so far;
  - the requests made of the CAN controller.

  Every entry point is a method that updates these in place. Each method is proved against the `Protocol` or `Frames` function that specifies it:
  - `XferTty2Can` against `Feed`;
  - `ParseSlcanCmd` against `Dispatch`;
  - `SendCanMsg` against `SendFrame`;
  - `XferCan2Tty` against `EncodeFrame`.

The CAN controller is abstract:

- `start_can` and `stop_can` are recorded as `StartCan(profile, code, mask)` and `StopCan` events.
- A queued frame is a `Transmit(frame)` event.
- The answer of `twai_transmit` is a boolean parameter.
- The frame `twai_receive` delivers is an `Option<Frame>` parameter.
- `millis()` is a number parameter.
- The bytes `Serial.available()` offers are the input sequence of `XferTty2Can`.

Behaviour of the code worth knowing:

- The session starts open (`slcan = true`, main.cpp line 20); `setup` never starts the driver.
- `changeCANFilter` checks the open flag, so `M`/`m` change nothing while open, though they still ACK.
- On overflow only the first 32 bytes are dropped. The byte after them starts the next line (see `Protocol.OverlongLine`).
- With the line-feed option on, a received-frame line ends in CR followed by `println("")`, that is CR LF: CR CR LF in all.
- The payload loop always reads exactly DLC pairs. Its `n >= 2` test equals `i < dlc`. A pair that does not scan repeats the previous byte, because `value` is never reset. Nothing is truncated.

## Model

| member | source | states |
|---|---|---|
| Hex.ScanHex | esp32-s3-slcan-platformio/src/main.cpp:67-68 | a `%0NX` field scans exactly when all N characters lie inside the line and are hex digits, and its value is below 16^N |
| Hex.FormatHex | esp32-s3-slcan-platformio/src/main.cpp:337-346 | `%0Nx`/`%0NX` writes at least N characters and never nothing |
| Hex.FormatHexDigits | esp32-s3-slcan-platformio/src/main.cpp:337-350 | every character printed is a hex digit in the case the conversion asks for (lower for `x`, upper for `X`) |
| Hex.HexValueOfFormat | esp32-s3-slcan-platformio/src/main.cpp:337-350 | reading back a printed hex number gives the number, for every width |
| Hex.FormatHexWidth | esp32-s3-slcan-platformio/src/main.cpp:337-346 | a number below 16^N is printed in exactly N digits |
| Hex.ScanFormatted | esp32-s3-slcan-platformio/src/main.cpp:67-68 | a field printed at an offset is scanned back from that offset |
| Hex.ScanSlice | esp32-s3-slcan-platformio/src/main.cpp:67-68 | a printed field scans back to its number, and its characters keep the printed case |
| Hex.FormatDecimal | esp32-s3-slcan-platformio/src/main.cpp:337 | `%d` of a non-negative number is one or more decimal digits |
| Hex.DecimalValueOfFormat | esp32-s3-slcan-platformio/src/main.cpp:337 | reading back a `%d` number gives the number |
| Hex.SingleDecimal | esp32-s3-slcan-platformio/src/main.cpp:337 | a DLC below 10 printed with `%d` is a single decimal digit |
| Hex.SingleHex | esp32-s3-slcan-platformio/src/main.cpp:81 | a digit below 10 is the same character whether printed with `%d`, `%01X` or `%01x`, so the `%01X` scan reads it as the same value |
| Frames.Decode | esp32-s3-slcan-platformio/src/main.cpp:61-99 | the DLC digit above 8 is the only failure; otherwise the frame has the 8 or 3 identifier digits at 0, the DLC digit after them, the command's ext and rtr flags, and, unless remote, the payload read from offset 9 or 4 |
| Frames.DecodeFields | esp32-s3-slcan-platformio/src/main.cpp:73-98 | the frame send_canmsg fills field by field is the frame Decode returns |
| Frames.DecodeAsWritten | esp32-s3-slcan-platformio/src/main.cpp:54-104 | as written, the frame is Decode's except for a remote flag left at whatever it held before |
| Frames.RemoteRequestDropped | esp32-s3-slcan-platformio/src/main.cpp:137-141 | for `r1230` CR the as-written frame can be a data frame, while the corrected one is the remote request for 0x123 with DLC 0 |
| Frames.Payload | esp32-s3-slcan-platformio/src/main.cpp:92-98 | the payload loop yields exactly DLC bytes, one per turn, whatever the text holds |
| Frames.PayloadAt | esp32-s3-slcan-platformio/src/main.cpp:92-98 | payload byte i is the hex pair at data offset + 2i when it scans, else the byte before it (0 for the first) |
| Frames.PayloadStep | esp32-s3-slcan-platformio/src/main.cpp:95-97 | one turn of the payload loop appends the scanned pair, or the last value when the scan fails |
| Frames.PayloadOfPairs | esp32-s3-slcan-platformio/src/main.cpp:92-98 | when every pair scans, the payload is exactly the scanned bytes |
| Frames.DataHex | esp32-s3-slcan-platformio/src/main.cpp:349-351 | the payload text is two characters per byte |
| Frames.DataHexAt | esp32-s3-slcan-platformio/src/main.cpp:349-351 | pair i of the payload text is byte i in two upper-case digits |
| Frames.DataHexDigits | esp32-s3-slcan-platformio/src/main.cpp:349-351 | the payload text is hex digits only |
| Frames.ArgumentsAreHex | esp32-s3-slcan-platformio/src/main.cpp:337-351 | the identifier, DLC and payload text of a frame are hex digits only, so they hold no CR |
| Frames.Arguments | esp32-s3-slcan-platformio/src/main.cpp:337-351 | the identifier, DLC and payload fields take at least data offset + 2·DLC characters (data offset alone for a remote frame) |
| Frames.Timestamp | esp32-s3-slcan-platformio/src/main.cpp:354-357 | exactly 4 characters with timestamps on, nothing with them off |
| Frames.Terminator | esp32-s3-slcan-platformio/src/main.cpp:359-360 | starts with CR, and is longer than that one CR exactly when the line-feed option is on |
| Frames.EncodeFrame | esp32-s3-slcan-platformio/src/main.cpp:334-360 | the line starts with the verb letter for the frame's rtr and ext flags and ends with the terminator the line-feed option selects |
| Frames.ArgumentPieces | esp32-s3-slcan-platformio/src/main.cpp:337-351 | for a valid frame: identifier in exactly 8 or 3 digits, DLC in one decimal digit, then the payload pairs unless remote |
| Frames.EncodePieces | esp32-s3-slcan-platformio/src/main.cpp:334-360 | an encoded valid frame is verb, identifier digits, DLC digit, payload text, timestamp and terminator, in that order |
| Frames.EncodedIdentifier | esp32-s3-slcan-platformio/src/main.cpp:337-346 | after the verb come exactly 8 (extended) or 3 (standard) lower-case hex digits that scan back to the identifier, then the DLC as one decimal digit |
| Frames.DataLayout | esp32-s3-slcan-platformio/src/main.cpp:343-351 | the payload pairs of an encoded data frame start right after the DLC digit |
| Frames.EncodedDataByte | esp32-s3-slcan-platformio/src/main.cpp:349-351 | data byte i is the two upper-case hex digits at 1 + data offset + 2i, which scan back to the byte |
| Frames.EncodedTail | esp32-s3-slcan-platformio/src/main.cpp:354-360 | with timestamps on, 4 hex digits of the uptime modulo 60000 (always below 0xEA60) precede the terminator; the line length is fixed by the frame and the two options |
| Frames.PairScan | esp32-s3-slcan-platformio/src/main.cpp:96 | a byte printed as `%02X` inside a line scans back with `%02X` from its offset |
| Frames.HeaderScan | esp32-s3-slcan-platformio/src/main.cpp:80-81 | an identifier field and the DLC digit after it scan back to their values |
| Frames.DecodeHeader | esp32-s3-slcan-platformio/src/main.cpp:65-90 | the decoder reads back the identifier and the DLC of encoded frame arguments, whatever follows them |
| Frames.DecodePairs | esp32-s3-slcan-platformio/src/main.cpp:92-98 | every payload pair of encoded data-frame arguments scans back to its byte |
| Frames.DecodeArguments | esp32-s3-slcan-platformio/src/main.cpp:65-99 | round trip: decoding the encoded arguments of a valid frame, whatever follows them, gives back the frame |
| Frames.EncodeThenDecode | esp32-s3-slcan-platformio/src/main.cpp:334-351 | round trip on whole lines: the verb of an encoded valid frame names its flags, and the decoder fed the rest of the line reproduces the frame |
| Protocol.ChangeSpeed | esp32-s3-slcan-platformio/src/main.cpp:247-264 | the open flag is kept and nothing reaches the bus; the profile afterwards is one of the 9, or is unchanged |
| Protocol.ChangeFilter | esp32-s3-slcan-platformio/src/main.cpp:268-276 | only the acceptance code or mask can change, and only to a 32-bit value |
| Protocol.SendFrame | esp32-s3-slcan-platformio/src/main.cpp:125-148 | a send never changes the session, requests at most one transmission and replies with exactly one ACK or NACK |
| Protocol.SendQueued | esp32-s3-slcan-platformio/src/main.cpp:92-104 | while open with a DLC of at most 8, the frame the corrected decoder returns is queued and the reply is ACK exactly when the driver accepts it |
| Protocol.SendRefused | esp32-s3-slcan-platformio/src/main.cpp:58-84 | while closed, or with a DLC digit above 8, nothing is queued and the reply is NACK |
| Protocol.Dispatch | esp32-s3-slcan-platformio/src/main.cpp:110-243 | one command line makes at most one request of the CAN controller |
| Protocol.OpenClose | esp32-s3-slcan-platformio/src/main.cpp:113-124 | O opens and C closes the session, each with one start or stop request and an ACK, changing no other setting |
| Protocol.TimestampCommand | esp32-s3-slcan-platformio/src/main.cpp:149-162 | Z0 and Z1 set the timestamp option and ACK; any other Z argument changes nothing and writes nothing |
| Protocol.LineFeedToggle | esp32-s3-slcan-platformio/src/main.cpp:187-190 | l toggles the line-feed option and NACKs |
| Protocol.Println | esp32-s3-slcan-platformio/src/main.cpp:192-236 | each line written with `println` adds its CR LF, so the text ends in CR LF when any line was written |
| Protocol.HelpText | esp32-s3-slcan-platformio/src/main.cpp:192-236 | the help text is 27 `println` lines for the current settings, so it is at least 54 characters and ends in CR LF |
| Protocol.HelpCommand | esp32-s3-slcan-platformio/src/main.cpp:191-238 | h prints the help text for the current settings, then NACKs, changing nothing |
| Protocol.Queries | esp32-s3-slcan-platformio/src/main.cpp:174-186 | F, V and N change nothing; they ACK, V and N after "V1" and "N2208" |
| Protocol.UnknownVerb | esp32-s3-slcan-platformio/src/main.cpp:239-241 | any other first byte gives exactly one NACK and changes nothing |
| Protocol.SpeedGating | esp32-s3-slcan-platformio/src/main.cpp:171-173 | S while open changes nothing and writes nothing; while closed S0..S8 select that profile and ACK, and any other digit NACKs and keeps the profile |
| Protocol.FilterGating | esp32-s3-slcan-platformio/src/main.cpp:163-170 | M and m always ACK; only while closed do they replace the code or mask, with the 8 scanned digits when they scan |
| Protocol.SetFilter | esp32-s3-slcan-platformio/src/main.cpp:268-276 | while closed, M or m followed by any 32-bit value in 8 hex digits sets exactly that value |
| Protocol.FilterArgument | esp32-s3-slcan-platformio/src/main.cpp:273-275 | 8 printed hex digits before the CR scan back as the filter value |
| Protocol.SendGating | esp32-s3-slcan-platformio/src/main.cpp:125-148 | t/T/r/R change no setting; they queue exactly when open and the DLC is at most 8, and ACK only when queued and accepted |
| Protocol.SendEncoded | esp32-s3-slcan-platformio/src/main.cpp:125-148 | while open, a valid frame written as a command line is queued as that very frame, remote flag included, by the corrected decoder |
| Protocol.SilentCommands | esp32-s3-slcan-platformio/src/main.cpp:149-173 | a reply is empty exactly for S while open and for Z with an argument other than 0 or 1 |
| Protocol.EndsWithReply | esp32-s3-slcan-platformio/src/main.cpp:280-290 | text followed by an ACK or a NACK ends with one |
| Protocol.ReplyTerminated | esp32-s3-slcan-platformio/src/main.cpp:110-243 | every reply that is not empty ends with an ACK or a NACK |
| Protocol.BareReply | esp32-s3-slcan-platformio/src/main.cpp:110-243 | apart from V, N and h, a reply is an ACK, a NACK or nothing |
| Protocol.BusRequests | esp32-s3-slcan-platformio/src/main.cpp:113-148 | only O, C, t, T, r and R reach the bus, and nothing is transmitted while closed |
| Protocol.FeedByte | esp32-s3-slcan-platformio/src/main.cpp:304-319 | after each byte the buffer holds at most 31 bytes, so the store and the NUL write stay inside cmdbuf |
| Protocol.Feed | esp32-s3-slcan-platformio/src/main.cpp:303-320 | after any run of bytes the buffer holds at most 31 bytes |
| Protocol.FeedKeepsFraming | esp32-s3-slcan-platformio/src/main.cpp:303-320 | the buffer never holds a CR or 32 bytes, and output and bus requests are only ever appended to |
| Protocol.Overflow | esp32-s3-slcan-platformio/src/main.cpp:305-312 | the 32nd byte, a CR as much as any other, gives exactly one NACK, empties the buffer and calls no parser |
| Protocol.LineEnd | esp32-s3-slcan-platformio/src/main.cpp:314-319 | a CR before that hands the buffered line, CR included, to the parser once and empties the buffer |
| Protocol.FeedLast | esp32-s3-slcan-platformio/src/main.cpp:303-320 | feeding a run and one more byte is feeding that byte after the run |
| Protocol.FeedAppend | esp32-s3-slcan-platformio/src/main.cpp:294-321 | feeding two runs one after the other is feeding their concatenation, so the split between calls does not matter |
| Protocol.Fill | esp32-s3-slcan-platformio/src/main.cpp:304-305 | bytes without CR that fit the buffer are only stored |
| Protocol.CommandLine | esp32-s3-slcan-platformio/src/main.cpp:303-319 | a command line that fits the buffer is parsed once, with its CR, and the buffer is empty afterwards |
| Protocol.OverlongLine | esp32-s3-slcan-platformio/src/main.cpp:305-312 | 33 bytes without CR give exactly one NACK; the first 32 are dropped and the 33rd starts the next line |
| Protocol.FrameCommand | esp32-s3-slcan-platformio/src/main.cpp:297-307 | a valid frame written as a command holds no CR and fits the 32-byte buffer with its CR |
| Protocol.TransmitLine | esp32-s3-slcan-platformio/src/main.cpp:303-319 | a valid frame typed into an idle, open engine is queued as that frame, and the single reply is ACK or NACK after the driver's answer |
| Firmware.Slcan.constructor | esp32-s3-slcan-platformio/src/main.cpp:20-28 | start-up: open, no line feed, no timestamps, profile 0, accept-all filter, empty buffer |
| Firmware.Slcan.SlcanAck | esp32-s3-slcan-platformio/src/main.cpp:280-283 | appends `Z` CR to the port and changes nothing else |
| Firmware.Slcan.SlcanNack | esp32-s3-slcan-platformio/src/main.cpp:287-290 | appends BEL to the port and changes nothing else |
| Firmware.Slcan.ChangeCanSpeed | esp32-s3-slcan-platformio/src/main.cpp:247-264 | the new globals, output and requests are those of Protocol.ChangeSpeed |
| Firmware.Slcan.ChangeCanFilter | esp32-s3-slcan-platformio/src/main.cpp:268-276 | the new globals are those of Protocol.ChangeFilter; nothing is written |
| Firmware.Slcan.SendCanMsg | esp32-s3-slcan-platformio/src/main.cpp:54-105 | returns true exactly when Protocol.SendFrame replies ACK; its transmission request is appended and no global changes |
| Firmware.Slcan.SendAndReply | esp32-s3-slcan-platformio/src/main.cpp:125-148 | the new globals, output and requests are those of Protocol.SendFrame |
| Firmware.Slcan.ParseSlcanCmd | esp32-s3-slcan-platformio/src/main.cpp:110-243 | the new globals, output and requests are those of Protocol.Dispatch; the buffer index is untouched |
| Firmware.Slcan.XferTty2Can | esp32-s3-slcan-platformio/src/main.cpp:294-321 | keeps cmdidx below 32 and leaves the buffer, globals, output and requests as Protocol.Feed says |
| Firmware.Slcan.PrintPayload | esp32-s3-slcan-platformio/src/main.cpp:349-351 | appends Frames.DataHex of the payload |
| Firmware.Slcan.XferCan2Tty | esp32-s3-slcan-platformio/src/main.cpp:325-362 | appends Frames.EncodeFrame of the received frame, or nothing when none arrived, and changes no setting |
| Firmware.ReadPayload | esp32-s3-slcan-platformio/src/main.cpp:92-98 | the first DLC bytes of the fresh data field are Frames.Payload of the arguments |
| Firmware.PrintedLine | esp32-s3-slcan-platformio/src/main.cpp:334-360 | the pieces xfer_can2tty prints, in order, make up Frames.EncodeFrame |

## Left out

- Driver bring-up and teardown (`start_can`, `stop_can`, main.cpp 364-398). Their driver calls and `printf` logging are foreign hardware calls. The model records only the request, with the timing profile and filter it would use.
- `twai_transmit` and `twai_receive`. The first is the boolean `txOk`. `XferTty2Can` takes one boolean per input byte and uses only those of the CR bytes that end a send. The second is an `Option<Frame>` parameter, and its 10-second timeout is the `None` case.
- `setup`, `loop` and their ordering (main.cpp 44-52). The two transfer methods are modelled separately; `Serial.begin` and the serial port's own buffering are not part of this model.
- `millis()` is the parameter `ms`.
- Timing and filter configurations are held as a profile index (0..8) and two 32-bit numbers, not as the driver's register structures.
- Hex.ScanHex: accepts only a well-formed fixed-width field inside the line. `sscanf`'s whitespace skipping, signs, `0x` prefixes, shorter fields and reads past the NUL are not modelled. A field that does not scan leaves its target unchanged, as a failed `sscanf` does.
- Frames.Decode: identifiers above 11 bits (standard) or 29 bits (extended) are passed on unchanged. What the driver makes of them is covered only by `txOk`.
- Frames.Decode: `message.ss` is always set (main.cpp line 101) and is not modelled; the bits send_canmsg leaves uninitialised are `rtr` (see ## Findings), `self` and `dlc_non_comp`, and the last two are not modelled.
- Frames.ValidFrame: limits received DLCs to 0..8. The non-compliant DLC codes 9..15 a controller may deliver are not modelled.
- Protocol.SendFrame: the frame it queues comes from the corrected Frames.Decode, so it carries the remote flag of the command; as written, main.cpp never sets `message.rtr` (see ## Findings and Frames.DecodeAsWritten). The same holds for Protocol.SendQueued, Protocol.SendEncoded and Protocol.TransmitLine.
- Firmware.Slcan.SendCanMsg: builds its frame with the corrected remote flag, as Protocol.SendFrame does, not the indeterminate one of the code as written.
- Protocol.HelpText: the help text is modelled as one piece of text, not the sequence of `print` calls that writes it; the result on the port is the same.
- Protocol.Dispatch: its own contract states only the bound on bus requests. The per-command behaviour is stated by the lemmas beside it.
- The ESP32-C3 project (its `main.cpp` and headers) has no protocol logic and is not part of this model.

## Findings

| source | as written | input that shows it | evidently intended | confidence | as-written member | corrected member |
|---|---|---|---|---|---|---|
| esp32-s3-slcan-platformio/src/main.cpp:54-105 | `send_canmsg` never assigns `message.rtr`, so the remote flag the driver receives is whatever the uninitialised stack variable held | `r1230` CR while open: a remote request for 0x123 with DLC 0 may leave as a data frame | `message.rtr = rtr`, so `r`/`R` always send remote requests | not executed | Frames.RemoteRequestDropped | Frames.Decode |
