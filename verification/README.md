# MEI Cashflow SC bill validator driver, in Dafny

This project models the driver for the MEI Cashflow SC bill validator in
`lib/mei/cashflow_sc.js`. The validator speaks EBDS over a serial line. The
host sends Omnibus commands framed as `STX | len | ctl | data | ETX | chk`.
The validator answers with Omnibus replies, which carry six standard status
bytes, or with extended replies. The Extended Note Specification extended
reply adds an 18-byte description of the bill in escrow.

The driver object becomes an immutable record `Controller.Driver`. It holds
the receive buffer, the ack bit, the enabled-denominations mask, the
configured currency and the last status. Every operation is a pure function
returning an `Output`: the new driver, the events emitted in order, and the
frames written to the serial line in order. The modules follow the driver's
layers:

- `Bytes`: bytes, the STX/ETX/ENQ sentinels, and the JavaScript array
  behaviour the driver relies on. `buf[i]` past the end is `undefined`, and
  `slice` has JavaScript bounds.
- `FrameCodec`: the checksum, `validatePacket`, `_buildFrame` with its
  alternating ack bit, `destructCtlByte` and `destructFrame`.
- `StatusDecoder`: `destructData` (the bit-fields of the six status bytes)
  and `parseStatus` (the coarse status, by fixed priority).
- `ExtendedDecoder`: `parseExtended`. This covers `parseInt` on ASCII
  fields, the sign byte and the denomination `base * 10^(sign * exponent)`.
- `Interpreter`: `parseStandard` and `interpret`.
- `Denominations`: `lowestBill`, `highestBill` and `hasDenominations`, over
  a denomination table given as a parameter.
- `Controller`: the constructor, `setFiatCode`, `enable`, `disable`,
  `reject`, `stack`, `_poll`, `run` and `_dispatch`. It also covers
  `_parse`, which decides which events to emit and when to reject a bill.
- `Reassembler`: `_acquireSync` and `_process`. `_process` cuts packets out
  of the byte stream and retries when a packet fails to decode.

Quirks of the driver that the model keeps:

- **`parseStandard` never returns.** It passes the raw data bytes, not their
  decoded fields, to `parseStatus`. With fewer than two bytes that throws.
  Otherwise the function then returns the unbound name `destructed`.
  Every Omnibus reply therefore fails to decode and takes the retry path
  of `_process`.
- **`destructFrame` only logs its STX/ETX/checksum sanity test.** It returns
  `null` only when the packet has fewer than three bytes or its length byte
  differs from the packet length.
  `interpret` then throws on destructuring that `null`.
- **`_parse` stores the new status before it checks the currency.** A
  foreign bill is therefore rejected once, and is not announced when it is
  repeated.
- **An unknown sign byte is `null`.** `null * exponent` is 0, so the
  denomination is the base. The `reserved` slice starts at the banknote
  classification byte, so the two fields share that byte.
- **The checksum skips ETX.** It is the XOR of the bytes from the length byte
  up to the byte before ETX. An account of the frame that also XORs the ETX
  byte does not match the driver's loop; the model follows the loop.

## Model

| member | source | states |
|---|---|---|
| FrameCodec.ComputeChecksum | lib/mei/cashflow_sc.js:438-445 | The loop computes the XOR of the bytes between STX and ETX, and XOR-ing that value back into those bytes gives 0 |
| FrameCodec.ValidatePacket | lib/mei/cashflow_sc.js:34-39 | A packet passes exactly when it has ETX second to last and the checksum last. The checksum is tested first, so a packet with both wrong reports the bad checksum |
| FrameCodec.FlipAck | lib/mei/cashflow_sc.js:429 | The new ack bit is 0 or 1 and is the opposite of the old ack bit |
| FrameCodec.BuildFrame | lib/mei/cashflow_sc.js:426-435 | Data longer than 250 bytes is refused. Otherwise the frame is STX, its own length, `0x10` with the flipped ack bit, the data, ETX and the checksum |
| FrameCodec.DestructCtlByte | lib/mei/cashflow_sc.js:368-388 | The control byte splits into an ack bit, a 3-bit device type and a 3-bit message type. Re-encoding them loses only bit 7 |
| FrameCodec.CtlRoundTrip | lib/mei/cashflow_sc.js:368-388 | Encoding any valid control record and splitting it again gives the record back |
| FrameCodec.DestructFrame | lib/mei/cashflow_sc.js:390-410 | Gives a record exactly when the packet has at least 3 bytes and its length byte equals its length. The control byte is split into its fields. From five bytes on, the data lies between the control byte and ETX, and ETX and checksum are the last two bytes. Shorter packets have no data: a three-byte packet has neither ETX nor checksum, and a four-byte packet reads its last byte as ETX and has no checksum |
| FrameCodec.BuildFrameRoundTrip | lib/mei/cashflow_sc.js:426-435 | Every built frame passes validation, and destructuring it gives back the data and the new ack bit with message type "Omnibus command" |
| StatusDecoder.DestructByte0 | lib/mei/cashflow_sc.js:271-279 | Each of the seven document-state flags is one bit of byte 0, and laying the flags out again clears only bit 7 |
| StatusDecoder.DestructByte1 | lib/mei/cashflow_sc.js:281-289 | Each of the seven exception and cashbox flags is one bit of byte 1, and laying the flags out again clears only bit 7 |
| StatusDecoder.DestructByte2 | lib/mei/cashflow_sc.js:291-297 | The note value is bits 3..5 of byte 2 and below 8. The flags are single bits, and only bit 7 is lost |
| StatusDecoder.DestructByte3 | lib/mei/cashflow_sc.js:299-307 | Byte 3 holds six flags; the reserved bit 6 and bit 7 are dropped |
| StatusDecoder.DestructData | lib/mei/cashflow_sc.js:259-318 | Gives a status exactly when there are at least six bytes. Model number and revision are 7-bit, and encoding the result gives back the six bytes with only their reserved bits cleared |
| StatusDecoder.DecodeEncodedStatus | lib/mei/cashflow_sc.js:259-318 | Decoding the bytes of any well-formed status gives that status back |
| StatusDecoder.ParseStatus | lib/mei/cashflow_sc.js:249-257 | The result is a status whose condition holds, and no status of higher priority holds. `null` only when no condition holds |
| StatusDecoder.StandardStatusOfBytes | lib/mei/cashflow_sc.js:249-257 | For six raw bytes, each coarse status (or `null`) is reported exactly when a stated condition on the bits of bytes 0 and 1 holds |
| ExtendedDecoder.ParseInt | lib/mei/cashflow_sc.js:339 | An all-digit field reads as its decimal value; an empty field, or one starting with anything other than white space, a sign or a digit, is `NaN` |
| ExtendedDecoder.Pow10 | lib/mei/cashflow_sc.js:354 | A power of ten is positive. For exponents of 0 or more it is the integer power, and for a negative exponent it is one over the integer power of its magnitude |
| ExtendedDecoder.Pow10Inverse | lib/mei/cashflow_sc.js:354 | Powers of ten with opposite exponents multiply to 1 |
| ExtendedDecoder.SignOf | lib/mei/cashflow_sc.js:340-342 | `'+'` gives 1, `'-'` gives -1, and any other byte (or none) gives the `null` multiplier 0 |
| ExtendedDecoder.DestructExtension | lib/mei/cashflow_sc.js:336-351 | On a full extension, the code is bytes 1..3, the base is `parseInt` of bytes 4..6, the exponent is `parseInt` of bytes 8..9, the reserved slice has three bytes, and the sign comes from byte 7 |
| ExtendedDecoder.ReservedOverlapsClassification | lib/mei/cashflow_sc.js:349-350 | The first reserved byte is the banknote classification byte |
| ExtendedDecoder.Denomination | lib/mei/cashflow_sc.js:353-354 | The denomination is a number exactly when base and exponent both parse. With an unknown sign it equals the base |
| ExtendedDecoder.ParseExtended | lib/mei/cashflow_sc.js:326-362 | A subtype other than 0x02 is ignored. Subtype 0x02 with fewer than seven data bytes throws. Otherwise the status is `parseStatus` of data bytes 1..6, and a bill is reported. Its currency code is what there is of data bytes 8..10. On a full 25-byte reply the bill has the denomination of data bytes 7..24; on a shorter one, that of the data from byte 7 on |
| ExtendedDecoder.ExtendedDenomination | lib/mei/cashflow_sc.js:326-362 | End to end: for a 25-byte Extended Note Specification reply with a three-digit base and a two-digit exponent, the reported bill has code data bytes 8..10 and is worth base·10^e with `'+'` and base/10^e with `'-'` |
| ExtendedDecoder.ExtendedBillCode | lib/mei/cashflow_sc.js:337-338 | The bill's currency code is data bytes 8..10 |
| ExtendedDecoder.DenominationOfDigits | lib/mei/cashflow_sc.js:353-354 | For a three-digit base and a two-digit exponent, `'+'` gives base·10^e and `'-'` gives base/10^e |
| ExtendedDecoder.DenominationExampleFifty | lib/mei/cashflow_sc.js:353-354 | Base `005`, sign `+`, exponent `01` is the 50 note |
| ExtendedDecoder.DenominationExampleOne | lib/mei/cashflow_sc.js:353-354 | Base `010`, sign `-`, exponent `01` is the 1 note |
| ExtendedDecoder.UnknownSignKeepsBase | lib/mei/cashflow_sc.js:340-354 | With a sign byte that is neither `'+'` nor `'-'`, the denomination is the base, whatever the exponent |
| Interpreter.ParseStandard | lib/mei/cashflow_sc.js:320-324 | Always throws: on fewer than two bytes a property read on `undefined` fails, otherwise the name `destructed` is unbound |
| Interpreter.Interpret | lib/mei/cashflow_sc.js:412-424 | A packet `destructFrame` rejects throws. Message type 0b010 always throws, 0b111 is decoded as an extended reply, and every other type is ignored |
| Interpreter.OmnibusReplyNeverDecodes | lib/mei/cashflow_sc.js:419-421 | Every well-sized Omnibus reply fails to decode |
| Denominations.Bills | lib/mei/cashflow_sc.js:87-89 | The bills are the table entry of the configured currency, missing when there is no currency or no entry |
| Denominations.HasDenominations | lib/mei/cashflow_sc.js:105-107 | True exactly when the configured currency has a table entry |
| Denominations.Min | lib/mei/cashflow_sc.js:94 | The result is one of the bills and no bill is smaller |
| Denominations.Max | lib/mei/cashflow_sc.js:102 | The result is one of the bills and no bill is larger |
| Denominations.AtLeast | lib/mei/cashflow_sc.js:93 | Keeps exactly the bills worth at least the amount |
| Denominations.AtMost | lib/mei/cashflow_sc.js:100 | Keeps exactly the bills worth at most the amount |
| Denominations.LowestBill | lib/mei/cashflow_sc.js:91-96 | Without a table entry it throws. Otherwise the result is the smallest bill worth at least the amount, or the smallest bill of all when every bill is worth less |
| Denominations.HighestBill | lib/mei/cashflow_sc.js:98-103 | Never throws. Without a table entry the result is negative infinity. Otherwise it is the largest bill worth at most the amount, and negative infinity exactly when every bill is worth more |
| Controller.Initial | lib/mei/cashflow_sc.js:10-21 | A new driver has an empty buffer, ack bit 0, no denomination enabled, no currency and no status |
| Controller.SetFiatCode | lib/mei/cashflow_sc.js:41-43 | Only the currency changes |
| Controller.Payload | lib/mei/cashflow_sc.js:211-247 | The three command bytes carry the mask, with escrow mode and extended note reporting on. Stack sets the document-stack bit and reject the document-return bit; poll sets neither. Interrupt mode and high security are always on and bit 7 is clear. Orientation control is 0b10 for a poll and 0b11 otherwise, so the mode byte is 0x1b, 0x3f or 0x5f |
| Controller.Transmit | lib/mei/cashflow_sc.js:206-209 | Exactly one frame is written. It starts with STX and the control byte `0x10` with the flipped ack bit, validates, and destructures to the command bytes; nothing else changes |
| Controller.Send | lib/mei/cashflow_sc.js:79-85 | `_poll`, `reject` and `stack` each write one frame: STX, the control byte `0x10` with the flipped ack bit, and their command with the current mask, in a frame that validates |
| Controller.Run | lib/mei/cashflow_sc.js:109-115 | The first command after opening is a poll with every denomination disabled, whatever the mask |
| Controller.Enable | lib/mei/cashflow_sc.js:69-72 | Enables all seven denominations and then sends a poll that carries mask 0x7f |
| Controller.Disable | lib/mei/cashflow_sc.js:74-77 | Disables every denomination and then sends a poll that carries mask 0x00 |
| Controller.React | lib/mei/cashflow_sc.js:164-188 | A repeated status does nothing. A new status is stored first. A bill read in the configured currency emits bill accepted then bill read. Otherwise it sends exactly one reject frame, flips the ack bit and emits nothing. A bill valid with a missing or zero denomination is silent. Any other status is emitted as itself |
| Controller.Parse | lib/mei/cashflow_sc.js:161-188 | Fails exactly when validation or decoding throws. An ignored reply changes nothing. It never touches buffer, mask or currency, and never announces a bill in another currency |
| Controller.ParseIdempotent | lib/mei/cashflow_sc.js:166-168 | Delivering the same reply a second time has no effect at all |
| Controller.SendAll | lib/mei/cashflow_sc.js:206-209 | A run of commands writes one frame per command, emits nothing, and changes only the ack bit |
| Controller.SendAllFrame | lib/mei/cashflow_sc.js:426-435 | The k-th frame of a run carries the k-th command and the ack bit after k+1 flips |
| Controller.AckAlternates | lib/mei/cashflow_sc.js:429 | The ack bit alternates: after an even number of frames it is back to its start value, after an odd number it is flipped |
| Reassembler.AcquireSync | lib/mei/cashflow_sc.js:190-200 | The result is the suffix of the buffer from its first STX on. The dropped prefix holds no STX, and a non-empty result starts with STX |
| Reassembler.AcquireSyncSkipsGarbage | lib/mei/cashflow_sc.js:190-200 | Bytes without STX in front of the stream make no difference to the resync |
| Reassembler.AcquireSyncIdempotent | lib/mei/cashflow_sc.js:190-200 | Resyncing a resynced buffer changes nothing |
| Reassembler.TakeCount | lib/mei/cashflow_sc.js:142-143 | A packet takes as many bytes as its size byte says. Only the corrected reassembler turns a size of 0 into 1 |
| Reassembler.Extract | lib/mei/cashflow_sc.js:134-143 | Waits exactly while the size byte or some announced byte is missing. Otherwise packet and rest split the buffer, and the packet has the announced size |
| Reassembler.ProcessOnce | lib/mei/cashflow_sc.js:126-151 | A lone ENQ on an empty buffer is answered with a poll. Otherwise the buffer is what remains of the resynced stream after the packet. A failed decode changes only the buffer and retries on the data minus its first byte |
| Reassembler.Settle | lib/mei/cashflow_sc.js:134-150 | Waiting leaves the synced driver as it is; otherwise the buffer is the rest after the packet and failures only schedule a retry |
| Reassembler.SettleIgnoresData | lib/mei/cashflow_sc.js:145-150 | What a pass does, apart from what it retries, does not depend on the data appended |
| Reassembler.Deliver | lib/mei/cashflow_sc.js:145-150 | The retry is scheduled exactly when `_parse` throws, and then nothing but the buffer has changed |
| Reassembler.Pass | lib/mei/cashflow_sc.js:126-151 | With the corrected size, a pass that retries has consumed at least one byte of buffer and data together |
| Reassembler.Process | lib/mei/cashflow_sc.js:126-151 | The whole retry chain of one `_process` call ends. It never changes mask or currency, and never announces a bill in another currency |
| Reassembler.Feed | lib/mei/cashflow_sc.js:60 | Runs the corrected retry chain (`Process`, a size of 0 taken as 1) on each serial chunk in turn. Over any sequence of chunks, mask and currency never change and no bill in another currency is announced |
| Reassembler.DeliversWholePacket | lib/mei/cashflow_sc.js:126-151 | When the buffered and new bytes form exactly one packet that decodes, the result is `_parse` of that packet, the buffer ends empty, and nothing is retried |
| Reassembler.PassDeliversWholePacket | lib/mei/cashflow_sc.js:131-146 | The single pass over a whole packet hands exactly that packet to `_parse` |
| Reassembler.WholePacketExtracts | lib/mei/cashflow_sc.js:131-143 | A packet alone in the stream is already in sync and is cut out whole |
| Reassembler.PartialPacketWaits | lib/mei/cashflow_sc.js:134-140 | While announced bytes are missing, the driver keeps the bytes and does nothing else |
| Reassembler.SplitPacketDelivered | lib/mei/cashflow_sc.js:131-146 | A reply split across two chunks is decoded on the second chunk exactly as if it had arrived whole |
| Reassembler.ProcessWithoutRetry | lib/mei/cashflow_sc.js:145-150 | A pass that schedules no retry is the whole chain |
| Reassembler.ResyncIgnoresGarbage | lib/mei/cashflow_sc.js:131-132 | Bytes without STX ahead of a packet, buffered or arriving with it, do not change the output of the pass. The retry it schedules, if any, is on the data as handed |
| Reassembler.GarbageBeforePacketIgnored | lib/mei/cashflow_sc.js:126-151 | Over the whole retry chain, bytes without STX ahead of a packet that decodes are dropped. The result is `_parse` of that packet on an empty buffer |
| Reassembler.PassSkipsGarbage | lib/mei/cashflow_sc.js:131-146 | A pass over garbage and then a packet that decodes delivers the packet and schedules no retry |
| Reassembler.GarbageIsDropped | lib/mei/cashflow_sc.js:190-200 | Bytes without STX ahead of a packet vanish on resync |
| Reassembler.ZeroSizeStallsAsWritten | lib/mei/cashflow_sc.js:137-150 | As written, once the buffer starts `02 00` every pass fails, emits and sends nothing, keeps the header and retries. With no data the pass reschedules itself unchanged |
| Reassembler.StallingReplyFails | lib/mei/cashflow_sc.js:320-324 | The Omnibus reply `02 0B 20 02 00 00 00 00 00 03 29` is a valid packet that does not decode |
| Reassembler.StallingReplyCuts | lib/mei/cashflow_sc.js:131-143 | As written, that reply is cut whole, and its tail resyncs onto `02 00` and yields an empty packet |
| Reassembler.StallingReplyStallsAsWritten | lib/mei/cashflow_sc.js:126-151 | As written, that reply on an empty buffer leaves the driver with a buffer starting `02 00` and a retry pending |
| Reassembler.OmnibusReplyStallsAsWritten | lib/mei/cashflow_sc.js:126-151 | As written, any Omnibus reply on an empty buffer fails to decode. When its tail resyncs onto a `02 00` pair, the retry leaves the buffer starting with that size-0 header and retries again |
| Reassembler.OmnibusFirstPass | lib/mei/cashflow_sc.js:131-150 | As written, an Omnibus reply alone on an empty buffer changes nothing and retries on the reply minus its STX |
| Reassembler.EmptyHeaderPass | lib/mei/cashflow_sc.js:131-150 | As written, data that resyncs onto a size-0 header keeps the synced bytes, emits and sends nothing, and retries on the data minus its first byte |
| Reassembler.CorrectionOnlyTouchesZeroSize | lib/mei/cashflow_sc.js:142-143 | The corrected and the as-written pass agree unless the synced buffer announces size 0 |
| Reassembler.ZeroSizeSkippedWhenCorrected | lib/mei/cashflow_sc.js:142-149 | The corrected pass drops the STX of a size-0 header and moves on |

## Left out

- Serial port I/O is not modelled: `open`, `close`, the port options, and the connected, disconnected and error events. Frames the driver writes appear in `Output.frames`, and chunks it reads are the `data` arguments.
- The 10-second poll timer started by `run`, and `process.nextTick`, are not modelled. A retry is modelled as the next step of a sequential chain. The model therefore does not show how an endless chain of retries starves the event loop (see Findings). The bill read event follows bill accepted in the same `Output`, in the order the driver emits them.
- Console logging is not modelled. This includes the sanity line `destructFrame` prints, which does not affect the result.
- `lightOn`, `lightOff` and `monitorHeartbeat` are empty in the driver, so they are not modelled.
- `factory`, `EventEmitter` and the `config`, `device`, `serial` and `responseSize` fields are not modelled. The logic never reads `responseSize`.
- The contents of the denomination table are left out; the table is a parameter (`Denominations.Table`).
- Currency codes are compared as byte sequences. The driver compares the UTF-8 string of the three code bytes with the configured code; for ASCII codes the two agree.
- Amounts are exact reals. `BN`, and the floating point of `Math.pow` and `*`, are not modelled. `NaN` is `None`, and negative infinity is `Denominations.Bound.NegativeInfinity`.
- ExtendedDecoder.ParseInt: skips only ASCII white space before the number. The driver parses the UTF-8 decoding of the bytes, and JavaScript's `parseInt` also skips non-ASCII white space. A field such as `C2 A0 35` (a no-break space, then `5`) or `EF BB BF 35` (a byte-order mark, then `5`) therefore reads as 5 in the driver but as `NaN` in the model. UTF-8 decoding is not modelled.
- Denominations.LowestBill: requires every table entry to list at least one bill. The driver calls `_.min` of the entry, and with an empty entry `BN(undefined)` has no counterpart here.
- Reassembler.Process: models the chain of retries with the corrected packet size only. With the size as written the chain need not end (see Findings), so a single pass as written is `Reassembler.ProcessOnce` with `atLeastOne` false.
- Reassembler.Feed: runs `Reassembler.Process` on each chunk, so it too uses the corrected packet size. As written, the first chunk that stalls would be the last one processed.
- Interpreter.Interpret: when `destructFrame` returns `null`, the model reports the throw as `UndefinedProperty` and does not model the error message text.

## Findings

| source | as written | input that shows it | evidently intended | confidence | as-written member | corrected member |
|---|---|---|---|---|---|---|
| lib/mei/cashflow_sc.js:137-149 | A size byte of 0 cuts an empty packet and leaves the buffer as it was. The failed decode retries `_process(data.slice(1))`. With empty data the retry is the same call again, scheduled with `process.nextTick`. Node runs that queue to exhaustion before any I/O or timer callback, so the event loop is starved. No later serial chunk and no 10-second poll is ever processed again | Any Omnibus reply arriving as one serial chunk on an empty buffer whose bytes after the length byte first reach a 0x02 that is followed by 0x00. One case is an idle reply to an invalid command: status byte 2 is 0x02 (only "invalid command"), status byte 3 is 0x00, and bytes 0 and 1 are not 0x02. Another is `02 0B 20 02 00 00 00 00 00 03 29` (accepting, cassette removed). The reply fails to decode like every Omnibus reply, and its tail resyncs on that `02 00` pair (`Reassembler.OmnibusReplyStallsAsWritten`) | Every packet cut out of the buffer consumes at least one byte, so the retry chain always ends | high; not executed | Reassembler.ZeroSizeStallsAsWritten | Reassembler.Pass |
