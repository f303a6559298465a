# RCSwitch in Dafny

A model of `RCSwitch.cpp`, the library that drives 315/433 MHz remote
power outlets. It sends and receives fixed-timing RF codes.

- **Transmit side.** A code word is sent as pairs of high/low pulses, `nRepeatTransmit` times. Each pulse is a multiple of a protocol's pulse length.
- **Receive side.** An interrupt handler records the durations between edges. It detects the long gap between two repetitions. On the second similar gap it decodes the buffered run against each catalog protocol, and it publishes a value only when the same bit string was decoded twice.

The model follows the source's own form: its parts are imperative, and so is the model.

- **`RCSwitch` (transmitter) and `ReceiverState` (receiver statics).** Classes whose methods update their fields. Each method is proved against a specification function of the old state.
- **Code-word builders.** Imperative methods proved equal to 12-symbol word functions. The word functions state the layout by their definitions; lemmas give the null cases and injectivity.
- **Decoder.** A function of the buffered durations, with lemmas about its shape and its tolerance window. Round-trip lemmas show that the handler, fed the edges of two back-to-back repetitions, buffers a run that decodes back to the word that was sent. This holds when the long stop half is above the 3500 µs separation limit and every other pulse is at or below it.

Modules, one per file:

| file | module | what it holds |
|---|---|---|
| width.dfy | `Width` | 32-bit `unsigned` arithmetic (`u32`, `U32`, `Int32`) and arithmetic lemmas |
| protocols.dfy | `Protocols` | the seven-protocol catalog `proto[]` and its shape |
| tristate.dfy | `TriState` | binary strings, MSB-first bit extraction, the tri-state 2-bit encoding |
| codewords.dfy | `CodeWords` | `getCodeWordA` .. `getCodeWordD` |
| wrappers.dfy | `Wrappers` | `Option`, for the builders' null pointer |
| cstring.dfy | `CStrings` | C strings: a character buffer read up to its first NUL |
| pulses.dfy | `Pulses` | the pin trace of (level, microseconds) pulses |
| transmitter.dfy | `Transmitter` | the `RCSwitch` object: configuration, `transmit`, the three `send`s, receiver switches |
| decoder.dfy | `Decoder` | `diff` and the decoding arithmetic of `receiveProtocol` |
| receiver.dfy | `Receiver` | `receiveProtocol`'s debounce, `handleInterrupt`, the receiver object |
| loopback.dfy | `Loopback` | transmitter against receiver: a sent word decodes back to itself |

Constants:

- `RCSWITCH_MAX_CHANGES` is 67, the library header's default. The header is not part of this model. The bit-string buffers hold 34 characters.
- `nSeparationLimit` is 3500 (RCSwitch.cpp:109).
- The gap-similarity bound is 200 (RCSwitch.cpp:746).
- `unsigned int`, `unsigned long` and `int` are 32 bits. Stores into unsigned variables are reduced modulo 2^32, and `diff(int, int)` reads its unsigned arguments as two's complement.

## Model

| member | source | states |
|---|---|---|
| `Protocols.CatalogWellFormed` | RCSwitch.cpp:78-84 | the table has `numProto` = 7 entries, each with a positive pulse length, nonzero data and stop halves, a start sync that is absent or complete, and "0" different from "1" |
| `Protocols.ProtocolNo` | RCSwitch.cpp:647-651 | `proto[p-1]` for `1 <= p <= numProto` is well formed, and its sync length in pulses (the divisor of the unit delay) is positive |
| `Transmitter.RCSwitch.constructor` | RCSwitch.cpp:121-135 | no transmitter pin and no interrupt, 10 repeats, protocol 1, tolerance 60, published value 0, bit string cleared, nothing on the pin |
| `Receiver.ReceiverState.constructor` | RCSwitch.cpp:101-118 | the statics start at zero (all 67 `timings` too) and the receiver disabled, with tolerance 60 and empty bit strings |
| `Transmitter.RCSwitch.SetProtocol` | RCSwitch.cpp:140-142 | the protocol becomes the one given |
| `Transmitter.RCSwitch.SetProtocolNumber` | RCSwitch.cpp:147-156 | a number in 1..numProto loads `proto[n-1]`; any other number loads protocol 1 |
| `Transmitter.RCSwitch.SetProtocolWithPulseLength` | RCSwitch.cpp:161-164 | the numbered protocol (protocol 1 when out of range) with its pulse length replaced |
| `Transmitter.RCSwitch.SetPulseLength` | RCSwitch.cpp:170-172 | only the protocol's pulse length changes |
| `Transmitter.RCSwitch.SetRepeatTransmit` | RCSwitch.cpp:177-179 | the repeat count becomes the one given |
| `Receiver.ReceiverState.SetReceiveTolerance` | RCSwitch.cpp:185-187 | the tolerance percentage becomes the one given; nothing else changes |
| `Transmitter.RCSwitch.EnableTransmit` | RCSwitch.cpp:196-199 | the transmitter pin is remembered |
| `Transmitter.RCSwitch.DisableTransmit` | RCSwitch.cpp:204-206 | the transmitter pin becomes -1 |
| `CodeWords.CodeWordA` | RCSwitch.cpp:319-336 | a type A word has 12 tri-state symbols, and its two status symbols differ |
| `CodeWords.GetCodeWordA` | RCSwitch.cpp:319-336 | the position-by-position fill gives the type A word: each DIP position '0' as 'F', any other as '0', then "0F" for on and "F0" for off |
| `CodeWords.CodeWordAInjective` | RCSwitch.cpp:319-336 | different DIP settings (written in '0'/'1') or states give different type A words |
| `CodeWords.CodeWordB` | RCSwitch.cpp:355-379 | a word exists exactly when address and channel are both in 1..4, and then it has 12 tri-state symbols |
| `CodeWords.GetCodeWordB` | RCSwitch.cpp:355-379 | null out of range; otherwise '0' at position address-1 among four 'F', the same for the channel, "FFF", then 'F' for on and '0' for off |
| `CodeWords.CodeWordBInjective` | RCSwitch.cpp:355-379 | different addresses, channels or states give different type B words |
| `CodeWords.CodeWordC` | RCSwitch.cpp:384-413 | a word exists exactly for a family in 'a'..'p' and group and device in 1..4, and then it has 12 tri-state symbols |
| `CodeWords.GetCodeWordC` | RCSwitch.cpp:384-413 | null out of range; otherwise the family in four bits, device-1 and group-1 in two bits each (low bit first, a set bit is 'F'), "0FF", then 'F' for on and '0' for off |
| `CodeWords.BitFieldInjective` | RCSwitch.cpp:394-403 | a field of n bits pins a value below 2^n |
| `CodeWords.CodeWordCInjective` | RCSwitch.cpp:384-413 | different families, groups, devices or states give different type C words |
| `CodeWords.CodeWordD` | RCSwitch.cpp:434-461 | a word exists exactly for a group letter a..d or A..D and a device in 1..3, and then it has 12 tri-state symbols |
| `CodeWords.GetCodeWordD` | RCSwitch.cpp:434-461 | null out of range; otherwise one '1' among four 'F' for the group, one '1' among three 'F' for the device, "000", then "10" for on and "01" for off |
| `CodeWords.CodeWordDInjective` | RCSwitch.cpp:434-461 | different groups (up to letter case), devices or states give different type D words |
| `TriState.Bits` | RCSwitch.cpp:522-538 | `n` characters, all '0'/'1', character k being bit n-1-k of the code: MSB first |
| `TriState.BitsValueOfBits` | RCSwitch.cpp:522-538 | reading the MSB-first string of a code back as a number gives its low `n` bits |
| `TriState.BitsOfBitsValue` | RCSwitch.cpp:522-538 | writing out the value of a binary string MSB first reproduces the string |
| `TriState.BitsValueInjective` | RCSwitch.cpp:522-538 | two binary strings of one length with one value are equal |
| `TriState.BitsDetermineValue` | RCSwitch.cpp:532-533 | two values below 2^n that agree on each tested bit `code & (1L << i)` are equal |
| `TriState.BinaryString` | RCSwitch.cpp:527-538 | the bit loop, with '0'/'1' characters stored, fills the buffer with the MSB-first string of the low `length` bits |
| `TriState.BinaryBufferAsWritten` | RCSwitch.cpp:531-538 | the buffer as the source fills it: `length` bytes, none of them the character '0' or '1', and a byte is NUL exactly where its bit is clear |
| `TriState.TriStateBits` | RCSwitch.cpp:470-486 | a word of n symbols stands for 2n bits |
| `TriState.TriStateBitsConcat` | RCSwitch.cpp:470-486 | the bit pattern of a word is the concatenation of its symbols' patterns |
| `TriState.PairValue` | RCSwitch.cpp:472-484 | '0' contributes 00, 'F' 01, '1' 11, and any other symbol 00 |
| `TriState.TriStateStep` | RCSwitch.cpp:471-484 | one shift by two and OR of the pattern on a 32-bit code appends the symbol's two bits |
| `TriState.TriStateEncode` | RCSwitch.cpp:466-486 | the loop leaves length = 2n (mod 2^32) and code = the MSB-first value of the symbols' 2-bit patterns (mod 2^32) |
| `TriState.TriStateRoundTrip` | RCSwitch.cpp:466-487 | up to 16 symbols fit the 32-bit code, and its 2n-bit string is exactly the word's bit pattern |
| `TriState.TriStateCodeKeepsLast16` | RCSwitch.cpp:468-486 | beyond 16 symbols only the last 16 survive in the code |
| `TriState.BitsValueBound` | RCSwitch.cpp:686-698 | n decoded bits have a value below 2^n |
| `TriState.BitsValueConcat` | RCSwitch.cpp:686-698 | appending bits shifts the value of the prefix |
| `TriState.ShiftInBit` | RCSwitch.cpp:687-698 | one shift by one (and OR of 1 for a one) on a 32-bit code appends the bit to the string whose value it holds |
| `TriState.DropHighPart` | RCSwitch.cpp:686-698 | only the last 32 decoded bits survive in the 32-bit code |
| `Pulses.Repeated` | RCSwitch.cpp:504-511 | n repetitions are n times as long as one |
| `CStrings.CStringShape` | RCSwitch.cpp:506 | the string `for (p = word; *p; p++)` walks is a NUL-free prefix of the buffer, ended by a NUL or the buffer's end |
| `CStrings.CStringOfString` | RCSwitch.cpp:506 | a buffer without NUL is all string |
| `CStrings.CStringAt` | RCSwitch.cpp:506 | the loop stops at index `i` exactly when the string has `i` characters |
| `CStrings.CStringConcat` | RCSwitch.cpp:506 | a buffer whose first part holds a NUL is read only up to it; otherwise the read runs on into the rest |
| `Pulses.WordPulsesConcat` | RCSwitch.cpp:506-509 | the pulses of a concatenated word are the two words' pulses in order |
| `Pulses.WordPulsesCons` | RCSwitch.cpp:506-509 | the first character's pulses come first |
| `Pulses.NoDataPulses` | RCSwitch.cpp:507-508 | characters other than '0' and '1' send nothing |
| `Pulses.Durations` | RCSwitch.cpp:549-556 | one duration per pulse |
| `Pulses.TwoRepetitions` | RCSwitch.cpp:504-511 | the durations of two repetitions are one repetition's durations twice |
| `Pulses.PairTraceConcat` | RCSwitch.cpp:545-557 | pair traces (alternating, first level to second level) concatenate into a pair trace |
| `Pulses.FullPair` | RCSwitch.cpp:545-557 | a pattern with both halves nonzero is two pulses of opposite levels, lasting pulseLength × factor each |
| `Pulses.WordPairTrace` | RCSwitch.cpp:506-509 | a '0'/'1' word under a well-formed protocol is an alternating trace of two pulses per character |
| `Pulses.RepetitionPairTrace` | RCSwitch.cpp:505-510 | start sync, data and stop sync together alternate |
| `Pulses.SendAlternates` | RCSwitch.cpp:504-511 | across repetitions too, every pulse switches the level, so the receiver sees one edge per pulse |
| `Transmitter.RCSwitch.Transmit` | RCSwitch.cpp:545-557 | appends the first half at the first level (LOW when inverted) and then the second half at the other level, each pulseLength × factor long, skipping a zero factor |
| `Transmitter.RCSwitch.Send` | RCSwitch.cpp:493-519 | without a pin nothing is sent; otherwise `nRepeatTransmit` repetitions of start sync, the C string's '0'/'1' patterns and stop sync; the interrupt number is restored, and the receiver is left on with its published value cleared when an interrupt was set, and untouched otherwise |
| `Transmitter.RCSwitch.TransmitRepeated` | RCSwitch.cpp:504-511 | the repeat loop appends `nRepeatTransmit` repetitions (none when it is not positive) |
| `Transmitter.RCSwitch.TransmitWord` | RCSwitch.cpp:505-510 | one repetition: start sync, data, stop sync |
| `Transmitter.RCSwitch.TransmitData` | RCSwitch.cpp:506-509 | the character loop appends the patterns of the characters before the first NUL |
| `Transmitter.RCSwitch.SendCode` | RCSwitch.cpp:527-540 | `send(code, length)` with the corrected buffer sends the MSB-first `length` bits of `code` |
| `Transmitter.RCSwitch.SendTriState` | RCSwitch.cpp:466-488 | (corrected) `sendTriState` of up to 16 symbols before the first NUL sends exactly their 2-bit patterns, with the receiver effects of `send` |
| `Transmitter.AsWrittenSendsNoData` | RCSwitch.cpp:527-540 | as written, the `length` bytes `send(code, length)` stores send no data pulse; when none of them is 0 (every bit set, or `length` 0), what goes out is decided by the bytes after them |
| `Transmitter.AsWrittenCounterexample` | RCSwitch.cpp:527-540 | code 2, length 2: as written only the two syncs go out, where the bits "10" and their four pulses were meant |
| `Transmitter.RepetitionLength` | RCSwitch.cpp:504-511 | one repetition of a binary word: start sync, two pulses per bit and two stop pulses |
| `Transmitter.BitsAreString` | RCSwitch.cpp:527-539 | the corrected buffer is a C string that ends where the bits end |
| `Transmitter.RCSwitch.EnableReceiveOn` | RCSwitch.cpp:564-567 | the interrupt is remembered and the receiver enabled, clearing the published value and bit length unless the interrupt is -1 |
| `Transmitter.RCSwitch.EnableReceive` | RCSwitch.cpp:569-580 | the receiver is enabled; the published value and bit length are cleared only when an interrupt is set |
| `Transmitter.RCSwitch.DisableReceive` | RCSwitch.cpp:585-591 | the interrupt becomes -1 and the handler stops |
| `Receiver.ZeroCodeLooksUnavailable` | RCSwitch.cpp:593-602 | a run decoded twice to all-'0' bits is published with the value 0, which `available()` reports as nothing received |
| `Receiver.ReceiverState.ResetAvailable` | RCSwitch.cpp:604-606 | only the published value changes, to 0 |
| `Decoder.ScanPairsShape` | RCSwitch.cpp:686-704 | the pair loop reads one '0'/'1' per visited pair; it reads every pair when it completes, and otherwise stops at the pair after its bits, which matches neither pattern |
| `Decoder.ScanPairsReads` | RCSwitch.cpp:686-698 | bit k comes from the pair at `first + 2k`: it is '0' exactly when that pair matches the zero pattern, and a '1' matches the one pattern |
| `Decoder.DecodeShape` | RCSwitch.cpp:644-704 | fewer than 8 durations are ignored; a sync mismatch needs a declared start sync; a match has one bit per pair after the start sync, the code is their MSB-first value mod 2^32, and the delay is `timings[0]` over the longer stop half |
| `Decoder.ScanReadsBelow` | RCSwitch.cpp:686-704 | the pair loop reads no duration at or beyond `changeCount` |
| `Decoder.DecodeReadsBelow` | RCSwitch.cpp:644-704 | decoding depends only on the first `changeCount` durations |
| `Decoder.ToleranceWindow` | RCSwitch.cpp:679-694 | a data half matches strictly inside the window of width tolerance around delay × factor, and a start-sync half is rejected only outside the closed window |
| `Decoder.TolerancePositiveAndBelowUnit` | RCSwitch.cpp:656-657 | with 1..100% and a pulse length that leaves slack, `delay * nReceiveTolerance / 100` is between 1 and the delay |
| `Decoder.DeviationOfIdeal` | RCSwitch.cpp:688-694 | an exact duration deviates from another factor's duration by a multiple of the unit, so by at least one unit |
| `Decoder.HalfOfIdeal` | RCSwitch.cpp:688-694 | an exact half passes the strict tolerance test for exactly its own factor |
| `Decoder.PairOfIdeal` | RCSwitch.cpp:688-698 | an exact pair matches the zero pattern exactly when it is a zero, and a one matches the one pattern: zero is tried first without stealing ones |
| `Decoder.SyncOfIdeal` | RCSwitch.cpp:679-681 | an exact start sync passes the start-sync check |
| `Decoder.ScanIdeal` | RCSwitch.cpp:686-704 | the pair loop over exact data durations reads back every bit |
| `Decoder.DataDurations` | RCSwitch.cpp:686-698 | two durations per bit |
| `Decoder.IdealRun` | RCSwitch.cpp:659-683 | the buffered run of an ideal transmission is laid out as the comment describes: gap, the optional inverted short stop half, the start sync, the data, the short stop half |
| `Decoder.IdealRunLayout` | RCSwitch.cpp:655-683 | in an ideal run the opening gap gives back the pulse length, the start sync sits at `firstDataTiming`, and the data sit where the pair loop starts |
| `Decoder.DecodeIdealRun` | RCSwitch.cpp:644-704 | round trip: the run of an ideal transmission of a bit string decodes, at any tolerance of 1..100% that leaves a microsecond of slack, to that string, its value and the pulse length |
| `Decoder.IdealBitLength` | RCSwitch.cpp:719 | the published bit length `(changeCount - 1) / 2` counts the start-sync pair as a bit |
| `Receiver.ReceivePublishesIff` | RCSwitch.cpp:644-729 | a decode publishes exactly when every pair matched and the bit string equals the remembered one, and then it publishes code, `(changeCount - 1) / 2`, delay and p |
| `Receiver.ReceiveFailureKeepsPublished` | RCSwitch.cpp:645-713 | a too-short run, a start-sync mismatch, an unmatched pair and a first sighting never change value, bit length, delay or protocol |
| `Receiver.DebounceNeedsTwoDecodes` | RCSwitch.cpp:710-721 | a new bit string is remembered and nothing is published; decoding the same run again then publishes its code |
| `Receiver.ReceiveKeepsValid` | RCSwitch.cpp:685-711 | the bit strings stay within their 34-character buffers |
| `Receiver.TryFromKeepsValid` | RCSwitch.cpp:755-760 | trying protocols one after another keeps the buffers within bounds |
| `Receiver.TryFromStopsAtFirst` | RCSwitch.cpp:755-760 | the protocol loop stops at the first protocol that publishes |
| `Receiver.TryFromStep` | RCSwitch.cpp:755-760 | one iteration of the protocol loop: stop on success, else go on with the next protocol from the updated buffers |
| `Receiver.TryFromNonePublishes` | RCSwitch.cpp:755-760 | when no protocol decodes the run, nothing published changes |
| `Receiver.AfterGap` | RCSwitch.cpp:742-765 | a gap keeps the durations, tolerance and receiver switch, and empties the run |
| `Receiver.Record` | RCSwitch.cpp:767-774 | storing a duration leaves between 1 and `RCSWITCH_MAX_CHANGES` buffered durations and does not touch the decoder's output |
| `Receiver.InterruptWhenDisabled` | RCSwitch.cpp:732 | with the receiver disabled an interrupt changes nothing |
| `Receiver.InterruptKeepsValid` | RCSwitch.cpp:731-775 | every interrupt keeps the handler's invariant; an enabled one stores the wrapped duration `time - lastTime` last and remembers `time` |
| `Receiver.InterruptAppends` | RCSwitch.cpp:737-774 | a short duration with room in the buffer is appended and nothing else changes |
| `Receiver.InterruptOverflowDiscards` | RCSwitch.cpp:767-773 | a duration that finds the buffer full restarts the run and the repeat count, and publishes nothing |
| `Receiver.InterruptGapRestarts` | RCSwitch.cpp:742-774 | every gap above the separation limit starts a new run with the gap as its first duration |
| `Receiver.InterruptUnlikeGap` | RCSwitch.cpp:742-765 | a gap 200 µs or more away from `timings[0]` is no repetition: the count and the output stay |
| `Receiver.InterruptFirstSimilarGap` | RCSwitch.cpp:746-753 | the first similar gap is counted and nothing is decoded |
| `Receiver.InterruptSecondSimilarGap` | RCSwitch.cpp:746-762 | the second similar gap decodes the run with protocols 1..numProto up to the first success, and resets the count |
| `Receiver.Feed` | RCSwitch.cpp:731-775 | the handler run once per edge keeps its invariant, the receiver switch and the tolerance |
| `Receiver.Edge` | RCSwitch.cpp:731-775 | one edge `d` microseconds after the previous keeps the invariant |
| `Receiver.EdgeAppends` | RCSwitch.cpp:737-774 | a short edge with room in the buffer appends its duration, across a wrap of the clock too |
| `Receiver.EdgeAfterGap` | RCSwitch.cpp:742-774 | a gap edge restarts the buffer with the gap's duration |
| `Receiver.FeedAppends` | RCSwitch.cpp:767-774 | short durations with room in the buffer are appended in order and nothing published changes |
| `Receiver.FeedRecordsRun` | RCSwitch.cpp:742-774 | a gap followed by at most 66 short durations leaves exactly those durations, gap first, as the run |
| `Receiver.ScanStep` | RCSwitch.cpp:686-698 | one bit of the pair loop against the decoder's scan |
| `Receiver.ScanStops` | RCSwitch.cpp:699-702 | the pair loop's failure exit against the decoder's scan |
| `Receiver.ScanEnds` | RCSwitch.cpp:686 | the pair loop's normal exit against the decoder's scan |
| `Receiver.DecodeByScan` | RCSwitch.cpp:679-704 | past the start sync the verdict is the pair loop's result |
| `Receiver.DecodeBySync` | RCSwitch.cpp:679-681 | a start-sync mismatch returns false before the bit string is touched |
| `Receiver.ReceiverState.ReceiveProtocol` | RCSwitch.cpp:644-729 | the new output fields and the result are those of the debounced decode of the buffered run |
| `Receiver.ReceiverState.ScanRun` | RCSwitch.cpp:684-704 | the pair loop builds the decoder's bit string and the 32-bit code holding its value, and fails exactly when the scan is incomplete |
| `Receiver.ReceiverState.HandleGap` | RCSwitch.cpp:742-765 | the gap branch: its new state is the gap step of the old state |
| `Receiver.ReceiverState.TryProtocols` | RCSwitch.cpp:755-760 | the protocol loop leaves the output the ordered try of protocols 1..numProto gives |
| `Receiver.ReceiverState.HandleInterrupt` | RCSwitch.cpp:731-775 | the handler keeps its invariant, and its new state is the interrupt step of the old state at `time` |
| `Loopback.SymbolDurations` | RCSwitch.cpp:507-508 | what one data character puts on the air is what the decoder expects of that bit |
| `Loopback.WordDurations` | RCSwitch.cpp:506-509 | a word's data pulses last exactly the decoder's expected data durations |
| `Loopback.Received` | RCSwitch.cpp:504-511 | one repetition's durations, rotated so that the long stop half (the gap) comes first; one duration per pulse |
| `Loopback.RepetitionDurations` | RCSwitch.cpp:504-511 | one repetition lasts start sync, data pairs and stop sync |
| `Loopback.RepetitionIsIdealRun` | RCSwitch.cpp:504-511 | one repetition, seen from gap to gap, is the decoder's ideal run at the protocol's pulse length |
| `Loopback.SentWordDecodes` | RCSwitch.cpp:493-519 | a buffer that starts with `Received` of a binary word decodes to the word, its value and the pulse length |
| `Loopback.SentCodeDecodes` | RCSwitch.cpp:527-540 | (corrected) a buffer that starts with `Received` of `send(code, length)`'s bits decodes to the same `length` bits and the same code |
| `Loopback.SentTriStateDecodes` | RCSwitch.cpp:466-488 | (corrected) a buffer that starts with `Received` of `sendTriState(word)`'s bits decodes to the word's 2-bit patterns and the code `sendTriState` computed |
| `Loopback.IdealRunGaps` | RCSwitch.cpp:742 | under the gap bounds an ideal run opens with a duration above the separation limit and holds no other |
| `Loopback.ReceivedIsWindow` | RCSwitch.cpp:504-511 | `Received` is the stretch of two back-to-back repetitions from the first one's long stop half up to the second one's |
| `Loopback.HandlerBuffersRepetition` | RCSwitch.cpp:731-775 | from any enabled state, the handler fed the edges of that stretch holds exactly `Received` as its run, when the gap bounds hold and a repetition fits the buffer |
| `Loopback.HandlerRunDecodes` | RCSwitch.cpp:644-775 | round trip through the handler: the run it holds when the second gap arrives decodes, at its tolerance, to the sent word, its value and the pulse length |
| `Loopback.NominalGapBounds` | RCSwitch.cpp:78-109 | at its nominal pulse length every protocol but protocol 4 keeps the gap bounds |
| `Loopback.Protocol1ReportedAsProtocol1` | RCSwitch.cpp:755-760 | an ideal protocol-1 run whose bits were decoded before is published by the protocol loop as protocol 1, with its value and pulse length |

## Left out

- Hardware, `pinMode`, `digitalWrite` and `delayMicroseconds`: the pin is the trace `output` of (level, microseconds) pulses. `micros()` is the `time` parameter of `HandleInterrupt`.
- `attachInterrupt`, `detachInterrupt` and `wiringPiISR`: only their effect on `nReceiverInterrupt` and on the `EnableReceiver` flag is kept.
- The mutex and condition variable (RCSwitch.cpp:594-600, 715-726): blocking and signalling are concurrency. `available()` is `nReceivedValue != 0`.
- Concurrency in general: the handler is a method called between the object's other operations. An interrupt cannot arrive in the middle of a `send`.
- PROGMEM and `memcpy_P`: `proto[]` is the constant sequence `Catalog`.
- The `switchOn`/`switchOff` wrappers (RCSwitch.cpp:214-312): they forward a builder's word to `sendTriState`.
- `available()` and the getters (RCSwitch.cpp:593-634): they read the receiver's fields. `Available()` is `nReceivedValue != 0`; the model reads `rx`'s other fields, and `Out()` collects them.
- The static buffers the builders return, and their aliasing between calls: each builder returns a fresh value, or `None` for null.
- The receiver statics are one `ReceiverState` object that the `RCSwitch` object holds as `rx`. Sharing among several `RCSwitch` objects means giving them the same object.
- `Receiver.ReceiverState.constructor` also sets up the static initialisers. Beyond the tolerance, the RCSwitch constructor clears only `nReceivedValue` and `nReceiveBinString` (RCSwitch.cpp:128-129), and `Transmitter.RCSwitch.constructor` states exactly that.
- The loops of `receiveProtocol`, `handleInterrupt` and `send` are separate methods: `ScanRun`, `TryProtocols`, `TransmitRepeated`, `TransmitWord` and `TransmitData`. Each loop's frame then names only what it changes.
- `sendTriState` and `send(const char*)` take the word's characters. A buffer with a NUL is a `seq<char>` read up to the NUL (`CString`).
- `TriState.TriStateEncode` takes the characters before the NUL as `w`.
- `Transmitter.RCSwitch.SendCode`: requires `length <= 32`. `1L << i` for `i >= 32` is undefined behaviour in C on this target. The stack buffer holds 34 characters.
- `Transmitter.RCSwitch.SendTriState`: requires at most 16 symbols, so the code fits 32 bits and the buffer of `send(code, length)`. Longer words are covered, at the level of the code only, by `TriState.TriStateCodeKeepsLast16`.
- `diff` takes the exact distance `|A - B|`. An `A - B` that overflows `int` is undefined behaviour in C and is not modelled.
- The field widths of `Protocol` and `HighLow` come from the header, which is not part of this model. Pulse counts are `nat`, and `WellFormed` bounds them by 255. The pulse length is an `int`. The products `pulseLength * factor` in `transmit` are exact.
- The round-trip lemmas (`Decoder.DecodeIdealRun`, `Loopback.SentWordDecodes` and the lemmas after it) assume exact timings, a pulse length below 2^22 and at least 3 bits. Jitter is not modelled; `Decoder.ToleranceWindow` says how much the decoder accepts.
- `Loopback.SentWordDecodes`, `Loopback.SentCodeDecodes` and `Loopback.SentTriStateDecodes` are about a buffer holding `Received`. That the handler holds it is proved only under `GapBounds` (`Loopback.HandlerBuffersRepetition`), which protocol 4 fails at its nominal pulse length.
- `Loopback.HandlerRunDecodes` stops at the decode of the buffered run. The debounce across two such runs is stated separately (`Receiver.DebounceNeedsTwoDecodes`).
- `ReceiveProtocol` and `TryProtocols` require `changeCount <= RCSWITCH_MAX_CHANGES`. The handler never passes more.
- The commented-out old protocol table and the `printf` lines.

## Findings

| source | as written | input that shows it | evidently intended | confidence | as-written member | corrected member |
|---|---|---|---|---|---|---|
| RCSwitch.cpp:527-540 | `send(code, length)` stores the numbers 1 and 0 (`sendBinString[j]=1`) instead of the characters '1' and '0'. It writes no terminator either, so `send(const char*)` stops at the first 0 byte or reads past the buffer. The bytes it writes are neither '0' nor '1', so they send no data pulse. When none of them is 0, `send` reads on past them into bytes the function never wrote, and the behaviour is undefined. | code = 2, length = 2: the buffer holds 1, 0; a repetition sends the start and stop syncs only | a 0-terminated buffer of the characters '1'/'0', MSB first ("10" for this input). Each repetition then carries four data pulses, as the doc comment at RCSwitch.cpp:522-526 describes | not executed | `Transmitter.AsWrittenCounterexample` | `TriState.BinaryString` |

`Transmitter.AsWrittenSendsNoData` generalises the counterexample to the bytes written, for every code. `TriState.BinaryBufferAsWritten` models the buffer as written.

The rest of the model uses the corrected buffer:

- `Transmitter.RCSwitch.SendCode` sends it;
- `Transmitter.RCSwitch.SendTriState` goes through `SendCode`, since `sendTriState` calls `send(code, length)` (RCSwitch.cpp:487);
- `Loopback.SentCodeDecodes` and `Loopback.SentTriStateDecodes` prove their round trips through the receiver.

Smaller observations, in the model but not findings:

- **`getCodeWordD` (RCSwitch.cpp:449).** It writes one '1' among 'F's for both fields. Its comment table at RCSwitch.cpp:423 lists the devices as 0FF/F0F/FF0. The model follows the code.
- **Bit length of protocol 7.** `(changeCount - 1) / 2` counts the start-sync pair of protocol 7 as a data bit (`Decoder.IdealBitLength`).
- **Protocol 4's gap.** Its stop sync at the nominal pulse length lasts 6 × 380 = 2280 µs. That is below the 3500 µs separation limit, so the handler does not see its repetitions as separated by gaps (`Loopback.NominalGapBounds`).
