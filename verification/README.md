# Minka Aire fan remote over RfCat, modelled in Dafny

`minka.py` drives an RfCat radio dongle so that it behaves like the Minka Aire
TR110A ceiling-fan remote. The program has two parts, and the model keeps
both.

**Packet encoding (pure).** Every logical bit goes on the air as a
three-pulse symbol: `010` for 0 and `110` for 1. A packet is built in four
steps:

1. Join the preamble symbol, the two jumper settings SW8 and SW9, and a
   four-symbol command.
2. Append one padding `0`, which gives 40 bits.
3. Cut the bits into 8-bit chunks and read each chunk as an unsigned byte.
4. Put five zero spacer bytes in front, which gives the 10-byte frame.

In Dafny:

- `Symbols` is the symbol alphabet, with an encoder, a decoder and their
  round trips.
- `Packet` holds the constants, the bit string, big-endian byte packing and
  unpacking with their round trips, and the frame.
- `Commands` is the command table as a partial lookup: an unknown name gives
  `None`.

**Transmission driver (imperative).** The driver works as follows:

1. `initRadio` sets the frequency, then the power (only with the max-power
   flag), then modulation, data rate, fixed packet length and sync mode.
2. `fanCmd` calls `initRadio` inside a `try`, builds the frame, and transmits
   it 8 times.
3. Its `finally` block puts the radio in idle mode and releases it.

The radio handle is the class `Rflib.RfCat`. It records every call in its
`trace` field as an `Event(call, ok)`. Each call either returns or raises, as
the device chooses (`ok :| true`), so every fault path is covered.

`InitRadio`, `FanCmdTry` and `FanCmd` are module-level methods of `Minka`
that take that handle as a parameter, as the Python functions take `d`;
`RunCommand` creates the handle and returns it. Each is proved against a specification: `StoppedAtFault` for a
straight run of planned calls that ends at the first raise, and `FanCmdRun`
for the whole try/finally. The transmit loop carries its invariants on the
transmit count.

The try/finally keeps Python's rules:

- The first raise ends the `try` block.
- `setModeIDLE` then always runs.
- If `setModeIDLE` raises, `cleanup` is skipped and that exception propagates.
- Otherwise `cleanup` runs. If it raises, its exception propagates; if not,
  the exception of the `try` block, if any, propagates.

In `RunCommand`, an exception that escapes ends the script with status 1. An
unknown command name ends it with status 2, before any radio handle exists.

The two parts are put together as follows:

- `initRadio` is one function in the source. In the model its last four
  calls are the helper method `ConfigureModem`, and `InitRadio` calls it.
- `fanCmd` is the method `FanCmd`. Its `try` block is the separate method
  `FanCmdTry`.
- The module-level `MaxPower` flag, which the script sets from `--max`, is the
  `maxPower` parameter.

OFF with the default jumpers goes out as `49 24 96 D9 64`
(`Packet.OffPayload`).

## Model

| member | source | states |
|---|---|---|
| `Symbols.Symbol` | minka.py:17 | a bit becomes one of the two symbols, and its first pulse is `1` exactly for a 1 bit |
| `Symbols.Encode` | minka.py:17-20 | n logical bits become 3n pulse characters |
| `Symbols.Decode` | minka.py:17 | reading pulses back into bits, when it succeeds, gives one bit per three pulses |
| `Symbols.EncodeAt` | minka.py:17 | symbol k of an encoding is the symbol of bit k |
| `Symbols.EncodeIsSymbolString` | minka.py:17 | every encoding consists of whole `010`/`110` symbols and contains only `0`/`1` |
| `Symbols.DecodeEncode` | minka.py:17 | decoding gives back the bits that were encoded |
| `Symbols.EncodeDecode` | minka.py:17 | encoding gives back the pulse string that was decoded |
| `Symbols.DecodeDefined` | minka.py:17 | decoding succeeds if and only if the string is made of whole symbols |
| `Symbols.EncodeAppend` | minka.py:19-20 | encoding a concatenation is the concatenation of the encodings, so symbol strings can be joined |
| `Symbols.SymbolStringIsBinary` | minka.py:17 | a symbol string is a binary digit string |
| `Packet.ProtocolConstants` | minka.py:21-37 | the preamble is the encoding of the single bit 0; SW8, SW9 and the six command codes are each the encoding of four bits (SW8 = 0000, SW9 = 0011, OFF = 1010, SLOW = 0010, MED = 0100, FAST = 1000, LIGHT1 = 0101, LIGHT2 = 1001) |
| `Packet.Value` | minka.py:70 | the unsigned big-endian value of a digit string, as `int(s, 2)` reads it, is below 2 to the power of its length |
| `Packet.ValueParity` | minka.py:70 | the value is even exactly when the last digit is `0` |
| `Packet.ByteValue` | minka.py:70 | an 8-digit chunk is worth 128, 64, ..., 1 per `1` digit, most significant first |
| `Packet.ValueOfToBinary` | minka.py:70 | writing a number below 2^w in w digits and reading it back gives the number |
| `Packet.ToBinaryOfValue` | minka.py:70 | reading a binary string and writing the value back in as many digits gives the string |
| `Packet.PacketBits` | minka.py:66 | the bit string is 28 bits longer than the command, carries the command at bits 27 onwards and ends in the padding `0` |
| `Packet.Payload` | minka.py:70 | a binary command of n characters gives `ceil((n + 28) / 8)` packet bytes |
| `Packet.Frame` | minka.py:69-70 | the frame is five bytes longer than the payload and opens with five zero bytes |
| `Packet.Pack` | minka.py:70 | `ceil(n/8)` bytes for n bits; byte k is the value of bits 8k up to 8k+8, or up to the end for a short last chunk |
| `Packet.Unpack` | minka.py:70 | each byte spelled as 8 binary digits |
| `Packet.UnpackPack` | minka.py:70 | for a binary string whose length is a multiple of 8, unpacking the packed bytes gives it back |
| `Packet.PackUnpack` | minka.py:70 | packing the spelled-out bytes gives the bytes back |
| `Packet.ConstantsAreBinary` | minka.py:66 | the bit string of any binary command contains only `0`/`1` |
| `Packet.PacketBitsShape` | minka.py:66 | for a four-symbol command the bit string has 40 bits: 13 symbols that decode to the preamble bit, SW8, SW9 and the command, then the padding `0` |
| `Packet.PayloadShape` | minka.py:66-70 | the payload has exactly 5 bytes; byte k is the value of bits 8k..8k+8 with no short chunk; unpacking returns the 40-bit string; the last byte is even |
| `Packet.FrameShape` | minka.py:69-70 | the frame has `PktLen` = 10 bytes: five zero bytes, then the payload |
| `Packet.HeaderBits` | minka.py:66 | every command's bit string opens with the same 24 bits |
| `Packet.HeaderBytes` | minka.py:66-70 | for every command the first three payload bytes are `49 24 96` |
| `Packet.OffCommandBytes` | minka.py:66-70 | the OFF payload has 5 bytes and ends in `D9 64` |
| `Packet.OffPayload` | minka.py:66-70 | OFF with the default jumpers goes out as `49 24 96 D9 64` |
| `Commands.Lookup` | minka.py:39-45 | a name is found if and only if it is one of off, slow, medium, fast, light, light1, light2, and what is found is one of the six command codes; an unknown name gives `None` |
| `Commands.CommandNames` | minka.py:43-44 | `light` and `light1` send the same code, LIGHT1 |
| `Commands.CommandsAreSymbols` | minka.py:30-37 | each of the six command codes is made of whole symbols |
| `Commands.CommandCodes` | minka.py:39-45 | every code in the table is four symbols, twelve characters |
| `Rflib.RfCat.constructor` | minka.py:94 | a new radio handle has seen no calls |
| `Rflib.RfCat.Perform` | minka.py:51-76 | a radio call appends itself and whether it returned to the trace, and changes nothing else |
| `Rflib.RfCat.SetFreq` | minka.py:51 | records one setFreq call with the given frequency and whether it returned |
| `Rflib.RfCat.SetMaxPower` | minka.py:54 | records one setMaxPower call and whether it returned |
| `Rflib.RfCat.SetMdmModulation` | minka.py:55 | records one setMdmModulation call with the given modulation and whether it returned |
| `Rflib.RfCat.SetMdmDRate` | minka.py:56 | records one setMdmDRate call with the given rate and whether it returned |
| `Rflib.RfCat.MakePktFLEN` | minka.py:57 | records one makePktFLEN call with the given length and whether it returned |
| `Rflib.RfCat.SetMdmSyncMode` | minka.py:58 | records one setMdmSyncMode call with the given mode and whether it returned |
| `Rflib.RfCat.RFxmit` | minka.py:73 | records one RFxmit call with the given data and whether it returned |
| `Rflib.RfCat.SetModeIDLE` | minka.py:75 | records one setModeIDLE call and whether it returned |
| `Rflib.RfCat.Cleanup` | minka.py:76 | records one cleanup call and whether it returned |
| `Minka.ConfigPlan` | minka.py:50-58 | initRadio makes 6 calls with the max-power flag and 5 without, starting with setFreq(Freq) and ending with the four modem settings; setMaxPower is among them exactly when the flag is set; none is a transmission, setModeIDLE or cleanup |
| `Minka.Plan` | minka.py:63-73 | the try block's calls when nothing raises: the configuration calls, then Repeats = 8 transmissions of the frame |
| `Minka.LastFault` | minka.py:62-76 | no exception escapes if and only if every radio call returned; an escaping exception is one that some call raised |
| `Minka.ConfigureModem` | minka.py:55-58 | modulation, data rate, packet length and sync mode are set in order, stopping at the first that raises, whose exception propagates |
| `Minka.InitRadio` | minka.py:50-58 | the trace grows by a prefix of the configuration plan (setMaxPower only with the flag) that stops only at a raise, and that exception propagates |
| `Minka.FanCmdTry` | minka.py:62-73 | configuration, then 8 transmissions of the frame, stopping at the first raise; the loop keeps the run a prefix of config plus i transmissions that stops only at a raise |
| `Minka.FanCmd` | minka.py:61-76 | the new trace is a run of the try block followed by setModeIDLE and, unless that raised, cleanup; the outcome follows Python's try/finally rules |
| `Minka.RunCommand` | minka.py:89-96 | an unknown name gives status 2 and no radio handle; otherwise a fresh handle runs fanCmd, with status 0 if no call raised and 1 otherwise |
| `Minka.OutcomeIsLastFault` | minka.py:62-76 | the exception fanCmd propagates is the one raised last |
| `Minka.FaultPropagates` | minka.py:62-76 | fanCmd returns normally if and only if no radio call raised |
| `Minka.SuccessfulRun` | minka.py:50-76 | on a normal return the calls are exactly the configuration, then 8 transmissions of the frame, then setModeIDLE, then cleanup, and all of them returned |
| `Minka.FinallyRuns` | minka.py:74-76 | setModeIDLE runs exactly once on every path; cleanup runs once if setModeIDLE returned and never if it raised |
| `Minka.FinallyLast` | minka.py:74-76 | the last call is setModeIDLE or cleanup, and no planned call comes after setModeIDLE |
| `Minka.NothingAfterFault` | minka.py:62-76 | after a call raises, only setModeIDLE and cleanup follow: no more configuration and no more transmissions |
| `Minka.TransmissionBounds` | minka.py:72-73 | every transmission carries the one frame, and there are at most 8 |
| `Minka.ConfiguredBeforeTransmit` | minka.py:63-73 | a transmission comes only after the whole configuration plan has run, in order, with every call returning |

## Left out

- The internals of `rflib.RfCat` are not modelled: RF emission, frequency synthesis, power level and hardware timing. Each radio call is a trace entry that returns or raises.
- Command-line parsing, logging and the one-second `time.sleep` have no effect on the encoded data and are not modelled.
- `--sw8` and `--sw9` are parsed but never used: `fanCmd` always sends the built-in SW8 and SW9, and so does the model.
- Pulse duration and baud-rate physics are timing concerns and are not modelled.
- Minka.FanCmd: the command must be a string of `0`/`1`, as every value in the table is (`Commands.CommandCodes`). For other strings `int(…, 2)` would raise, or would accept Python's underscores and whitespace; that is not modelled.
- Minka.RunCommand: creating the radio handle always succeeds, and exceptions other than those of radio calls (such as an interrupt) are not modelled.
- Exception types and messages are not modelled: an exception is identified by the radio call that raised it.
- Timing between calls (wall-clock time) is not modelled; only the order of calls is.
