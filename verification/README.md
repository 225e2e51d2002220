# Lighting Node Pro command encoder, modelled in Dafny

`LNP.cs` drives a Corsair Lighting Node Pro, a USB-HID controller for two
channels of addressable RGB LEDs. Each command allocates a zero-initialised
report buffer and sets a few bytes: byte 0 is the report id (0), byte 1 the
opcode, and the rest is a fixed payload. It then writes the report to the
device. Every command except the two version queries follows the same
confirmation rule: when the process-wide `CheckReplyConfirm` switch is on,
the command also reads one reply per report and accepts it only if the
reply's byte 0 is 0. The two version queries always read one reply, whatever
the switch says, and do not look at its byte 0.

The commands are:

- the version queries `[0,0x02]` and `[0,0x06]`;
- commit/acknowledge `[0,0x33,0xFF]`;
- channel reset `[0,0x37,ch]`;
- demo configuration (8 bytes, opcode 0x35, clamped arguments);
- demo on/off `[0,0x39,ch,0x64|0]`;
- manual/demo mode `[0,0x38,ch,2|1]`;
- the reserved `[0,0x34,ch,0]`;
- the colour writer `SetLEDColor`;
- its chunker `SetLEDColorRange`.

`SetLEDColor` validates its arguments before writing anything. It then reuses
one `6+ledcount` byte buffer for three writes: one per colour plane (red,
green, blue). Byte 5 holds the plane number and byte 6+j holds that plane's
byte of `color[ledindex+j]`. `SetLEDColorRange` cuts a colour array into
chunks of at most 50 LEDs and makes one `SetLEDColor` call per chunk. It stops
at the first call that does not succeed.

The model has these parts:

- **Device as a trace.** The device is `Transport.HidDevice`. It records every
  report written as a `seq<seq<byte>>` and counts the replies read. A constant
  oracle `reply: nat -> bv8` gives byte 0 of the k-th reply.
- **Commands as methods.** The commands are methods of the class
  `LnpCommands.Lnp`. Each builds its buffer in an `array<byte>` byte by byte,
  as the source does, and appends to the trace. `CheckReplyConfirm` becomes
  the `confirm` parameter.
- **Specification functions.** Each method is proved against a pure function:
  - `Packets.Encode` gives a command's report;
  - `Exchange.Single` and `Exchange.SendAll` give the write-and-confirm
    traffic;
  - `ColorWrites.SetLedColorRun` and `ColorWrites.RangeRun` give the whole
    traffic and outcome of the two colour operations.
- **Proved properties.** The lemmas state what these operations guarantee:
  - the packet layouts;
  - the validation before any write;
  - the stop at the first rejected reply;
  - how chunks cover the LED positions;
  - no rollback after a failed chunk;
  - absolute addressing of the colour array.
- **Exceptions.** C# exceptions become the outcome `Threw(IndexOutOfRange)` or
  `Threw(NullReference)`. The commands with no null check dereference
  `device`, so on a null device they end as `Threw(NullReference)`.

## Model

| member | source | states |
|---|---|---|
| Bytes.ByteOf | LNP.cs:226-228 | the unchecked `(byte)` cast keeps `x` modulo 256, and is the identity on 0..255 |
| Bytes.ToArgb | LNP.cs:234 | `Color.ToArgb()`: alpha, red, green, blue packed as 0xAARRGGBB |
| Bytes.PlaneByte | LNP.cs:234 | the writer's extraction `(argb >> 8*(2-plane)) & 0xFF` for plane 0, 1, 2 |
| Bytes.ArgbPlanes | LNP.cs:234 | the shifts 16, 8, 0 of `ToArgb` select red, green and blue |
| Bytes.PlaneValue | LNP.cs:234 | the value written for plane 0, 1, 2 is the colour's red, green, blue byte |
| Packets.Encode | LNP.cs:104-382 | every report starts with report id 0 and the opcode, then the builder's bytes: `[0,0x02]` (104-105), `[0,0x06]` (128-129), `[0,0x33,0xFF]` (170-172), `[0,0x32,ch,ledindex,ledcount,plane]`+values (224-231), `[0,0x37,ch]` (261-263), the 8-byte 0x35 demo configuration (289-294), `[0,0x39,ch,0x64 or 0]` (314-317), `[0,0x38,ch,2]` (338-341), `[0,0x38,ch,1]` (361-364), `[0,0x34,ch,0]` (379-382) |
| Packets.DecodeEncode | LNP.cs:104-382 | every well-formed command of the ten layouts is recovered from its report by the model-side inverse `Decode` |
| Packets.EncodeDecode | LNP.cs:104-382 | a byte string the model-side inverse `Decode` accepts is exactly the report of the decoded command |
| Packets.EncodeInjective | LNP.cs:337-374 | two different commands never produce the same report |
| Packets.DemoConfig | LNP.cs:286-294 | LED count capped at 128 only from above; speed clamped to [0,3] (below 0 gives 0, above 3 gives 3); direction 1 iff reverse; channel cast to a byte |
| Packets.PlaneValues | LNP.cs:233-235 | one value per LED of the range |
| Packets.PlanePacket | LNP.cs:224-236 | the report one plane pass of `SetLEDColor` writes: the colour-plane command for the range and plane, encoded |
| Packets.PlanePacketLayout | LNP.cs:224-236 | a plane packet is 6+ledcount bytes: header `[0,0x32,channel mod 256,ledindex,ledcount,plane]`, then byte 6+j is the plane byte of `color[ledindex+j]`; it decodes back to its command |
| Exchange.Single | LNP.cs:174-182 | one report written; one reply read iff confirming; true iff not confirming or reply byte 0 is 0 |
| Exchange.SendAll | LNP.cs:230-245 | the plane loop's write-then-confirm rule for a list of reports: write each in order, read one reply under confirmation, stop with false right after a non-zero reply |
| Exchange.SendAllAppend | LNP.cs:191-197 | sending `a + b` sends `a`, then, unless that stopped early, `b` from the next reply; this is what lets several `SetLEDColor` calls be read as one sequence |
| Exchange.SendAllShape | LNP.cs:230-248 | a confirmed sequence never throws. It writes a prefix of the packets, and all of them when true. It reads one reply per packet iff confirming. False comes only from a non-zero last reply after zero replies |
| Exchange.SendAllAccepted | LNP.cs:237-248 | if every reply is 0 (or no confirmation), all packets go out and the result is true |
| Exchange.SendAllRejectedAt | LNP.cs:237-243 | if reply i is the first non-zero one, exactly packets 0..i go out and the result is false |
| Exchange.FirstRejected | LNP.cs:239-242 | the index of the first non-zero reply: all before it are 0 |
| Exchange.SendAllUnconfirmed | LNP.cs:247 | without confirmation all packets go out, nothing is read, and the result is true |
| Exchange.SendAllConfirmed | LNP.cs:237-248 | with confirmation, packets up to and including the first rejected one go out and no later one; true iff every reply is 0 |
| Chunking.ChunkCount | LNP.cs:191 | the loop bound is the ceiling of \|color\|/50 |
| Chunking.ChunkAt | LNP.cs:192-195 | the arguments of chunk i's call: start index+50i; count 50, or up to absolute position \|color\| for the last chunk |
| Chunking.Chunks | LNP.cs:191-196 | chunk i starts at index+50i; all but the last hold 50 LEDs; the last ends at \|color\| |
| Chunking.ChunksFromZeroTail | LNP.cs:191-196 | from chunk i on, chunks from position 0 cover 50i..\|color\|-1 in order, each with 1 to 50 LEDs |
| Chunking.ChunksFromZeroTile | LNP.cs:191-196 | from position 0 the chunks cover 0..\|color\|-1 exactly once, in order, each with 1 to 50 LEDs |
| ColorWrites.PlanePackets | LNP.cs:230-236 | one packet per plane, three in all |
| ColorWrites.InRange | LNP.cs:209-219 | the three argument checks of `SetLEDColor`: 0 <= ledindex <= 128, ledcount >= 0, ledindex+ledcount <= 128 |
| ColorWrites.ReadsPastEnd | LNP.cs:234 | filling the buffer reads `color[ledindex+j]` past the end of the array for some j < ledcount |
| ColorWrites.SetLedColorRun | LNP.cs:205-249 | `SetLEDColor` on a device: an out-of-range argument or a too-short colour array throws IndexOutOfRange with nothing written; otherwise the three plane reports go out under the write-then-confirm rule |
| ColorWrites.SetLedColorRunShape | LNP.cs:209-248 | out-of-range index/count throws IndexOutOfRange with nothing written or read. Otherwise at most three packets, one reply per packet iff confirming. False only right after a non-zero reply, earlier replies 0 |
| ColorWrites.SetLedColorUnconfirmed | LNP.cs:230-247 | without confirmation a validated range writes exactly its red, green, blue packets, reads nothing, returns true |
| ColorWrites.PlanePacketsContent | LNP.cs:224-236 | the three packets share header bytes 0-4, carry plane 0, 1, 2 in byte 5, and byte 6+j is the red/green/blue byte of `color[ledindex+j]` |
| ColorWrites.SetLedColorConfirmed | LNP.cs:237-248 | with confirmation, planes go out up to the first non-zero reply (result false); true with all three packets iff all replies are 0 |
| ColorWrites.RangeRunFrom | LNP.cs:191-198 | the chunk loop from chunk i: one `SetLEDColor` call per chunk, and a call that does not return true ends the operation with its outcome, keeping what earlier chunks wrote |
| ColorWrites.ChunkCounts | LNP.cs:205-248 | one `SetLEDColor` call writes at most three packets, reads one reply per packet iff confirming, and returns false only when confirming |
| ColorWrites.RangeRunCounts | LNP.cs:191-200 | from chunk i on, at most three packets per remaining chunk; one reply per packet iff confirming; never false without confirmation |
| ColorWrites.ChunkRepliesConfirmed | LNP.cs:237-243 | under confirmation one `SetLEDColor` call reads one reply per packet and returns false only after a non-zero reply |
| ColorWrites.RangeRunReplies | LNP.cs:191-200 | under confirmation the chunker returns false only right after a non-zero reply; every earlier reply was 0 |
| ColorWrites.RangeRun | LNP.cs:187-201 | at most 3·ceil(\|color\|/50) packets; an empty array writes nothing and returns true |
| ColorWrites.ChunkPackets | LNP.cs:191-196 | three packets per chunk |
| ColorWrites.ChunksFromZeroValid | LNP.cs:209-219 | from position 0 with at most 128 colours, every chunk passes the validation |
| ColorWrites.RangeValidTail | LNP.cs:191-200 | from chunk i on, for any start index whose chunks all pass validation, under either confirmation setting: the remaining chunks' plane packets go out as one write-then-confirm sequence, stopping right after the first rejected packet in whichever chunk |
| ColorWrites.RangeValid | LNP.cs:187-201 | for any start index whose chunks all pass validation, the whole operation is one write-then-confirm sequence over the plane packets of all chunks in order |
| ColorWrites.RangeFromZero | LNP.cs:187-201 | from position 0 with up to 128 colours, the whole operation is one write-then-confirm sequence over the plane packets of all chunks in order |
| ColorWrites.RangeFromZeroUnconfirmed | LNP.cs:187-201 | from position 0, up to 128 colours, no confirmation: true. Writes the 3·ceil(\|color\|/50) plane packets of chunks that tile 0..\|color\|-1 |
| ColorWrites.RangeFromZeroConfirmed | LNP.cs:187-201 | from position 0 with up to 128 colours and confirmation on: the plane packets go out in chunk order up to and including the first one whose reply is non-zero, and no packet after it (false then); true with every packet sent iff all replies are 0 |
| ColorWrites.RangeOf130Throws | LNP.cs:191-218 | 130 colours from 0: chunks 50, 50, 30; six packets go out, then the third chunk (100+30 > 128) throws with no rollback |
| ColorWrites.RangeAddressesAbsolutePositions | LNP.cs:192-193 | with one chunk, the last count is \|color\|-index: LED index+j gets `color[index+j]`. An index outside the array throws with nothing written |
| Transport.HidDevice.Write | LNP.cs:236 | the report is appended to the trace as the buffer holds it; nothing is read |
| Transport.HidDevice.Read | LNP.cs:238 | returns byte 0 of the next reply and advances the reply count |
| LnpCommands.FillPlane | LNP.cs:231-235 | byte 5 becomes the plane; bytes 6.. become the plane's values, or the pass reports a read past the colour array; bytes 0-4 unchanged |
| LnpCommands.Lnp.constructor | LNP.cs:48-55 | connecting writes the device-version and firmware-version queries and reads two replies |
| LnpCommands.Lnp.Transmit | LNP.cs:174-182 | the traffic and result of `Exchange.Single` for the buffer's bytes |
| LnpCommands.Lnp.RequestDeviceVersion | LNP.cs:97-117 | writes `[0,0x02]` and reads one reply; nothing on a null device |
| LnpCommands.Lnp.RequestFirmwareVersion | LNP.cs:122-141 | writes `[0,0x06]` and reads one reply; nothing on a null device |
| LnpCommands.Lnp.SendAck | LNP.cs:168-184 | writes `[0,0x33,0xFF]` under the single-report confirmation rule; null device throws |
| LnpCommands.Lnp.ResetChannel | LNP.cs:260-274 | writes `[0,0x37,channel mod 256]` under the confirmation rule; null device throws |
| LnpCommands.Lnp.ConfigDemoMode | LNP.cs:285-305 | never throws on a device; writes the 8-byte `DemoConfig` report under the confirmation rule |
| LnpCommands.Lnp.SetDemoOnOff | LNP.cs:313-328 | writes `[0,0x39,channel mod 256,0x64 or 0]` under the confirmation rule |
| LnpCommands.Lnp.EnterManualMode | LNP.cs:337-352 | writes `[0,0x38,channel mod 256,2]` under the confirmation rule |
| LnpCommands.Lnp.EnterDemoMode | LNP.cs:360-374 | writes `[0,0x38,channel mod 256,1]` under the confirmation rule |
| LnpCommands.Lnp.Send0x34Command | LNP.cs:378-392 | writes `[0,0x34,channel mod 256,0]` under the confirmation rule |
| LnpCommands.Lnp.WritePlane | LNP.cs:231-244 | one plane pass writes exactly that plane's packet and reads one reply iff confirming; if the colour array is too short it writes and reads nothing |
| LnpCommands.Lnp.WritePlanes | LNP.cs:230-248 | the plane loop on the reused buffer does exactly what `SendAll` of the three plane packets specifies, or throws before any write when the colour array is too short |
| LnpCommands.Lnp.SetLedColor | LNP.cs:205-249 | false on a null device; otherwise exactly the traffic and outcome of `SetLedColorRun` |
| LnpCommands.Lnp.WriteChunk | LNP.cs:192-196 | one loop pass keeps the split of the whole operation's traffic into done and still to come, or ends it |
| LnpCommands.Lnp.SetLedColorRange | LNP.cs:187-201 | false on a null device; otherwise exactly the traffic and outcome of `RangeRun` |

## Left out

- `Connect` and `GetListOfLNP` (LNP.cs:400-453) are left out. They are HID
  enumeration, opening the device exclusively, and a retry loop with
  `Thread.Sleep`. All of that is I/O and timing.
- `GetDescription` and `GetSerial` (LNP.cs:75-92, 147-162) are left out. They
  decode USB descriptor strings through library calls and write no report.
  The constructor therefore only issues the two version queries.
- `Dispose`, `Close` and `GetDevicePath` are left out because they only pass
  through to the handle. So is setting `MonitorDeviceEvents` in the
  constructor.
- LnpCommands.Lnp.RequestDeviceVersion: sends the query on every call. The
  source sends it only while no version string is cached (LNP.cs:103). The
  string cache, the `major.minor.patch` formatting of the reply, and the
  `null` result on a failed read status are not modelled.
- LnpCommands.Lnp.RequestFirmwareVersion: the same as for the device version
  (LNP.cs:127, 135).
- Transport.HidDevice.Read: models only byte 0 of a reply. It assumes every
  reply has a byte 0. The 500 ms timeouts of `Write`/`Read` are not modelled.
  Neither are short or empty replies, on which the source's `Data[0]` would
  throw. `reply(k)` stands for the `Data[0]` that the call at that site
  returns: `device.ReadReport().Data[0]` in `SendACK` (LNP.cs:176), and
  `device.Read(500).Data[0]` in `SetLEDColor` and the other single-report
  commands (LNP.cs:238, 267, 297, 321, 345, 367, 385). The version queries'
  `ReadReport()` (LNP.cs:108, 132) counts as one read, but its content is
  not used. The model does not tell the two library calls apart, and the
  library code is not part of this model.
- ColorWrites.InRange: models `ledindex+ledcount` and the chunk arithmetic
  `index+(i*50)` with unbounded integers. The source computes them in 32-bit
  `int`. The model leaves out the wrap-around of that arithmetic for
  arguments near 2^31.
- A null `color` array is not modelled: the colour array is a `seq`, which
  cannot be null. The source would throw `NullReferenceException` at
  `color.Length` in `SetLEDColorRange` (LNP.cs:191) and at
  `color[ledindex+j]` in `SetLEDColor` (LNP.cs:234) when ledcount > 0.
- `System.Drawing.Color` is modelled as four 8-bit components, which is all
  that `ToArgb` exposes. Named colours and HSB accessors are left out.
- No device-mode state (manual or demo, or the 60-second revert) is
  modelled. The source sends the mode reports but keeps no state about them.
- Packets.Decode is not part of the source. It is a model-side inverse of
  `Encode`, used to state that the report layouts are unambiguous.
