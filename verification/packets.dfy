/** The outgoing reports of the Corsair Lighting Node Pro: byte 0 is the
    report id (always 0), byte 1 the opcode, the rest a fixed payload. */
module Packets {
  import opened Bytes

  const OpDeviceVersion: byte := 0x02
  const OpFirmwareVersion: byte := 0x06
  const OpSetColor: byte := 0x32
  const OpAck: byte := 0x33
  const OpReserved34: byte := 0x34
  const OpConfigDemo: byte := 0x35
  const OpResetChannel: byte := 0x37
  const OpEnterMode: byte := 0x38
  const OpDemoOnOff: byte := 0x39

  /** Highest LED position the colour writer accepts, and the ceiling on
      the LED count of a demo configuration. */
  const MaxLeds := 128

  /** Byte 3 of an enter-mode packet. */
  const ModeDemo: byte := 0x1
  const ModeManual: byte := 0x2

  /** Byte 3 of a demo on/off packet when demo is switched on. */
  const DemoOn: byte := 0x64

  /** One command as the device sees it; every field is already a byte. */
  datatype Command =
    | DeviceVersionQuery
    | FirmwareVersionQuery
    | SetColorPlane(channel: byte, ledIndex: byte, plane: byte, values: seq<byte>)
    | Ack
    | Reserved34(channel: byte)
    | ConfigDemo(channel: byte, ledCount: byte, speed: byte, reverse: bool)
    | ResetChannel(channel: byte)
    | EnterMode(channel: byte, demo: bool)
    | DemoOnOff(channel: byte, enable: bool)

  /** A colour-plane packet carries its LED count in one byte. */
  predicate WellFormed(c: Command)
  {
    c.SetColorPlane? ==> |c.values| < 256
  }

  function Opcode(c: Command): byte
  {
    match c
    case DeviceVersionQuery => OpDeviceVersion
    case FirmwareVersionQuery => OpFirmwareVersion
    case SetColorPlane(_, _, _, _) => OpSetColor
    case Ack => OpAck
    case Reserved34(_) => OpReserved34
    case ConfigDemo(_, _, _, _) => OpConfigDemo
    case ResetChannel(_) => OpResetChannel
    case EnterMode(_, _) => OpEnterMode
    case DemoOnOff(_, _) => OpDemoOnOff
  }

  /** The report the library writes for a command (LNP.cs builds each of
      these in a zero-initialised array and assigns the non-zero bytes). */
  function Encode(c: Command): (p: seq<byte>)
    ensures |p| >= 2 && p[0] == 0 && p[1] == Opcode(c)
  {
    match c
    case DeviceVersionQuery => [0, OpDeviceVersion]
    case FirmwareVersionQuery => [0, OpFirmwareVersion]
    case SetColorPlane(ch, index, plane, values) =>
      [0, OpSetColor, ch, index, ByteOf(|values|), plane] + values
    case Ack => [0, OpAck, 0xFF]
    case Reserved34(ch) => [0, OpReserved34, ch, 0]
    case ConfigDemo(ch, count, speed, reverse) =>
      [0, OpConfigDemo, ch, 0, count, 0, speed, if reverse then 1 else 0]
    case ResetChannel(ch) => [0, OpResetChannel, ch]
    case EnterMode(ch, demo) => [0, OpEnterMode, ch, if demo then ModeDemo else ModeManual]
    case DemoOnOff(ch, enable) => [0, OpDemoOnOff, ch, if enable then DemoOn else 0]
  }

  /** Reads a report back into the command it encodes, or None when the
      bytes are not a report this library ever writes. */
  function Decode(p: seq<byte>): Option<Command>
  {
    if |p| < 2 || p[0] != 0 then None
    else if p[1] == OpDeviceVersion then
      if |p| == 2 then Some(DeviceVersionQuery) else None
    else if p[1] == OpFirmwareVersion then
      if |p| == 2 then Some(FirmwareVersionQuery) else None
    else if p[1] == OpSetColor then
      if |p| >= 6 && p[4] as int == |p| - 6 then Some(SetColorPlane(p[2], p[3], p[5], p[6..])) else None
    else if p[1] == OpAck then
      if |p| == 3 && p[2] == 0xFF then Some(Ack) else None
    else if p[1] == OpReserved34 then
      if |p| == 4 && p[3] == 0 then Some(Reserved34(p[2])) else None
    else if p[1] == OpConfigDemo then
      if |p| == 8 && p[3] == 0 && p[5] == 0 && p[7] <= 1 then Some(ConfigDemo(p[2], p[4], p[6], p[7] == 1)) else None
    else if p[1] == OpResetChannel then
      if |p| == 3 then Some(ResetChannel(p[2])) else None
    else if p[1] == OpEnterMode then
      if |p| == 4 && (p[3] == ModeDemo || p[3] == ModeManual) then Some(EnterMode(p[2], p[3] == ModeDemo)) else None
    else if p[1] == OpDemoOnOff then
      if |p| == 4 && (p[3] == DemoOn || p[3] == 0) then Some(DemoOnOff(p[2], p[3] == DemoOn)) else None
    else None
  }

  datatype Option<T> = None | Some(value: T)

  /** Every well-formed command is recovered from its report. */
  lemma DecodeEncode(c: Command)
    requires WellFormed(c)
    ensures Decode(Encode(c)) == Some(c)
  {
    if c.SetColorPlane? {
      var p := Encode(c);
      assert p[6..] == c.values;
    }
  }

  /** Conversely, a report that decodes is exactly the encoding of what it
      decodes to: the decoder accepts no byte the encoder does not write. */
  lemma EncodeDecode(p: seq<byte>)
    requires Decode(p).Some?
    ensures WellFormed(Decode(p).value) && Encode(Decode(p).value) == p
  {
    var c := Decode(p).value;
    if c.SetColorPlane? {
      assert p == p[..6] + p[6..];
      assert p[..6] == [0, OpSetColor, p[2], p[3], ByteOf(|p[6..]|), p[5]];
    } else if c.ConfigDemo? {
      assert p[7] == if c.reverse then 1 else 0;
    } else if c.EnterMode? {
      assert p[3] == if c.demo then ModeDemo else ModeManual;
    } else if c.DemoOnOff? {
      assert p[3] == if c.enable then DemoOn else 0;
    }
  }

  /** No two well-formed commands share a report. */
  lemma EncodeInjective(c1: Command, c2: Command)
    requires WellFormed(c1) && WellFormed(c2)
    requires Encode(c1) == Encode(c2)
    ensures c1 == c2
  {
    DecodeEncode(c1);
    DecodeEncode(c2);
  }

  /** `ConfigDemoMode`'s argument policy: the LED count is capped at 128 from
      above only (a negative count is cast to a byte unchanged), the speed is
      clamped to [0, 3], and the direction becomes 1 or 0. */
  function DemoConfig(channel: int, ledCount: int, speed: int, reverse: bool): (c: Command)
    ensures c.ConfigDemo? && c.channel == ByteOf(channel) && c.reverse == reverse
    ensures ledCount <= MaxLeds ==> c.ledCount == ByteOf(ledCount)
    ensures ledCount > MaxLeds ==> c.ledCount as int == MaxLeds
    ensures 0 <= c.speed <= 3
    ensures 0 <= speed <= 3 ==> c.speed as int == speed
    ensures speed < 0 ==> c.speed == 0
    ensures speed > 3 ==> c.speed == 3
  {
    var count := if ledCount > MaxLeds then MaxLeds else ledCount;
    var s := if speed < 0 then 0 else if speed > 3 then 3 else speed;
    ConfigDemo(ByteOf(channel), ByteOf(count), ByteOf(s), reverse)
  }

  /** The per-LED values of one plane: byte `plane` of the colour at absolute
      position `ledIndex + j`, for each `j` below `ledCount`. */
  function PlaneValues(color: seq<Color>, ledIndex: nat, ledCount: nat, plane: Plane): (vs: seq<byte>)
    requires ledCount == 0 || ledIndex + ledCount <= |color|
    ensures |vs| == ledCount
  {
    seq(ledCount, j requires 0 <= j < ledCount => PlaneValue(color[ledIndex + j], plane))
  }

  /** Value j of a plane is the plane's byte of the colour at ledIndex + j. */
  lemma PlaneValuesAt(color: seq<Color>, ledIndex: nat, ledCount: nat, plane: Plane)
    requires ledCount == 0 || ledIndex + ledCount <= |color|
    ensures forall j :: 0 <= j < ledCount ==>
              PlaneValues(color, ledIndex, ledCount, plane)[j] == PlaneValue(color[ledIndex + j], plane)
  {
  }

  /** The packet `SetLEDColor` writes for one plane of a validated range. */
  function PlanePacket(channel: int, ledIndex: nat, ledCount: nat, color: seq<Color>, plane: Plane): seq<byte>
    requires ledIndex + ledCount <= MaxLeds
    requires ledCount == 0 || ledIndex + ledCount <= |color|
  {
    Encode(SetColorPlane(ByteOf(channel), ByteOf(ledIndex), plane as byte, PlaneValues(color, ledIndex, ledCount, plane)))
  }

  /** A plane packet is the six-byte header (report id 0, opcode 0x32, the
      channel truncated to a byte, the start index, the LED count, the plane
      number) followed by one byte per LED, byte 6+j being the plane's byte
      of the colour at position ledIndex+j; it decodes back to its command. */
  lemma PlanePacketLayout(channel: int, ledIndex: nat, ledCount: nat, color: seq<Color>, plane: Plane)
    requires ledIndex + ledCount <= MaxLeds
    requires ledCount == 0 || ledIndex + ledCount <= |color|
    ensures var p := PlanePacket(channel, ledIndex, ledCount, color, plane);
      && |p| == 6 + ledCount
      && p[..6] == [0, OpSetColor, ByteOf(channel), ByteOf(ledIndex), ByteOf(ledCount), plane as byte]
      && p[3] as int == ledIndex && p[4] as int == ledCount && p[5] as int == plane
      && p[6..] == PlaneValues(color, ledIndex, ledCount, plane)
      && (forall k :: 6 <= k < |p| ==> p[k] == PlaneValue(color[ledIndex + (k - 6)], plane))
      && Decode(p) == Some(SetColorPlane(ByteOf(channel), ByteOf(ledIndex), plane as byte,
                                         PlaneValues(color, ledIndex, ledCount, plane)))
  {
    var vs := PlaneValues(color, ledIndex, ledCount, plane);
    PlaneValuesAt(color, ledIndex, ledCount, plane);
    DecodeEncode(SetColorPlane(ByteOf(channel), ByteOf(ledIndex), plane as byte, vs));
    var p := PlanePacket(channel, ledIndex, ledCount, color, plane);
    assert p[6..] == vs;
  }
}
