/** The `LNP` command class: every command allocates a zeroed report buffer,
    assigns its bytes one by one, writes it to the device and, when strict
    reply confirmation is on, reads one reply per write. The process-wide
    `CheckReplyConfirm` switch is the `confirm` parameter here. */
module LnpCommands {
  import opened Bytes
  import opened Packets
  import opened Exchange
  import opened Chunking
  import opened ColorWrites
  import opened Transport

  /** One pass of the plane loop of `SetLEDColor` over the reused buffer:
      byte 5 becomes the plane number and byte 6+j the plane's byte of
      color[ledIndex+j]. Reading past the end of the colour array stops the
      pass (the source throws there); it returns whether that did not happen. */
  method FillPlane(b: array<byte>, ledIndex: int, ledCount: int, color: seq<Color>, plane: Plane) returns (inBounds: bool)
    requires InRange(ledIndex, ledCount) && b.Length == 6 + ledCount
    modifies b
    ensures inBounds == !ReadsPastEnd(ledIndex, ledCount, color)
    ensures b[..5] == old(b[..5]) && b[5] as int == plane
    ensures inBounds ==> b[6..] == PlaneValues(color, ledIndex, ledCount, plane)
  {
    b[5] := plane as byte;
    for j := 0 to ledCount
      invariant b[..5] == old(b[..5]) && b[5] as int == plane
      invariant ledIndex + j <= |color| || j == 0
      invariant forall q :: 6 <= q < 6 + j ==> b[q] == PlaneValue(color[ledIndex + (q - 6)], plane)
    {
      if ledIndex + j >= |color| {
        return false;
      }
      b[6 + j] := ToByte(PlaneByte(ToArgb(color[ledIndex + j]), plane));
    }
    PlaneValuesAt(color, ledIndex, ledCount, plane);
    return true;
  }

  class Lnp {
    /** The opened HID handle; the colour writers test it against null. */
    const device: HidDevice?

    /** Since the state `written0`/`reads0`, the device saw exactly the traffic
        of `run`, and the command ended as `run` says. */
    ghost predicate Performed(written0: seq<seq<byte>>, reads0: nat, run: Run, r: Outcome)
      reads device
      requires device != null
    {
      device.written == written0 + run.packets && device.readCount == reads0 + run.repliesRead && r == run.outcome
    }

    /** Connecting queries the device version and then the firmware version
        (the descriptor and serial strings cause no report traffic). */
    constructor (device: HidDevice)
      modifies device
      ensures this.device == device
      ensures device.written == old(device.written) + [Encode(DeviceVersionQuery), Encode(FirmwareVersionQuery)]
      ensures device.readCount == old(device.readCount) + 2
    {
      this.device := device;
      new;
      RequestDeviceVersion();
      RequestFirmwareVersion();
    }

    /** Writes one report and applies the confirmation rule to it. */
    method Transmit(b: array<byte>, confirm: bool) returns (r: Outcome)
      requires device != null
      modifies device
      ensures Performed(old(device.written), old(device.readCount), Single(b[..], confirm, device.reply, old(device.readCount)), r)
    {
      device.Write(b[..]);
      if confirm {
        var status := device.Read();
        if status == 0 {
          return Returned(true);
        }
        return Returned(false);
      }
      return Returned(true);
    }

    /** The device-version query of `GetLNPDeviceVer`: report [0, 0x02],
        always followed by one read. */
    method RequestDeviceVersion()
      modifies device
      ensures device != null ==> device.written == old(device.written) + [Encode(DeviceVersionQuery)]
      ensures device != null ==> device.readCount == old(device.readCount) + 1
    {
      if device == null {
        return;
      }
      var b := new byte[2](_ => 0);
      b[1] := OpDeviceVersion;
      assert b[..] == Encode(DeviceVersionQuery);
      device.Write(b[..]);
      var _ := device.Read();
    }

    /** The firmware-version query of `GetLNPFWVer`: report [0, 0x06],
        always followed by one read. */
    method RequestFirmwareVersion()
      modifies device
      ensures device != null ==> device.written == old(device.written) + [Encode(FirmwareVersionQuery)]
      ensures device != null ==> device.readCount == old(device.readCount) + 1
    {
      if device == null {
        return;
      }
      var b := new byte[2](_ => 0);
      b[1] := OpFirmwareVersion;
      assert b[..] == Encode(FirmwareVersionQuery);
      device.Write(b[..]);
      var _ := device.Read();
    }

    /** Commit / acknowledge: report [0, 0x33, 0xFF]. */
    method SendAck(confirm: bool) returns (r: Outcome)
      modifies device
      ensures device == null ==> r == Threw(NullReference)
      ensures device != null ==>
        Performed(old(device.written), old(device.readCount), Single(Encode(Ack), confirm, device.reply, old(device.readCount)), r)
    {
      var b := new byte[3](_ => 0);
      b[1] := OpAck;
      b[2] := 0xFF;
      if device == null {
        return Threw(NullReference);
      }
      assert b[..] == Encode(Ack);
      r := Transmit(b, confirm);
    }

    /** Switch every LED of a channel off: report [0, 0x37, channel]. */
    method ResetChannel(channel: int, confirm: bool) returns (r: Outcome)
      modifies device
      ensures device == null ==> r == Threw(NullReference)
      ensures device != null ==>
        Performed(old(device.written), old(device.readCount),
                  Single(Encode(Command.ResetChannel(ByteOf(channel))), confirm, device.reply, old(device.readCount)), r)
    {
      var b := new byte[3](_ => 0);
      b[1] := OpResetChannel;
      b[2] := ByteOf(channel);
      if device == null {
        return Threw(NullReference);
      }
      assert b[..] == Encode(Command.ResetChannel(ByteOf(channel)));
      r := Transmit(b, confirm);
    }

    /** Configure the idle demo animation: clamps first, never rejects. */
    method ConfigDemoMode(channel: int, ledCount: int, speed: int, reverse: bool, confirm: bool) returns (r: Outcome)
      modifies device
      ensures device == null ==> r == Threw(NullReference)
      ensures device != null ==> r.Returned?
      ensures device != null ==>
        Performed(old(device.written), old(device.readCount),
                  Single(Encode(DemoConfig(channel, ledCount, speed, reverse)), confirm, device.reply, old(device.readCount)), r)
    {
      var count, s := ledCount, speed;
      if count > MaxLeds {
        count := MaxLeds;
      }
      if s < 0 {
        s := 0;
      }
      if s > 3 {
        s := 3;
      }
      var b := new byte[8](_ => 0);
      b[1] := OpConfigDemo;
      b[2] := ByteOf(channel);
      b[4] := ByteOf(count);
      b[6] := ByteOf(s);
      b[7] := if reverse then 1 else 0;
      if device == null {
        return Threw(NullReference);
      }
      assert b[..] == Encode(DemoConfig(channel, ledCount, speed, reverse));
      r := Transmit(b, confirm);
    }

    /** Demo on or off: report [0, 0x39, channel, 0x64 or 0]. */
    method SetDemoOnOff(channel: int, enable: bool, confirm: bool) returns (r: Outcome)
      modifies device
      ensures device == null ==> r == Threw(NullReference)
      ensures device != null ==>
        Performed(old(device.written), old(device.readCount),
                  Single(Encode(DemoOnOff(ByteOf(channel), enable)), confirm, device.reply, old(device.readCount)), r)
    {
      var b := new byte[4](_ => 0);
      b[1] := OpDemoOnOff;
      b[2] := ByteOf(channel);
      b[3] := if enable then DemoOn else 0;
      if device == null {
        return Threw(NullReference);
      }
      assert b[..] == Encode(DemoOnOff(ByteOf(channel), enable));
      r := Transmit(b, confirm);
    }

    /** Allow direct colour packets on a channel: report [0, 0x38, channel, 2]. */
    method EnterManualMode(channel: int, confirm: bool) returns (r: Outcome)
      modifies device
      ensures device == null ==> r == Threw(NullReference)
      ensures device != null ==>
        Performed(old(device.written), old(device.readCount),
                  Single(Encode(EnterMode(ByteOf(channel), false)), confirm, device.reply, old(device.readCount)), r)
    {
      var b := new byte[4](_ => 0);
      b[1] := OpEnterMode;
      b[2] := ByteOf(channel);
      b[3] := ModeManual;
      if device == null {
        return Threw(NullReference);
      }
      assert b[..] == Encode(EnterMode(ByteOf(channel), false));
      r := Transmit(b, confirm);
    }

    /** Run the configured demo on a channel: report [0, 0x38, channel, 1]. */
    method EnterDemoMode(channel: int, confirm: bool) returns (r: Outcome)
      modifies device
      ensures device == null ==> r == Threw(NullReference)
      ensures device != null ==>
        Performed(old(device.written), old(device.readCount),
                  Single(Encode(EnterMode(ByteOf(channel), true)), confirm, device.reply, old(device.readCount)), r)
    {
      var b := new byte[4](_ => 0);
      b[1] := OpEnterMode;
      b[2] := ByteOf(channel);
      b[3] := ModeDemo;
      if device == null {
        return Threw(NullReference);
      }
      assert b[..] == Encode(EnterMode(ByteOf(channel), true));
      r := Transmit(b, confirm);
    }

    /** The reserved opcode 0x34, passed through without interpretation:
        report [0, 0x34, channel, 0]. */
    method Send0x34Command(channel: int, confirm: bool) returns (r: Outcome)
      modifies device
      ensures device == null ==> r == Threw(NullReference)
      ensures device != null ==>
        Performed(old(device.written), old(device.readCount),
                  Single(Encode(Reserved34(ByteOf(channel))), confirm, device.reply, old(device.readCount)), r)
    {
      var b := new byte[4](_ => 0);
      b[1] := OpReserved34;
      b[2] := ByteOf(channel);
      b[3] := 0;
      if device == null {
        return Threw(NullReference);
      }
      assert b[..] == Encode(Reserved34(ByteOf(channel)));
      r := Transmit(b, confirm);
    }

    /** One pass of `SetLEDColor`'s plane loop: fill the buffer with plane
        `plane`, write it and, under confirmation, read the reply. When the
        colour array is too short nothing is written or read. */
    method WritePlane(b: array<byte>, channel: int, ledIndex: int, ledCount: int, color: seq<Color>,
                      plane: Plane, confirm: bool, ghost ps: seq<seq<byte>>) returns (inBounds: bool, accepted: bool)
      requires device != null && InRange(ledIndex, ledCount) && b.Length == 6 + ledCount
      requires b[..5] == [0, OpSetColor, ByteOf(channel), ByteOf(ledIndex), ByteOf(ledCount)]
      requires !ReadsPastEnd(ledIndex, ledCount, color) ==> ps == PlanePackets(channel, ledIndex, ledCount, color)
      requires |ps| == 3
      modifies b, device
      ensures b[..5] == old(b[..5])
      ensures inBounds == !ReadsPastEnd(ledIndex, ledCount, color)
      ensures !inBounds ==> device.written == old(device.written) && device.readCount == old(device.readCount)
      ensures inBounds ==> device.written == old(device.written) + [ps[plane]]
      ensures inBounds ==> device.readCount == old(device.readCount) + ReadsPerWrite(confirm)
      ensures inBounds ==> accepted == Accepted(confirm, device.reply, old(device.readCount))
    {
      inBounds := FillPlane(b, ledIndex, ledCount, color, plane);
      if !inBounds {
        return false, false;
      }
      PlanePacketLayout(channel, ledIndex, ledCount, color, plane);
      assert b[..] == b[..6] + b[6..];
      device.Write(b[..]);
      accepted := true;
      if confirm {
        var ret := device.Read();
        accepted := ret == 0;
      }
    }

    /** The plane loop of `SetLEDColor` on a validated range: the red, green
        and blue packets go out through the one buffer, each confirmed in
        turn; reading past the end of the colour array throws before the
        first write. */
    method WritePlanes(b: array<byte>, channel: int, ledIndex: int, ledCount: int, color: seq<Color>, confirm: bool,
                       ghost ps: seq<seq<byte>>)
      returns (r: Outcome)
      requires device != null && InRange(ledIndex, ledCount) && b.Length == 6 + ledCount
      requires b[..5] == [0, OpSetColor, ByteOf(channel), ByteOf(ledIndex), ByteOf(ledCount)]
      requires !ReadsPastEnd(ledIndex, ledCount, color) ==> ps == PlanePackets(channel, ledIndex, ledCount, color)
      requires |ps| == 3
      modifies b, device
      ensures ReadsPastEnd(ledIndex, ledCount, color) ==>
        r == Threw(IndexOutOfRange) && device.written == old(device.written) && device.readCount == old(device.readCount)
      ensures !ReadsPastEnd(ledIndex, ledCount, color) ==>
        Performed(old(device.written), old(device.readCount), SendAll(ps, confirm, device.reply, old(device.readCount)), r)
    {
      var status := false;
      ghost var w0, k0 := device.written, device.readCount;
      for i := 0 to 3
        invariant b[..5] == [0, OpSetColor, ByteOf(channel), ByteOf(ledIndex), ByteOf(ledCount)]
        invariant i > 0 ==> !ReadsPastEnd(ledIndex, ledCount, color)
        invariant device.written == w0 + ps[..i]
        invariant device.readCount == k0 + (if confirm then i else 0)
        invariant confirm ==> forall m :: k0 <= m < k0 + i ==> device.reply(m) == 0
        invariant confirm ==> status == (i > 0)
      {
        var inBounds, accepted := WritePlane(b, channel, ledIndex, ledCount, color, i, confirm, ps);
        if !inBounds {
          return Threw(IndexOutOfRange);
        }
        assert ps[..i + 1] == ps[..i] + [ps[i]];
        if confirm {
          if accepted {
            status := true;
          } else {
            SendAllRejectedAt(ps, i, device.reply, k0);
            return Returned(false);
          }
        }
      }
      assert ps[..3] == ps;
      SendAllAccepted(ps, confirm, device.reply, k0);
      if !confirm {
        return Returned(true);
      }
      return Returned(status);
    }

    /** Write one range of LEDs plane by plane from a single reused buffer. */
    method SetLedColor(channel: int, ledIndex: int, ledCount: int, color: seq<Color>, confirm: bool) returns (r: Outcome)
      modifies device
      ensures device == null ==> r == Returned(false)
      ensures device != null ==>
        Performed(old(device.written), old(device.readCount),
                  SetLedColorRun(channel, ledIndex, ledCount, color, confirm, device.reply, old(device.readCount)), r)
    {
      if device == null {
        return Returned(false);
      }
      if ledIndex < 0 || ledIndex > MaxLeds {
        return Threw(IndexOutOfRange);
      }
      if ledCount < 0 {
        return Threw(IndexOutOfRange);
      }
      if ledIndex + ledCount > MaxLeds {
        return Threw(IndexOutOfRange);
      }
      var b := new byte[6 + ledCount](_ => 0);
      b[1] := OpSetColor;
      b[2] := ByteOf(channel);
      b[3] := ByteOf(ledIndex);
      b[4] := ByteOf(ledCount);
      // The packets the three passes write. When the colour array is too
      // short the first pass throws before any write, so no packet is ever
      // written and three empty ones stand in for them.
      ghost var ps: seq<seq<byte>> :=
        if ReadsPastEnd(ledIndex, ledCount, color) then [[], [], []]
        else PlanePackets(channel, ledIndex, ledCount, color);
      r := WritePlanes(b, channel, ledIndex, ledCount, color, confirm, ps);
    }

    /** One pass of `SetLEDColorRange`'s loop: chunk i goes to `SetLedColor`
        (the last chunk runs up to the end of the colour array, the others
        hold 50 LEDs). Given that the whole operation's traffic `total` is
        that of the chunks before i followed by the rest, after the call it
        is either exactly what has been done, when the call did not return
        true, or that followed by the chunks from i+1 on. */
    method WriteChunk(channel: int, index: int, color: seq<Color>, confirm: bool, i: nat,
                      ghost total: Run, ghost w0: seq<seq<byte>>, ghost k0: nat,
                      ghost sent: seq<seq<byte>>, ghost used: nat)
      returns (outcome: Outcome, ghost sent': seq<seq<byte>>, ghost used': nat)
      requires device != null && i < ChunkCount(|color|)
      requires device.written == w0 + sent && device.readCount == k0 + used
      requires total == After(sent, used, RangeRunFrom(channel, index, color, confirm, device.reply, k0 + used, i))
      modifies device
      ensures device.written == w0 + sent' && device.readCount == k0 + used'
      ensures outcome != Returned(true) ==> total == Run(outcome, sent', used')
      ensures outcome == Returned(true) ==>
        total == After(sent', used', RangeRunFrom(channel, index, color, confirm, device.reply, k0 + used', i + 1))
    {
      var start := index + i * ChunkSize;
      var count := if (1 + i) * ChunkSize >= |color| then |color| - start else ChunkSize;
      RangeStep(channel, index, color, confirm, device.reply, k0, i, start, count, sent, used, total);
      ghost var run := SetLedColorRun(channel, start, count, color, confirm, device.reply, k0 + used);
      outcome := SetLedColor(channel, start, count, color, confirm);
      sent', used' := sent + run.packets, used + run.repliesRead;
      assert w0 + sent + run.packets == w0 + sent';
    }

    /** Write a whole colour array from LED position `index`, one
        `SetLedColor` call per chunk of at most 50 LEDs. */
    method SetLedColorRange(channel: int, index: int, color: seq<Color>, confirm: bool) returns (r: Outcome)
      modifies device
      ensures device == null ==> r == Returned(false)
      ensures device != null ==>
        Performed(old(device.written), old(device.readCount),
                  RangeRun(channel, index, color, confirm, device.reply, old(device.readCount)), r)
    {
      if device == null {
        return Returned(false);
      }
      ghost var w0, k0 := device.written, device.readCount;
      ghost var total := RangeRun(channel, index, color, confirm, device.reply, k0);
      ghost var sent: seq<seq<byte>>, used: nat := [], 0;
      assert w0 + [] == w0;
      var i := 0;
      while i < |color| / ChunkSize + (if |color| % ChunkSize == 0 then 0 else 1)
        invariant 0 <= i <= ChunkCount(|color|)
        invariant device.written == w0 + sent && device.readCount == k0 + used
        invariant total == After(sent, used, RangeRunFrom(channel, index, color, confirm, device.reply, k0 + used, i))
      {
        var outcome;
        outcome, sent, used := WriteChunk(channel, index, color, confirm, i, total, w0, k0, sent, used);
        if outcome != Returned(true) {
          return outcome;
        }
        i := i + 1;
      }
      assert sent + [] == sent;
      return Returned(true);
    }
  }
}
