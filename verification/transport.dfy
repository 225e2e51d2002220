/** The HID transport as the LNP commands see it: a trace of the reports
    written so far and an oracle for the status byte of each reply read. */
module Transport {
  import opened Bytes
  import opened Exchange

  class HidDevice {
    /** Every report written to the device, oldest first. */
    var written: seq<seq<byte>>
    /** How many replies have been read so far. */
    var readCount: nat
    /** Byte 0 of the k-th reply the device will give. */
    const reply: Replies

    constructor (reply: Replies)
      ensures written == [] && readCount == 0 && this.reply == reply
    {
      this.reply := reply;
      written := [];
      readCount := 0;
    }

    /** `device.Write(b, 500)`: the report goes out as the buffer holds it now. */
    method Write(report: seq<byte>)
      modifies this
      ensures written == old(written) + [report] && readCount == old(readCount)
    {
      written := written + [report];
    }

    /** `device.Read(500).Data[0]` or `device.ReadReport().Data[0]`: the status
        byte of the next reply. */
    method Read() returns (status: bv8)
      modifies this
      ensures status == reply(old(readCount))
      ensures readCount == old(readCount) + 1 && written == old(written)
    {
      status := reply(readCount);
      readCount := readCount + 1;
    }
  }
}
