/** What `SetLEDColor` and `SetLEDColorRange` put on the wire, as functions
    of their arguments, the confirmation switch and the device's replies. */
module ColorWrites {
  import opened Bytes
  import opened Packets
  import opened Exchange
  import opened Chunking

  /** The three checks `SetLEDColor` makes before it allocates its buffer. */
  predicate InRange(ledIndex: int, ledCount: int)
  {
    0 <= ledIndex <= MaxLeds && 0 <= ledCount && ledIndex + ledCount <= MaxLeds
  }

  /** Filling the buffer reads `color[ledIndex + j]` for every j below
      ledCount; this is past the end of the array for some j exactly when: */
  predicate ReadsPastEnd(ledIndex: int, ledCount: int, color: seq<Color>)
  {
    ledCount > 0 && ledIndex + ledCount > |color|
  }

  /** The red, green and blue packets of one validated range, in order. */
  function PlanePackets(channel: int, ledIndex: int, ledCount: int, color: seq<Color>): (ps: seq<seq<byte>>)
    requires InRange(ledIndex, ledCount) && !ReadsPastEnd(ledIndex, ledCount, color)
    ensures |ps| == 3
  {
    seq(3, p requires 0 <= p < 3 => PlanePacket(channel, ledIndex, ledCount, color, p))
  }

  /** `SetLEDColor` on a connected device whose next reply is number k. */
  function SetLedColorRun(channel: int, ledIndex: int, ledCount: int, color: seq<Color>,
                          confirm: bool, replies: Replies, k: nat): Run
  {
    if !InRange(ledIndex, ledCount) || ReadsPastEnd(ledIndex, ledCount, color) then
      Run(Threw(IndexOutOfRange), [], 0)
    else
      SendAll(PlanePackets(channel, ledIndex, ledCount, color), confirm, replies, k)
  }

  /** `SetLEDColor` throws IndexOutOfRange, having written and read nothing,
      whenever the index or count is out of range; otherwise it writes at
      most three packets, one reply read per packet under confirmation, and
      returns false only right after a non-zero reply, every earlier reply
      having been 0. */
  lemma SetLedColorRunShape(channel: int, ledIndex: int, ledCount: int, color: seq<Color>,
                            confirm: bool, replies: Replies, k: nat)
    ensures var run := SetLedColorRun(channel, ledIndex, ledCount, color, confirm, replies, k);
      && (!InRange(ledIndex, ledCount) ==> run.outcome == Threw(IndexOutOfRange))
      && (run.outcome.Threw? ==> run.outcome.fault == IndexOutOfRange && run.packets == [] && run.repliesRead == 0)
      && |run.packets| <= 3
      && run.repliesRead == (if confirm then |run.packets| else 0)
      && (run.outcome == Returned(false) ==> confirm && |run.packets| > 0 && replies(k + |run.packets| - 1) != 0)
      && (confirm ==> forall m :: k <= m < k + |run.packets| - 1 ==> replies(m) == 0)
      && (confirm && run.outcome == Returned(true) ==> forall m :: k <= m < k + |run.packets| ==> replies(m) == 0)
  {
    if InRange(ledIndex, ledCount) && !ReadsPastEnd(ledIndex, ledCount, color) {
      SendAllShape(PlanePackets(channel, ledIndex, ledCount, color), confirm, replies, k);
    }
  }

  /** With confirmation off, a validated range is written as exactly its
      three plane packets, red, green and blue, nothing is read and the
      result is true whatever the device replies. */
  lemma SetLedColorUnconfirmed(channel: int, ledIndex: int, ledCount: int, color: seq<Color>,
                               replies: Replies, k: nat)
    requires InRange(ledIndex, ledCount) && !ReadsPastEnd(ledIndex, ledCount, color)
    ensures SetLedColorRun(channel, ledIndex, ledCount, color, false, replies, k)
            == Run(Returned(true), PlanePackets(channel, ledIndex, ledCount, color), 0)
  {
    SendAllUnconfirmed(PlanePackets(channel, ledIndex, ledCount, color), replies, k);
  }

  /** The three packets of a validated range share the header (report id 0,
      opcode 0x32, channel, start index, LED count) and carry plane 0, 1, 2 in
      byte 5; byte 6+j of each is the red, green or blue byte of the colour
      at absolute position ledIndex+j. */
  lemma PlanePacketsContent(channel: int, ledIndex: int, ledCount: int, color: seq<Color>)
    requires InRange(ledIndex, ledCount) && !ReadsPastEnd(ledIndex, ledCount, color)
    ensures var ps := PlanePackets(channel, ledIndex, ledCount, color);
            && (forall pl :: 0 <= pl < 3 ==>
                  |ps[pl]| == 6 + ledCount && ps[pl][5] as int == pl
                  && ps[pl][..5] == [0, OpSetColor, ByteOf(channel), ByteOf(ledIndex), ByteOf(ledCount)])
            && (forall q :: 6 <= q < 6 + ledCount ==>
                  && ps[0][q] == ToByte(color[ledIndex + (q - 6)].red)
                  && ps[1][q] == ToByte(color[ledIndex + (q - 6)].green)
                  && ps[2][q] == ToByte(color[ledIndex + (q - 6)].blue))
  {
    var ps := PlanePackets(channel, ledIndex, ledCount, color);
    PlanePacketLayout(channel, ledIndex, ledCount, color, 0);
    PlanePacketLayout(channel, ledIndex, ledCount, color, 1);
    PlanePacketLayout(channel, ledIndex, ledCount, color, 2);
    forall pl | 0 <= pl < 3
      ensures ps[pl][..5] == [0, OpSetColor, ByteOf(channel), ByteOf(ledIndex), ByteOf(ledCount)]
    {
      assert ps[pl][..5] == ps[pl][..6][..5];
    }
  }

  /** With confirmation on, a validated range is written plane by plane up
      to and including the first plane whose reply is non-zero, and the
      result is false then; when all three replies are 0, all three packets
      go out and the result is true. */
  lemma SetLedColorConfirmed(channel: int, ledIndex: int, ledCount: int, color: seq<Color>,
                             replies: Replies, k: nat)
    requires InRange(ledIndex, ledCount) && !ReadsPastEnd(ledIndex, ledCount, color)
    ensures var run := SetLedColorRun(channel, ledIndex, ledCount, color, true, replies, k);
            var ps := PlanePackets(channel, ledIndex, ledCount, color);
            var m := FirstRejected(replies, k, 3);
            run == if m < 3 then Run(Returned(false), ps[..m + 1], m + 1) else Run(Returned(true), ps, 3)
  {
    SendAllConfirmed(PlanePackets(channel, ledIndex, ledCount, color), replies, k);
  }

  /** `SetLEDColorRange` from chunk i on, on a connected device whose next
      reply is number k: each chunk is one `SetLEDColor` call; a call that
      returns false or throws ends the whole operation, keeping whatever the
      earlier chunks already wrote. */
  function RangeRunFrom(channel: int, index: int, color: seq<Color>, confirm: bool,
                        replies: Replies, k: nat, i: nat): Run
    requires i <= ChunkCount(|color|)
    decreases ChunkCount(|color|) - i
  {
    if i == ChunkCount(|color|) then Run(Returned(true), [], 0)
    else
      var c := ChunkAt(index, |color|, i);
      var first := SetLedColorRun(channel, c.start, c.count, color, confirm, replies, k);
      if first.outcome != Returned(true) then first
      else After(first.packets, first.repliesRead,
                 RangeRunFrom(channel, index, color, confirm, replies, k + first.repliesRead, i + 1))
  }

  /** One `SetLEDColor` call writes at most three packets, reads one reply
      per packet under confirmation and none otherwise, and returns false
      only under confirmation. */
  lemma ChunkCounts(channel: int, ledIndex: int, ledCount: int, color: seq<Color>, confirm: bool,
                    replies: Replies, k: nat)
    ensures var first := SetLedColorRun(channel, ledIndex, ledCount, color, confirm, replies, k);
            && |first.packets| <= 3
            && first.repliesRead == (if confirm then |first.packets| else 0)
            && (!confirm ==> first.outcome != Returned(false))
  {
    SetLedColorRunShape(channel, ledIndex, ledCount, color, confirm, replies, k);
  }

  /** From chunk i on, `SetLEDColorRange` makes at most one `SetLEDColor` call
      per remaining chunk (three packets each), reads one reply per packet
      under confirmation and none otherwise, and never returns false without
      confirmation. */
  lemma {:induction false} RangeRunCounts(channel: int, index: int, color: seq<Color>, confirm: bool,
                                          replies: Replies, k: nat, i: nat)
    requires i <= ChunkCount(|color|)
    ensures var run := RangeRunFrom(channel, index, color, confirm, replies, k, i);
      && |run.packets| <= 3 * (ChunkCount(|color|) - i)
      && run.repliesRead == (if confirm then |run.packets| else 0)
      && (!confirm ==> run.outcome != Returned(false))
    decreases ChunkCount(|color|) - i
  {
    if i < ChunkCount(|color|) {
      var c := ChunkAt(index, |color|, i);
      ChunkCounts(channel, c.start, c.count, color, confirm, replies, k);
      var first := SetLedColorRun(channel, c.start, c.count, color, confirm, replies, k);
      var rest := RangeRunFrom(channel, index, color, confirm, replies, k + first.repliesRead, i + 1);
      assert RangeRunFrom(channel, index, color, confirm, replies, k, i)
             == if first.outcome != Returned(true) then first else After(first.packets, first.repliesRead, rest);
      if first.outcome == Returned(true) {
        RangeRunCounts(channel, index, color, confirm, replies, k + first.repliesRead, i + 1);
        assert |first.packets + rest.packets| == |first.packets| + |rest.packets|;
      }
    }
  }

  /** Under confirmation, one `SetLEDColor` call reads one reply per packet
      and keeps the reply facts. */
  lemma ChunkRepliesConfirmed(channel: int, ledIndex: int, ledCount: int, color: seq<Color>,
                              replies: Replies, k: nat)
    ensures var first := SetLedColorRun(channel, ledIndex, ledCount, color, true, replies, k);
            first.repliesRead == |first.packets| && RepliesConfirmed(first, replies, k)
  {
    SetLedColorRunShape(channel, ledIndex, ledCount, color, true, replies, k);
  }

  /** Under confirmation, `SetLEDColorRange` from chunk i on returns false
      only right after a non-zero reply, and every earlier reply it read was
      0 (all of them when it returns true). */
  lemma {:induction false} RangeRunReplies(channel: int, index: int, color: seq<Color>,
                                           replies: Replies, k: nat, i: nat)
    requires i <= ChunkCount(|color|)
    ensures RepliesConfirmed(RangeRunFrom(channel, index, color, true, replies, k, i), replies, k)
    decreases ChunkCount(|color|) - i
  {
    if i < ChunkCount(|color|) {
      var c := ChunkAt(index, |color|, i);
      ChunkRepliesConfirmed(channel, c.start, c.count, color, replies, k);
      var first := SetLedColorRun(channel, c.start, c.count, color, true, replies, k);
      var k' := k + first.repliesRead;
      var rest := RangeRunFrom(channel, index, color, true, replies, k', i + 1);
      assert RangeRunFrom(channel, index, color, true, replies, k, i)
             == if first.outcome != Returned(true) then first else After(first.packets, first.repliesRead, rest);
      if first.outcome == Returned(true) {
        RangeRunReplies(channel, index, color, replies, k', i + 1);
      }
      RepliesConfirmedStep(RangeRunFrom(channel, index, color, true, replies, k, i), first, rest, replies, k);
    }
  }

  /** One chunk of `SetLEDColorRange`: if a run `total` is the traffic
      `sent`/`used` of the chunks before i followed by the rest of the
      operation, chunk i's `SetLEDColor` call comes next; a call that does not
      return true ends the operation with its own outcome, otherwise the split
      moves on to chunk i+1. */
  lemma RangeStep(channel: int, index: int, color: seq<Color>, confirm: bool, replies: Replies,
                  k: nat, i: nat, start: int, count: int, sent: seq<seq<byte>>, used: nat, total: Run)
    requires i < ChunkCount(|color|) && Chunk(start, count) == ChunkAt(index, |color|, i)
    requires total == After(sent, used, RangeRunFrom(channel, index, color, confirm, replies, k + used, i))
    ensures var first := SetLedColorRun(channel, start, count, color, confirm, replies, k + used);
            && (first.outcome != Returned(true) ==> total == After(sent, used, first))
            && (first.outcome == Returned(true) ==>
                  total == After(sent + first.packets, used + first.repliesRead,
                                 RangeRunFrom(channel, index, color, confirm, replies, k + used + first.repliesRead, i + 1)))
  {
    var first := SetLedColorRun(channel, start, count, color, confirm, replies, k + used);
    var rest := RangeRunFrom(channel, index, color, confirm, replies, k + used + first.repliesRead, i + 1);
    assert RangeRunFrom(channel, index, color, confirm, replies, k + used, i)
           == if first.outcome != Returned(true) then first else After(first.packets, first.repliesRead, rest);
    if first.outcome == Returned(true) {
      AfterAfter(sent, used, first.packets, first.repliesRead, rest);
    }
  }

  /** `SetLEDColorRange` on a connected device: at most ceil(|color|/50)
      `SetLEDColor` calls, hence at most three packets per chunk, and an
      empty colour array writes nothing and succeeds. */
  function RangeRun(channel: int, index: int, color: seq<Color>, confirm: bool,
                    replies: Replies, k: nat): (run: Run)
    ensures |run.packets| <= 3 * ChunkCount(|color|)
    ensures color == [] ==> run == Run(Returned(true), [], 0)
  {
    RangeRunCounts(channel, index, color, confirm, replies, k, 0);
    RangeRunFrom(channel, index, color, confirm, replies, k, 0)
  }

  /** The packets of a list of chunks that all pass validation: the three
      planes of each chunk, chunk after chunk. */
  function ChunkPackets(channel: int, color: seq<Color>, cs: seq<Chunk>): (ps: seq<seq<byte>>)
    requires forall c :: c in cs ==> InRange(c.start, c.count) && !ReadsPastEnd(c.start, c.count, color)
    ensures |ps| == 3 * |cs|
  {
    if cs == [] then []
    else PlanePackets(channel, cs[0].start, cs[0].count, color) + ChunkPackets(channel, color, cs[1..])
  }

  /** Every chunk of a call from position 0 with at most 128 colours passes
      `SetLEDColor`'s checks. */
  lemma ChunksFromZeroValid(color: seq<Color>)
    requires |color| <= MaxLeds
    ensures forall c :: c in Chunks(0, |color|) ==> InRange(c.start, c.count) && !ReadsPastEnd(c.start, c.count, color)
  {
    var cs := Chunks(0, |color|);
    ChunksFromZeroTile(|color|);
    forall c | c in cs
      ensures InRange(c.start, c.count) && !ReadsPastEnd(c.start, c.count, color)
    {
      var i :| 0 <= i < |cs| && cs[i] == c;
    }
  }

  /** A chunk that passes validation is sent as its three planes and, unless
      that stops early, the operation carries on with the next chunk: if the
      chunks after it send `tail`, the chunks from it on send its planes
      followed by `tail` as one sequence. */
  lemma RangeStepValid(channel: int, index: int, color: seq<Color>, confirm: bool,
                       replies: Replies, k: nat, i: nat, tail: seq<seq<byte>>)
    requires i < ChunkCount(|color|)
    requires var c := ChunkAt(index, |color|, i);
             InRange(c.start, c.count) && !ReadsPastEnd(c.start, c.count, color)
    requires var c := ChunkAt(index, |color|, i);
             var first := SendAll(PlanePackets(channel, c.start, c.count, color), confirm, replies, k);
             first.outcome == Returned(true) ==>
               RangeRunFrom(channel, index, color, confirm, replies, k + first.repliesRead, i + 1)
               == SendAll(tail, confirm, replies, k + first.repliesRead)
    ensures var c := ChunkAt(index, |color|, i);
            RangeRunFrom(channel, index, color, confirm, replies, k, i)
            == SendAll(PlanePackets(channel, c.start, c.count, color) + tail, confirm, replies, k)
  {
    var c := ChunkAt(index, |color|, i);
    var ps := PlanePackets(channel, c.start, c.count, color);
    var first := SendAll(ps, confirm, replies, k);
    var rest := RangeRunFrom(channel, index, color, confirm, replies, k + first.repliesRead, i + 1);
    assert SetLedColorRun(channel, c.start, c.count, color, confirm, replies, k) == first;
    assert RangeRunFrom(channel, index, color, confirm, replies, k, i)
           == if first.outcome != Returned(true) then first else After(first.packets, first.repliesRead, rest);
    SendAllThen(RangeRunFrom(channel, index, color, confirm, replies, k, i), rest, ps, tail, confirm, replies, k);
  }

  /** From chunk i on, a call whose chunks all pass validation sends the
      three planes of each remaining chunk, chunk after chunk, as one
      confirmed sequence: it stops right after the first rejected packet,
      whichever chunk that packet belongs to. */
  lemma {:induction false} RangeValidTail(channel: int, index: int, color: seq<Color>, confirm: bool,
                                          replies: Replies, k: nat, i: nat)
    requires i <= ChunkCount(|color|)
    requires forall c :: c in Chunks(index, |color|) ==> InRange(c.start, c.count) && !ReadsPastEnd(c.start, c.count, color)
    ensures forall c :: c in Chunks(index, |color|)[i..] ==> InRange(c.start, c.count) && !ReadsPastEnd(c.start, c.count, color)
    ensures RangeRunFrom(channel, index, color, confirm, replies, k, i)
            == SendAll(ChunkPackets(channel, color, Chunks(index, |color|)[i..]), confirm, replies, k)
    decreases ChunkCount(|color|) - i
  {
    var cs := Chunks(index, |color|);
    if i < |cs| {
      var c := ChunkAt(index, |color|, i);
      assert cs[i..][0] == cs[i] == c && cs[i..][1..] == cs[i + 1..];
      assert cs[i] in cs;
      var first := SendAll(PlanePackets(channel, c.start, c.count, color), confirm, replies, k);
      RangeValidTail(channel, index, color, confirm, replies, k + first.repliesRead, i + 1);
      var tail := ChunkPackets(channel, color, cs[i + 1..]);
      RangeStepValid(channel, index, color, confirm, replies, k, i, tail);
      assert ChunkPackets(channel, color, cs[i..]) == PlanePackets(channel, c.start, c.count, color) + tail;
    } else {
      assert cs[i..] == [];
    }
  }

  /** A call from any start index whose chunks all pass validation sends the
      three planes of every chunk, chunk after chunk, as one confirmed
      sequence. */
  lemma RangeValid(channel: int, index: int, color: seq<Color>, confirm: bool, replies: Replies, k: nat)
    requires forall c :: c in Chunks(index, |color|) ==> InRange(c.start, c.count) && !ReadsPastEnd(c.start, c.count, color)
    ensures RangeRun(channel, index, color, confirm, replies, k)
            == SendAll(ChunkPackets(channel, color, Chunks(index, |color|)), confirm, replies, k)
  {
    RangeValidTail(channel, index, color, confirm, replies, k, 0);
    assert Chunks(index, |color|)[0..] == Chunks(index, |color|);
  }

  /** Writing at most 128 colours from position 0 sends the three planes of
      every chunk, chunk after chunk, as one confirmed sequence. */
  lemma RangeFromZero(channel: int, color: seq<Color>, confirm: bool, replies: Replies, k: nat)
    requires |color| <= MaxLeds
    ensures forall c :: c in Chunks(0, |color|) ==> InRange(c.start, c.count) && !ReadsPastEnd(c.start, c.count, color)
    ensures RangeRun(channel, 0, color, confirm, replies, k)
            == SendAll(ChunkPackets(channel, color, Chunks(0, |color|)), confirm, replies, k)
  {
    ChunksFromZeroValid(color);
    RangeValid(channel, 0, color, confirm, replies, k);
  }

  /** With confirmation off, writing at most 128 colours from position 0
      succeeds and writes the three planes of every chunk in order, where the
      chunks cover positions 0 .. |color|-1 without gap or overlap. */
  lemma RangeFromZeroUnconfirmed(channel: int, color: seq<Color>, replies: Replies, k: nat)
    requires |color| <= MaxLeds
    ensures forall c :: c in Chunks(0, |color|) ==> InRange(c.start, c.count) && !ReadsPastEnd(c.start, c.count, color)
    ensures RangeRun(channel, 0, color, false, replies, k)
            == Run(Returned(true), ChunkPackets(channel, color, Chunks(0, |color|)), 0)
    ensures |RangeRun(channel, 0, color, false, replies, k).packets| == 3 * ChunkCount(|color|)
    ensures Positions(Chunks(0, |color|)) == Interval(0, |color|)
  {
    RangeFromZero(channel, color, false, replies, k);
    SendAllUnconfirmed(ChunkPackets(channel, color, Chunks(0, |color|)), replies, k);
    ChunksFromZeroTile(|color|);
  }

  /** With confirmation on, writing at most 128 colours from position 0
      sends the plane packets of the chunks in order up to and including the
      first one whose reply is non-zero, in whichever chunk, and no packet
      after it; the result is false then, and true, with every packet sent,
      exactly when all replies are 0. */
  lemma RangeFromZeroConfirmed(channel: int, color: seq<Color>, replies: Replies, k: nat)
    requires |color| <= MaxLeds
    ensures forall c :: c in Chunks(0, |color|) ==> InRange(c.start, c.count) && !ReadsPastEnd(c.start, c.count, color)
    ensures var ps := ChunkPackets(channel, color, Chunks(0, |color|));
            var m := FirstRejected(replies, k, |ps|);
            RangeRun(channel, 0, color, true, replies, k)
            == if m < |ps| then Run(Returned(false), ps[..m + 1], m + 1) else Run(Returned(true), ps, |ps|)
  {
    RangeFromZero(channel, color, true, replies, k);
    SendAllConfirmed(ChunkPackets(channel, color, Chunks(0, |color|)), replies, k);
  }

  /** No rollback: 130 colours from position 0 are cut into chunks of 50, 50
      and 30; the first two are written (six packets) and the third, ending
      at position 130, fails the index+count check and throws. */
  lemma RangeOf130Throws(channel: int, color: seq<Color>, replies: Replies, k: nat)
    requires |color| == 130
    ensures var run := RangeRun(channel, 0, color, false, replies, k);
            && run.outcome == Threw(IndexOutOfRange)
            && run.packets == PlanePackets(channel, 0, 50, color) + PlanePackets(channel, 50, 50, color)
            && run.repliesRead == 0
  {
    assert ChunkCount(130) == 3;
    SetLedColorUnconfirmed(channel, 0, 50, color, replies, k);
    SetLedColorUnconfirmed(channel, 50, 50, color, replies, k);
    assert ChunkAt(0, 130, 2) == Chunk(100, 30);
    var third := RangeRunFrom(channel, 0, color, false, replies, k, 2);
    assert third == Run(Threw(IndexOutOfRange), [], 0);
    var second := RangeRunFrom(channel, 0, color, false, replies, k, 1);
    assert second.packets == PlanePackets(channel, 50, 50, color);
  }

  /** The colour array is addressed by absolute LED position: with a single
      chunk (at most 50 colours) and a start index inside the array, LED
      index+j receives color[index+j], the first `index` colours are never
      sent, and a start index beyond the array end makes the count negative
      so the call throws without writing. */
  lemma RangeAddressesAbsolutePositions(channel: int, index: int, color: seq<Color>,
                                        replies: Replies, k: nat)
    requires 0 < |color| <= ChunkSize
    ensures var run := RangeRun(channel, index, color, false, replies, k);
            if 0 <= index <= |color| then
              && InRange(index, |color| - index) && !ReadsPastEnd(index, |color| - index, color)
              && run == Run(Returned(true), PlanePackets(channel, index, |color| - index, color), 0)
            else run == Run(Threw(IndexOutOfRange), [], 0)
  {
    assert ChunkCount(|color|) == 1;
    assert ChunkAt(index, |color|, 0) == Chunk(index, |color| - index);
    if 0 <= index <= |color| {
      SetLedColorUnconfirmed(channel, index, |color| - index, color, replies, k);
      var ps := PlanePackets(channel, index, |color| - index, color);
      assert RangeRunFrom(channel, index, color, false, replies, k, 1) == Run(Returned(true), [], 0);
      assert ps + [] == ps;
    }
  }
}
