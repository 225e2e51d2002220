/** How `SetLEDColorRange` cuts a colour array into bursts of at most 50
    LEDs: the number of chunks, and each chunk's start and count. */
module Chunking {

  /** The per-packet LED ceiling the chunker uses. */
  const ChunkSize := 50

  /** The loop bound `len/50 + (len%50 == 0 ? 0 : 1)`: the ceiling of len/50. */
  function ChunkCount(len: nat): (n: nat)
    ensures len <= ChunkSize * n < len + ChunkSize
  {
    len / ChunkSize + (if len % ChunkSize == 0 then 0 else 1)
  }

  /** A chunk as passed to `SetLEDColor`: the first LED position and the LED
      count. Both are plain integers: for a non-zero start index the last
      count can be negative. */
  datatype Chunk = Chunk(start: int, count: int)

  /** Chunk i of a colour array of length len written from position index:
      it starts at index + 50*i; its count is 50, unless (i+1)*50 >= len,
      in which case it is len - (index + 50*i), i.e. the chunk runs up to
      absolute position len whatever index is. */
  function ChunkAt(index: int, len: nat, i: nat): Chunk
  {
    if (1 + i) * ChunkSize >= len then Chunk(index + i * ChunkSize, len - (index + i * ChunkSize))
    else Chunk(index + i * ChunkSize, ChunkSize)
  }

  /** All chunks of one call, in loop order. */
  function Chunks(index: int, len: nat): (cs: seq<Chunk>)
    ensures |cs| == ChunkCount(len)
    ensures forall i :: 0 <= i < |cs| ==> cs[i] == ChunkAt(index, len, i)
    ensures forall i :: 0 <= i < |cs| ==> cs[i].start == index + ChunkSize * i
    ensures forall i :: 0 <= i < |cs| - 1 ==> cs[i].count == ChunkSize
    ensures |cs| > 0 ==> cs[|cs| - 1].start + cs[|cs| - 1].count == len
  {
    seq(ChunkCount(len), i requires 0 <= i => ChunkAt(index, len, i))
  }

  /** The LED positions a chunk addresses (none when its count is not positive). */
  function Span(c: Chunk): seq<int>
  {
    seq(if c.count < 0 then 0 else c.count, j => c.start + j)
  }

  /** The LED positions a list of chunks addresses, in order. */
  function Positions(cs: seq<Chunk>): seq<int>
  {
    if cs == [] then [] else Span(cs[0]) + Positions(cs[1..])
  }

  /** The positions from, from+1, ..., to-1 (none when to <= from). */
  function Interval(from: int, to: int): seq<int>
  {
    seq(if to < from then 0 else to - from, k => from + k)
  }

  /** A chunk with a non-negative count addresses the interval it starts. */
  lemma SpanInterval(c: Chunk)
    requires c.count >= 0
    ensures Span(c) == Interval(c.start, c.start + c.count)
  {
  }

  /** An interval splits at any point inside it. */
  lemma IntervalSplit(a: int, b: int, c: int)
    requires a <= b <= c
    ensures Interval(a, c) == Interval(a, b) + Interval(b, c)
  {
    assert forall k :: 0 <= k < c - a ==> Interval(a, c)[k] == (Interval(a, b) + Interval(b, c))[k];
  }

  /** From chunk i on, the chunks of a call from position 0 cover the
      positions 50*i .. len-1 in order, each chunk holding 1 to 50 LEDs. */
  lemma {:induction false} ChunksFromZeroTail(len: nat, i: nat)
    requires i <= ChunkCount(len)
    ensures Positions(Chunks(0, len)[i..]) == Interval(ChunkSize * i, len)
    ensures forall c :: c in Chunks(0, len)[i..] ==> 1 <= c.count <= ChunkSize
    decreases ChunkCount(len) - i
  {
    var cs := Chunks(0, len);
    if i < |cs| {
      ChunksFromZeroTail(len, i + 1);
      assert cs[i..][0] == cs[i] && cs[i..][1..] == cs[i + 1..];
      assert Positions(cs[i..]) == Span(cs[i]) + Positions(cs[i + 1..]);
      var a, b := ChunkSize * i, ChunkSize * (i + 1);
      assert cs[i].start == a;
      if i + 1 < |cs| {
        assert b < len && cs[i].count == ChunkSize;
        SpanInterval(cs[i]);
        IntervalSplit(a, b, len);
      } else {
        assert len <= b && cs[i].count == len - a;
        SpanInterval(cs[i]);
        assert Interval(b, len) == [];
        assert Interval(a, len) + [] == Interval(a, len);
      }
    }
  }

  /** Written from position 0, the chunks address every LED 0 .. len-1 once,
      in order, without gap or overlap, and each holds between 1 and 50 LEDs. */
  lemma ChunksFromZeroTile(len: nat)
    ensures Positions(Chunks(0, len)) == Interval(0, len)
    ensures forall c :: c in Chunks(0, len) ==> 1 <= c.count <= ChunkSize
  {
    ChunksFromZeroTail(len, 0);
    assert Chunks(0, len)[0..] == Chunks(0, len);
  }
}
