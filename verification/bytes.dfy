/** Byte-level conversions the Lighting Node Pro commands rely on: the C#
    unchecked `(byte)` cast and the ARGB layout of a colour.

    Two byte types appear: `byte`, an integer newtype, is the element of a
    report buffer, where bytes are set from integers and compared with
    them; `bv8` holds colour components and reply bytes, which the source
    takes apart with shifts and masks. `ToByte` turns the second into the
    first. */
module Bytes {

  /** An element of a C# `byte[]` report buffer. */
  newtype byte = x: int | 0 <= x < 256

  /** The unchecked C# conversion `(byte)x` of a (two's-complement) integer:
      it keeps the low eight bits, so the result is congruent to `x` modulo
      256 and equals `x` whenever `x` already fits in a byte. */
  function ByteOf(x: int): (b: byte)
    ensures (x - b as int) % 256 == 0
    ensures 0 <= x < 256 ==> b as int == x
  {
    (x % 256) as byte
  }

  /** A colour as `System.Drawing.Color` holds it: four 8-bit components. */
  datatype Color = Color(alpha: bv8, red: bv8, green: bv8, blue: bv8)

  /** `Color.ToArgb()`: the 32-bit value 0xAARRGGBB. */
  function ToArgb(c: Color): bv32
  {
    (c.alpha as bv32 << 24) | (c.red as bv32 << 16) | (c.green as bv32 << 8) | c.blue as bv32
  }

  /** The planes of a colour-plane packet: 0 = red, 1 = green, 2 = blue. */
  type Plane = p: nat | p < 3

  /** The shift the writer applies for a plane: 8*(2-plane) bits. */
  function PlaneShift(plane: Plane): bv32
  {
    (8 * (2 - plane)) as bv32
  }

  /** The byte the writer extracts for `plane`: `(byte)((argb >> 8*(2-plane)) & 0xFF)`.
      The source shifts a signed `int`; for shifts of 16, 8 and 0 followed by
      `& 0xFF` the sign bits never reach the result, so an unsigned shift
      gives the same byte. */
  function PlaneByte(argb: bv32, plane: Plane): bv8
  {
    ((argb >> PlaneShift(plane)) & 0xFF) as bv8
  }

  /** The ARGB layout puts red, green and blue in bits 16, 8 and 0, which is
      where the writer's shifts for planes 0, 1 and 2 look. */
  lemma ArgbPlanes(c: Color)
    ensures PlaneByte(ToArgb(c), 0) == c.red
    ensures PlaneByte(ToArgb(c), 1) == c.green
    ensures PlaneByte(ToArgb(c), 2) == c.blue
  {
  }

  /** A bit-vector byte as a buffer element. */
  function ToByte(v: bv8): byte
  {
    v as int as byte
  }

  /** The value a colour contributes to one plane packet: its red, green or
      blue component, in that order of planes. */
  function PlaneValue(c: Color, plane: Plane): (v: byte)
    ensures plane == 0 ==> v == ToByte(c.red)
    ensures plane == 1 ==> v == ToByte(c.green)
    ensures plane == 2 ==> v == ToByte(c.blue)
  {
    ArgbPlanes(c);
    ToByte(PlaneByte(ToArgb(c), plane))
  }
}
