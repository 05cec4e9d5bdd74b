/** The colour value type of the firmware: an RGB triple of 8-bit channels,
    its half-brightness variant, and the record the LED driver accepts. */
module Rgb {

  /** An unsigned 8-bit channel intensity. */
  type U8 = x: int | 0 <= x < 256

  /** The firmware's own colour: fields 0, 1 and 2 are red, green and blue. */
  datatype MyColor = MyColor(0: U8, 1: U8, 2: U8)

  /** The driver's colour record. */
  datatype RGB8 = RGB8(r: U8, g: U8, b: U8)

  /** `y` is the floor of half of `x`. */
  predicate IsFloorHalf(x: int, y: int) {
    2 * y <= x < 2 * y + 2
  }

  /** Integer division by two on each channel. Each result channel is the
      floor of half of the same input channel and of nothing else, never
      exceeds it, and is at most 127. */
  function HalfBrightness(c: MyColor): (h: MyColor)
    ensures IsFloorHalf(c.0, h.0) && IsFloorHalf(c.1, h.1) && IsFloorHalf(c.2, h.2)
    ensures h.0 <= c.0 && h.1 <= c.1 && h.2 <= c.2
    ensures h.0 <= 127 && h.1 <= 127 && h.2 <= 127
  {
    MyColor(c.0 / 2, c.1 / 2, c.2 / 2)
  }

  /** Copies fields 0, 1, 2 into `r`, `g`, `b`, values unchanged. */
  function ToRgb8(c: MyColor): (v: RGB8)
    ensures v.r == c.0 && v.g == c.1 && v.b == c.2
  {
    RGB8(c.0, c.1, c.2)
  }

  /** Halving leaves a colour unchanged exactly when every channel is zero. */
  lemma HalfBrightnessFixedOnlyAtBlack(c: MyColor)
    ensures HalfBrightness(c) == c <==> c == MyColor(0, 0, 0)
  {
    if HalfBrightness(c) == c {
      assert c.0 / 2 == c.0 && c.1 / 2 == c.1 && c.2 / 2 == c.2;
    }
  }

  /** Each channel of the halved colour depends on the same channel of the
      input only. */
  lemma HalfBrightnessChannelwise(a: MyColor, b: MyColor)
    ensures a.0 == b.0 ==> HalfBrightness(a).0 == HalfBrightness(b).0
    ensures a.1 == b.1 ==> HalfBrightness(a).1 == HalfBrightness(b).1
    ensures a.2 == b.2 ==> HalfBrightness(a).2 == HalfBrightness(b).2
  {
  }

  /** The conversion loses nothing: distinct colours give distinct records. */
  lemma ToRgb8Injective(a: MyColor, b: MyColor)
    ensures ToRgb8(a) == ToRgb8(b) <==> a == b
  {
  }
}
