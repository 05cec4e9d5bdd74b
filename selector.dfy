/** Random colour selection: a fixed palette, an index drawn as a 32-bit
    random value modulo the palette length, and a second draw that halves
    the brightness when it is even. The hardware random source is replaced
    by the two drawn values, passed in. */
module Selector {
  import opened Rgb

  /** An unsigned 32-bit value, as returned by the random source. */
  type U32 = x: int | 0 <= x < 0x1_0000_0000

  /** The seven colours the firmware cycles through: white, red, green,
      blue, yellow, purple, cyan. */
  const Palette: seq<MyColor> := [
    MyColor(12, 24, 12),
    MyColor(48, 0, 0),
    MyColor(0, 48, 0),
    MyColor(0, 0, 48),
    MyColor(24, 24, 0),
    MyColor(24, 0, 24),
    MyColor(0, 24, 24)
  ]

  /** The palette index chosen by the first draw: the draw reduced modulo
      the palette length, so always a valid index, and one that differs
      from the draw by a whole number of palette lengths. */
  function PickIndex(palette: seq<MyColor>, draw: U32): (i: nat)
    requires |palette| > 0
    ensures i < |palette|
    ensures draw == (draw / |palette|) * |palette| + i
  {
    draw % |palette|
  }

  /** Whether the second draw asks for half brightness. */
  predicate IsHalf(draw: U32) {
    draw % 2 == 0
  }

  /** The colour chosen by the two draws. It is always a palette entry or
      that entry halved, never anything else. */
  function Pick(palette: seq<MyColor>, draw1: U32, draw2: U32): (c: MyColor)
    requires |palette| > 0
    ensures exists i :: 0 <= i < |palette| && (c == palette[i] || c == HalfBrightness(palette[i]))
  {
    var color := palette[PickIndex(palette, draw1)];
    if IsHalf(draw2) then HalfBrightness(color) else color
  }

  /** The selection the firmware makes on a falling edge. */
  function SelectColor(draw1: U32, draw2: U32): (c: MyColor)
    ensures c in Palette || exists i :: 0 <= i < |Palette| && c == HalfBrightness(Palette[i])
  {
    Pick(Palette, draw1, draw2)
  }

  /** No palette entry is black, so the halved and the full colour of an
      entry always differ. */
  lemma PaletteHasNoBlack(i: nat)
    requires i < |Palette|
    ensures Palette[i] != MyColor(0, 0, 0)
    ensures HalfBrightness(Palette[i]) != MyColor(0, 0, 0)
  {
  }

  /** Halving happens exactly when the second draw is even; otherwise the
      palette entry is emitted unchanged. */
  lemma {:induction false} HalvedExactlyWhenEven(draw1: U32, draw2: U32)
    ensures var entry := Palette[PickIndex(Palette, draw1)];
            && (SelectColor(draw1, draw2) == HalfBrightness(entry) <==> draw2 % 2 == 0)
            && (SelectColor(draw1, draw2) == entry <==> draw2 % 2 != 0)
  {
    var i := PickIndex(Palette, draw1);
    PaletteHasNoBlack(i);
    HalfBrightnessFixedOnlyAtBlack(Palette[i]);
  }

  /** The selected colour never converts to the all-zero record that the
      firmware writes to switch the LED off. */
  lemma SelectedColorIsNeverOff(draw1: U32, draw2: U32)
    ensures ToRgb8(SelectColor(draw1, draw2)) != RGB8(0, 0, 0)
  {
    var i := PickIndex(Palette, draw1);
    PaletteHasNoBlack(i);
  }

  /** With a single-entry palette every draw selects that entry. */
  lemma SingleEntryPalette(e: MyColor, draw1: U32, draw2: U32)
    ensures PickIndex([e], draw1) == 0
    ensures Pick([e], draw1, draw2) == if draw2 % 2 == 0 then HalfBrightness(e) else e
  {
  }

  /** A first draw that selects index 0 followed by an even second draw
      gives the halved white entry. */
  lemma HalfWhiteScenario(draw1: U32, draw2: U32)
    requires draw1 % 7 == 0 && draw2 % 2 == 0
    ensures SelectColor(draw1, draw2) == MyColor(6, 12, 6)
  {
  }

  /** How many of the draws `0 .. n-1` make `PickIndex` choose index `i`
      of `palette`. */
  function DrawsMappingTo(n: nat, palette: seq<MyColor>, i: nat): (k: nat)
    requires 0 < |palette| && n <= 0x1_0000_0000
    ensures k <= n
  {
    if n == 0 then 0
    else DrawsMappingTo(n - 1, palette, i) + (if PickIndex(palette, n - 1) == i then 1 else 0)
  }

  /** Dividing `k + 1` by `m` from the quotient and remainder of `k`. */
  lemma DivModSucc(k: nat, m: nat)
    requires 0 < m
    ensures k % m + 1 < m ==> (k + 1) / m == k / m && (k + 1) % m == k % m + 1
    ensures k % m + 1 == m ==> (k + 1) / m == k / m + 1 && (k + 1) % m == 0
  {
    var q, r := k / m, k % m;
    assert k == m * q + r;
    if r + 1 < m {
      assert k + 1 == m * q + (r + 1);
      DivModUnique(k + 1, m, q, r + 1);
    } else {
      assert k + 1 == m * (q + 1) + 0;
      DivModUnique(k + 1, m, q + 1, 0);
    }
  }

  /** Quotient and remainder are determined by the division equation. */
  lemma DivModUnique(n: nat, m: nat, q: int, r: int)
    requires 0 < m && 0 <= r < m && n == m * q + r
    ensures n / m == q && n % m == r
  {
    var q', r' := n / m, n % m;
    assert n == m * q' + r';
    if q > q' {
      assert m * q == m * q' + m * (q - q');
      MulAtLeast(m, q - q');
    } else if q < q' {
      assert m * q' == m * q + m * (q' - q);
      MulAtLeast(m, q' - q);
    }
  }

  /** A positive multiple of `m` is at least `m`. */
  lemma MulAtLeast(m: nat, d: int)
    requires 0 < m && 1 <= d
    ensures m * d >= m
  {
    if d > 1 {
      MulAtLeast(m, d - 1);
      assert m * d == m * (d - 1) + m;
    }
  }

  /** Among the draws `0 .. n-1`, each index below `n` modulo the palette
      length is chosen once more than the others. */
  lemma {:induction false} DrawsMappingToClosed(n: nat, palette: seq<MyColor>, i: nat)
    requires 0 < |palette| && n <= 0x1_0000_0000 && i < |palette|
    ensures DrawsMappingTo(n, palette, i) == n / |palette| + (if i < n % |palette| then 1 else 0)
  {
    if n > 0 {
      DrawsMappingToClosed(n - 1, palette, i);
      DivModSucc(n - 1, |palette|);
    }
  }

  /** The modulo selection is biased: of the 2^32 possible first draws,
      indices 0 to 3 are each chosen by one value more than indices 4 to 6. */
  lemma PaletteIndexBias(i: nat)
    requires i < |Palette|
    ensures DrawsMappingTo(0x1_0000_0000, Palette, i)
            == if i < 4 then 613566757 else 613566756
  {
    DrawsMappingToClosed(0x1_0000_0000, Palette, i);
  }
}
