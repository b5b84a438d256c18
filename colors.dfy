/** Packed 32-bit colours (namespace `anime::detail`): white in the highest
    byte, then red, green and blue in the lowest byte. */
module Colors {
  import opened Ints

  type Color = uint32

  const BLACK: Color := 0x000000

  /** `(color >> 24) & 0xFF` */
  function White(c: Color): uint8 { c / 0x100_0000 % 0x100 }

  /** `(color >> 16) & 0xFF` */
  function Red(c: Color): uint8 { c / 0x1_0000 % 0x100 }

  /** `(color >> 8) & 0xFF` */
  function Green(c: Color): uint8 { c / 0x100 % 0x100 }

  /** `color & 0xFF` */
  function Blue(c: Color): uint8 { c % 0x100 }

  /** One channel argument of `colorRGBW`: `static_cast<uint32_t>(x) & 0xFF`,
      the low byte of the two's-complement representation of `x`. */
  function Lane(x: int32): (r: uint8)
    ensures r == x % 0x100
    ensures 0 <= x < 0x100 ==> r == x
  {
    Wrap32(x) % 0x100
  }

  /** `colorRGBW(red, green, blue, white)`. The four masked lanes occupy
      disjoint bits, so the source's bitwise `|` of the shifted lanes is
      their sum. */
  function ColorRGBW(red: int32, green: int32, blue: int32, white: int32): Color {
    Lane(white) * 0x100_0000 + Lane(red) * 0x1_0000 + Lane(green) * 0x100 + Lane(blue)
  }

  /** Unpacking a colour into its four channels and packing them again gives
      the colour back. */
  lemma ColorRGBWOfChannels(c: Color)
    ensures ColorRGBW(Red(c), Green(c), Blue(c), White(c)) == c
  {
    var hi := c / 0x100;
    assert c == hi * 0x100 + Blue(c);
    assert hi == (c / 0x1_0000) * 0x100 + Green(c);
    assert c / 0x1_0000 == White(c) * 0x100 + Red(c);
  }

  /** Each getter applied to `colorRGBW(r, g, b, w)` returns the matching
      argument reduced to its low byte. */
  lemma ChannelsOfColorRGBW(r: int32, g: int32, b: int32, w: int32)
    ensures Red(ColorRGBW(r, g, b, w)) == r % 0x100
    ensures Green(ColorRGBW(r, g, b, w)) == g % 0x100
    ensures Blue(ColorRGBW(r, g, b, w)) == b % 0x100
    ensures White(ColorRGBW(r, g, b, w)) == w % 0x100
  {
    var c := ColorRGBW(r, g, b, w);
    var lw: int, lr: int, lg: int, lb: int := Lane(w), Lane(r), Lane(g), Lane(b);
    DivModUnique(c, 0x100, lw * 0x1_0000 + lr * 0x100 + lg, lb);
    DivModUnique(c / 0x100, 0x100, lw * 0x100 + lr, lg);
    DivModUnique(c, 0x1_0000, lw * 0x100 + lr, lg * 0x100 + lb);
    DivModUnique(c / 0x1_0000, 0x100, lw, lr);
    DivModUnique(c, 0x100_0000, lw, lr * 0x1_0000 + lg * 0x100 + lb);
  }

  /** Two colours are equal exactly when all four channels are. */
  lemma ColorsEqualByChannels(c: Color, d: Color)
    ensures c == d <==>
      Red(c) == Red(d) && Green(c) == Green(d) && Blue(c) == Blue(d) && White(c) == White(d)
  {
    ColorRGBWOfChannels(c);
    ColorRGBWOfChannels(d);
  }

  /** Comet's `reduceBrightness`: `(color >> 1) & 0x7F7F7F7F`. */
  function ReduceBrightness(c: Color): (r: Color)
    ensures r <= c / 2
  {
    And(c / 2, 0x7F7F7F7F)
  }

  /** Halving `y` and then dropping a byte is dropping a byte and then
      halving; the low seven bits of the half come from the low byte. */
  lemma HalfThenByte(y: nat)
    ensures (y / 2) / 0x100 == (y / 0x100) / 2
    ensures (y / 2) % 0x80 == (y % 0x100) / 2
  {
    var q, r := y / 0x100, y % 0x100;
    DivModUnique(y, 2, 0x80 * q + r / 2, r % 2);
    DivModUnique(y / 2, 0x80, q, r / 2);
    DivModUnique(y / 2, 0x100, q / 2, 0x80 * (q % 2) + r / 2);
  }

  /** And with a mask whose low byte is 0x7F keeps the low seven bits and
      leaves the higher bytes to the rest of the mask. */
  lemma PeelLane(x: nat, mask: nat)
    ensures And(x, mask * 0x100 + 0x7F) == And(x / 0x100, mask) * 0x100 + x % 0x80
  {
    assert Pow2(8) == 0x100 && Pow2(7) == 0x80;
    AndSplit(x / 0x100, x % 0x100, mask, 0x7F, 8);
    AndLowMask(x % 0x100, 7);
    DivModUnique(x, 0x80, 2 * (x / 0x100) + (x % 0x100) / 0x80, (x % 0x100) % 0x80);
  }

  lemma LowSevenBits(x: nat)
    requires x < 0x80
    ensures And(x, 0x7F) == x
  {
    AndLowMask(x, 7);
    assert Pow2(7) == 0x80;
  }

  /** One lane of `reduceBrightness`: the halved low byte of `y` lands
      below whatever the mask keeps of the halved upper bytes. */
  lemma PeelHalf(y: nat, mask: nat, upper: nat)
    requires And((y / 0x100) / 2, mask) == upper
    ensures And(y / 2, mask * 0x100 + 0x7F) == upper * 0x100 + (y % 0x100) / 2
  {
    HalfThenByte(y);
    PeelLane(y / 2, mask);
  }

  /** Dropping one byte after another. */
  lemma ByteShifts(c: Color)
    ensures c / 0x100 / 0x100 == c / 0x1_0000
    ensures c / 0x1_0000 / 0x100 == c / 0x100_0000 == White(c)
  {
    DivModUnique(c / 0x100_0000, 0x100, 0, c / 0x100_0000);
    DivModUnique(c, 0x1_0000, c / 0x100 / 0x100, (c / 0x100 % 0x100) * 0x100 + c % 0x100);
    DivModUnique(c, 0x100_0000, c / 0x1_0000 / 0x100, (c / 0x1_0000 % 0x100) * 0x1_0000 + c % 0x1_0000);
  }

  /** `reduceBrightness` halves every byte lane on its own: the bit shifted
      out of one channel never reaches the channel below it. */
  lemma ReduceBrightnessHalvesChannels(c: Color)
    ensures ReduceBrightness(c) == ColorRGBW(Red(c) / 2, Green(c) / 2, Blue(c) / 2, White(c) / 2)
  {
    var w, r, g, b := White(c) / 2, Red(c) / 2, Green(c) / 2, Blue(c) / 2;
    // peel one byte lane per step, from white down to blue
    assert And(c / 0x1_0000 / 0x100 / 2, 0x7F) == w by {
      ByteShifts(c);
      LowSevenBits(w);
    }
    assert And(c / 0x1_0000 / 2, 0x7F7F) == w * 0x100 + r by {
      PeelHalf(c / 0x1_0000, 0x7F, w);
    }
    assert And(c / 0x100 / 2, 0x7F7F7F) == (w * 0x100 + r) * 0x100 + g by {
      ByteShifts(c);
      PeelHalf(c / 0x100, 0x7F7F, w * 0x100 + r);
    }
    assert ReduceBrightness(c) == ((w * 0x100 + r) * 0x100 + g) * 0x100 + b by {
      PeelHalf(c, 0x7F7F7F, (w * 0x100 + r) * 0x100 + g);
    }
    PackedLanes(r, g, b, w);
  }

  /** Packing four bytes. */
  lemma PackedLanes(r: uint8, g: uint8, b: uint8, w: uint8)
    ensures ColorRGBW(r, g, b, w) == ((w * 0x100 + r) * 0x100 + g) * 0x100 + b
  {
  }

  /** Halving never brightens a channel, and darkens every channel that is
      not already zero. */
  lemma ReduceBrightnessChannels(c: Color)
    ensures Red(ReduceBrightness(c)) == Red(c) / 2
    ensures Green(ReduceBrightness(c)) == Green(c) / 2
    ensures Blue(ReduceBrightness(c)) == Blue(c) / 2
    ensures White(ReduceBrightness(c)) == White(c) / 2
  {
    ReduceBrightnessHalvesChannels(c);
    ChannelsOfColorRGBW(Red(c) / 2, Green(c) / 2, Blue(c) / 2, White(c) / 2);
  }
}
