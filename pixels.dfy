/** The pixel buffer the sequences draw into: the strip's colour array, its
    global brightness byte, a count of pushes to the hardware (`show`), and
    the strip library's 8-bit sine table, which the model leaves
    unspecified. */
module Pixels {
  import opened Ints
  import opened Colors

  /** `n` pixels, all of colour `c`. */
  function Filled(n: nat, c: Color): (r: seq<Color>)
    ensures |r| == n && forall i :: 0 <= i < n ==> r[i] == c
  {
    seq(n, _ => c)
  }

  class Strip {
    /** The buffer is allocated once, by the constructor. */
    const pixels: array<Color>
    var brightness: uint8
    /** How many times the buffer was pushed to the hardware. */
    var shows: nat
    const sine8: uint8 -> uint8

    /** `numPixels()` is a `uint16_t`. */
    ghost predicate Valid() {
      pixels.Length < 0x1_0000
    }

    constructor (numPixels: uint16, level: uint8, sine: uint8 -> uint8)
      ensures Valid() && fresh(pixels)
      ensures pixels[..] == Filled(numPixels, BLACK)
      ensures brightness == level && shows == 0 && sine8 == sine
    {
      pixels := new Color[numPixels](_ => BLACK);
      brightness := level;
      shows := 0;
      sine8 := sine;
    }

    function NumPixels(): uint16
      requires Valid()
    {
      pixels.Length
    }

    function GetBrightness(): uint8
      reads this
    {
      brightness
    }

    method SetBrightness(level: uint8)
      modifies this`brightness
      ensures brightness == level
    {
      brightness := level;
    }

    /** `fill(color)` with the default range: every pixel. */
    method Fill(c: Color)
      modifies pixels
      ensures pixels[..] == Filled(pixels.Length, c)
    {
      forall i | 0 <= i < pixels.Length {
        pixels[i] := c;
      }
    }

    /** `setPixelColor(index, color)`: an index past the end is ignored. */
    method SetPixelColor(index: nat, c: Color)
      modifies pixels
      ensures pixels[..] == if index < pixels.Length then old(pixels[..])[index := c] else old(pixels[..])
    {
      if index < pixels.Length {
        pixels[index] := c;
      }
    }

    /** `show()`: pushes the buffer to the hardware. */
    method Show()
      modifies this`shows
      ensures shows == old(shows) + 1
    {
      shows := shows + 1;
    }
  }
}
