/** What each effect draws, as functions of the strip's contents, the step
    number and the configured colour: SolidColor, ColorWipe, Pulse, Fade and
    Comet (the subclasses of `Sequence` in `Animation.h`). */
module Effects {
  import opened Ints
  import opened Colors
  import opened Pixels

  /** Fade's four `int16_t` differences between colour 0 and colour 1. */
  datatype Diffs = Diffs(red: int16, green: int16, blue: int16, white: int16)

  /** The concrete effect a sequence runs, with the per-effect state that is
      a value. Comet's four-colour ladder is an array the sequence owns. */
  datatype Effect = SolidColor | ColorWipe | Pulse | Fade(diffs: Diffs) | Comet

  // ----- ColorWipe ---------------------------------------------------------

  /** ColorWipe's step hook: pixel `step % n` takes the colour. */
  function WipePixels(pixels: seq<Color>, step: uint32, c: Color): (r: seq<Color>)
    requires |pixels| > 0
    ensures |r| == |pixels| && r[step % |pixels|] == c
    ensures forall j :: 0 <= j < |pixels| && j != step % |pixels| ==> r[j] == pixels[j]
  {
    pixels[step % |pixels| := c]
  }

  /** The strip after ColorWipe's start hook and then its step hook for the
      steps 0, 1, ..., k - 1, all with the colour `c`. */
  function WipeRun(n: nat, k: nat, c: Color): (r: seq<Color>)
    requires n > 0 && k <= TWO_TO_32
    ensures |r| == n
  {
    if k == 0 then Filled(n, BLACK) else WipePixels(WipeRun(n, k - 1, c), k - 1, c)
  }

  /** The wipe is cumulative: after k steps the first min(k, n) pixels are
      lit and the rest are still black; the pixel of the last step is lit. */
  lemma {:induction false} WipeRunLightsPrefix(n: nat, k: nat, c: Color)
    requires n > 0 && k <= TWO_TO_32
    ensures forall j :: 0 <= j < n ==> WipeRun(n, k, c)[j] == if j < k then c else BLACK
    ensures k > 0 ==> WipeRun(n, k, c)[(k - 1) % n] == c
  {
    if k > 0 {
      WipeRunLightsPrefix(n, k - 1, c);
      var prev, cur := WipeRun(n, k - 1, c), WipeRun(n, k, c);
      var lit := (k - 1) % n;
      if k - 1 < n {
        DivModUnique(k - 1, n, 0, k - 1);
      }
      assert lit < n && (k - 1 < n ==> lit == k - 1);
      forall j | 0 <= j < n
        ensures cur[j] == if j < k then c else BLACK
      {
        if j != lit {
          assert cur[j] == prev[j];
        }
      }
    }
  }

  // ----- Pulse -------------------------------------------------------------

  /** Pulse's multiplier: `step % 0x20`, mirrored as `0x20 - step % 0x20`
      when bit 5 of the step is set. */
  function PulseMultiplier(step: uint32): (m: int)
    ensures 0 <= m <= 0x20
  {
    var m := step % 0x20;
    if And(step, 0x20) != 0 then 0x20 - m else m
  }

  /** The multiplier is a triangle over 64 steps: it rises from 0 to 32 over
      steps 0 to 32 and falls back over steps 33 to 63, so it depends on the
      step only modulo 64 and peaks at 32, not 31. */
  lemma PulseMultiplierTriangle(step: uint32)
    ensures PulseMultiplier(step) == if step % 0x40 <= 0x20 then step % 0x40 else 0x40 - step % 0x40
  {
    AndBit(step, 5);
    assert Pow2(5) == 0x20;
    DivModUnique(step, 0x40, step / 0x40, 0x20 * ((step / 0x20) % 2) + step % 0x20);
  }

  /** `(channel * multiplier) / 0x20` */
  function PulseChannel(channel: uint8, m: int): (r: uint8)
    requires 0 <= m <= 0x20
    ensures r <= channel
    ensures m == 0 ==> r == 0
    ensures m == 0x20 ==> r == channel
  {
    MulNonneg(channel, 0x20 - m);
    channel * m / 0x20
  }

  /** The colour Pulse's step hook fills the strip with. */
  function PulseColor(c: Color, step: uint32): Color {
    var m := PulseMultiplier(step);
    ColorRGBW(PulseChannel(Red(c), m), PulseChannel(Green(c), m), PulseChannel(Blue(c), m), PulseChannel(White(c), m))
  }

  /** Every channel of the pulse colour is the source channel scaled by
      multiplier/32, so never brighter than the source. */
  lemma PulseColorChannels(c: Color, step: uint32)
    ensures Red(PulseColor(c, step)) == Red(c) * PulseMultiplier(step) / 0x20 <= Red(c)
    ensures Green(PulseColor(c, step)) == Green(c) * PulseMultiplier(step) / 0x20 <= Green(c)
    ensures Blue(PulseColor(c, step)) == Blue(c) * PulseMultiplier(step) / 0x20 <= Blue(c)
    ensures White(PulseColor(c, step)) == White(c) * PulseMultiplier(step) / 0x20 <= White(c)
  {
    var m := PulseMultiplier(step);
    ChannelsOfColorRGBW(PulseChannel(Red(c), m), PulseChannel(Green(c), m), PulseChannel(Blue(c), m), PulseChannel(White(c), m));
  }

  /** Black at the trough of the triangle, exactly colour 0 at its peak. */
  lemma PulseColorTroughAndPeak(c: Color, step: uint32)
    ensures step % 0x40 == 0 ==> PulseColor(c, step) == BLACK
    ensures step % 0x40 == 0x20 ==> PulseColor(c, step) == c
  {
    PulseMultiplierTriangle(step);
    ColorRGBWOfChannels(c);
  }

  /** The pulse colour depends on the step only modulo 64. */
  lemma PulseColorPeriodic(c: Color, s1: uint32, s2: uint32)
    requires s1 % 0x40 == s2 % 0x40
    ensures PulseColor(c, s1) == PulseColor(c, s2)
  {
    PulseMultiplierTriangle(s1);
    PulseMultiplierTriangle(s2);
  }

  // ----- Fade --------------------------------------------------------------

  /** Fade's `initialize()`: per channel, colour 0 minus colour 1. */
  function FadeDiffs(c0: Color, c1: Color): (d: Diffs)
    ensures -0xFF <= d.red <= 0xFF && -0xFF <= d.green <= 0xFF
    ensures -0xFF <= d.blue <= 0xFF && -0xFF <= d.white <= 0xFF
  {
    Diffs(Red(c0) - Red(c1), Green(c0) - Green(c1), Blue(c0) - Blue(c1), White(c0) - White(c1))
  }

  /** The sine-table index of a step, `static_cast<uint8_t>((step << 2) + 0x40)`
      with `uint32_t` arithmetic: it advances 4 per step and repeats every
      64 steps. */
  function FadePhase(step: uint32): (phase: uint8)
    ensures phase == (4 * (step % 0x40) + 0x40) % 0x100
  {
    var shifted := Wrap32(step * 4);
    var low := 4 * (step % 0x40);
    DivModUnique(step * 4, 0x100, step / 0x40, low);
    Wrap32LowByte(step * 4);
    Wrap32LowByte(shifted + 0x40);
    DivModUnique(shifted + 0x40, 0x100, shifted / 0x100 + (low + 0x40) / 0x100, (low + 0x40) % 0x100);
    Wrap32(shifted + 0x40) % 0x100
  }

  /** One channel of Fade's step: `(diff * multiplier) / 255 + base` with
      C++ division, before it is masked to a byte. It lies between `base`
      and `base + diff`, and reaches each end at multiplier 0 and 255. */
  function FadeChannel(diff: int16, m: uint8, base: uint8): (r: int32)
    ensures m == 0 ==> r == base
    ensures m == 0xFF ==> r == base + diff
    ensures diff >= 0 ==> base <= r <= base + diff
    ensures diff <= 0 ==> base + diff <= r <= base
  {
    FadeScaleBounds(diff, m);
    TruncDiv(diff * m, 0xFF) + base
  }

  lemma FadeScaleBounds(diff: int16, m: uint8)
    ensures diff >= 0 ==> 0 <= diff * m <= diff * 0xFF
    ensures diff <= 0 ==> diff * 0xFF <= diff * m <= 0
  {
    if diff >= 0 {
      MulNonneg(diff, m);
      MulNonneg(diff, 0xFF - m);
    } else {
      var magnitude: int := 0 - (diff as int);
      MulNonneg(magnitude, m);
      MulNonneg(magnitude, 0xFF - m);
    }
  }

  /** The colour Fade's step hook fills the strip with, from the differences
      fixed at construction, the sine multiplier and the current colour 0. */
  function FadeColor(d: Diffs, m: uint8, c0: Color): Color {
    ColorRGBW(
      FadeChannel(d.red, m, Red(c0)),
      FadeChannel(d.green, m, Green(c0)),
      FadeChannel(d.blue, m, Blue(c0)),
      FadeChannel(d.white, m, White(c0)))
  }

  /** Each channel of the fade colour is its unmasked `FadeChannel` sum
      reduced modulo 256, so a sum outside [0, 255] wraps. */
  lemma FadeColorChannels(d: Diffs, m: uint8, c0: Color)
    ensures Red(FadeColor(d, m, c0)) == FadeChannel(d.red, m, Red(c0)) % 0x100
    ensures Green(FadeColor(d, m, c0)) == FadeChannel(d.green, m, Green(c0)) % 0x100
    ensures Blue(FadeColor(d, m, c0)) == FadeChannel(d.blue, m, Blue(c0)) % 0x100
    ensures White(FadeColor(d, m, c0)) == FadeChannel(d.white, m, White(c0)) % 0x100
  {
    ChannelsOfColorRGBW(
      FadeChannel(d.red, m, Red(c0)),
      FadeChannel(d.green, m, Green(c0)),
      FadeChannel(d.blue, m, Blue(c0)),
      FadeChannel(d.white, m, White(c0)));
  }

  /** With multiplier 0 the fade shows the current colour 0. */
  lemma FadeColorAtZero(d: Diffs, c0: Color)
    ensures FadeColor(d, 0, c0) == c0
  {
    ColorRGBWOfChannels(c0);
  }

  /** With the colours unchanged since construction, the multiplier 255
      moves each channel to 2 * colour 0 - colour 1, reduced modulo 256:
      away from colour 1, not onto it, and wrapping when the difference is
      large. */
  lemma FadeAtFullMultiplier(c0: Color, c1: Color)
    ensures Red(FadeColor(FadeDiffs(c0, c1), 0xFF, c0)) == (2 * Red(c0) - Red(c1)) % 0x100
    ensures Green(FadeColor(FadeDiffs(c0, c1), 0xFF, c0)) == (2 * Green(c0) - Green(c1)) % 0x100
    ensures Blue(FadeColor(FadeDiffs(c0, c1), 0xFF, c0)) == (2 * Blue(c0) - Blue(c1)) % 0x100
    ensures White(FadeColor(FadeDiffs(c0, c1), 0xFF, c0)) == (2 * White(c0) - White(c1)) % 0x100
  {
    var d := FadeDiffs(c0, c1);
    FadeColorChannels(d, 0xFF, c0);
    assert FadeChannel(d.red, 0xFF, Red(c0)) == 2 * Red(c0) - Red(c1);
    assert FadeChannel(d.green, 0xFF, Green(c0)) == 2 * Green(c0) - Green(c1);
    assert FadeChannel(d.blue, 0xFF, Blue(c0)) == 2 * Blue(c0) - Blue(c1);
    assert FadeChannel(d.white, 0xFF, White(c0)) == 2 * White(c0) - White(c1);
  }

  /** Blue 0 in colour 0 (black, say) and blue 100 in colour 1: at
      multiplier 255 (the sine peak, which step 0 reads) the fade as written
      shows blue 156 (0 - 100, wrapped to a byte), where a fade between the
      two colours shows colour 0's blue 0 (`FadeBetweenReachesColors`). */
  lemma FadeAsWrittenMovesAway(c0: Color, c1: Color)
    requires Blue(c0) == 0 && Blue(c1) == 0x64
    ensures Blue(FadeColor(FadeDiffs(c0, c1), 0xFF, c0)) == 0x9C
  {
    var d := FadeDiffs(c0, c1);
    assert d.blue == -0x64;
    var v: int := FadeChannel(d.blue, 0xFF, Blue(c0));
    assert v == -0x64;
    assert v % 0x100 == 0x9C;
    FadeColorChannels(d, 0xFF, c0);
  }

  /** `x` lies between `a` and `b`, in either order. */
  predicate Between(a: int, b: int, x: int) {
    (a <= x <= b) || (b <= x <= a)
  }

  /** Fade with the differences of `initialize()` kept and colour 1 as the
      base: `c1 + (c0 - c1) * m / 255` per channel. It shows colour 0 at the
      sine peak, which step 0 reads (`FadePhase(0) == 0x40`), matching the
      start frame, and colour 1 at the sine minimum. */
  function FadeBetweenColors(c0: Color, c1: Color, m: uint8): Color {
    FadeColor(FadeDiffs(c0, c1), m, c1)
  }

  /** The corrected fade never leaves the box spanned by the two colours, so
      no channel wraps; it shows colour 1 at multiplier 0 and colour 0
      exactly at multiplier 255. */
  lemma FadeBetweenReachesColors(c0: Color, c1: Color, m: uint8)
    ensures var r := FadeBetweenColors(c0, c1, m);
      Between(Red(c0), Red(c1), Red(r)) && Between(Green(c0), Green(c1), Green(r)) &&
      Between(Blue(c0), Blue(c1), Blue(r)) && Between(White(c0), White(c1), White(r))
    ensures m == 0 ==> FadeBetweenColors(c0, c1, m) == c1
    ensures m == 0xFF ==> FadeBetweenColors(c0, c1, m) == c0
  {
    var d := FadeDiffs(c0, c1);
    var r := FadeBetweenColors(c0, c1, m);
    FadeColorChannels(d, m, c1);
    FadeColorAtZero(d, c1);
    if m == 0xFF {
      ColorsEqualByChannels(r, c0);
    }
  }

  /** The fade colour of a step depends on the step only modulo 64. */
  lemma FadeColorPeriodic(d: Diffs, c0: Color, sine: uint8 -> uint8, s1: uint32, s2: uint32)
    requires s1 % 0x40 == s2 % 0x40
    ensures FadeColor(d, sine(FadePhase(s1)), c0) == FadeColor(d, sine(FadePhase(s2)), c0)
  {
  }

  // ----- Comet -------------------------------------------------------------

  /** The size of Comet's `_colors` array. */
  const COMET_LENGTH: nat := 4

  /** `c` halved `k` times by `reduceBrightness`. */
  function Dimmed(c: Color, k: nat): (r: Color)
    ensures r <= c
  {
    if k == 0 then c else ReduceBrightness(Dimmed(c, k - 1))
  }

  /** Comet's ladder for head colour `c`, as `fillColors(c)` leaves it: the
      head in the last entry, each entry the one after it halved. */
  function Ladder(c: Color): (r: seq<Color>)
    ensures |r| == COMET_LENGTH && r[COMET_LENGTH - 1] == c
    ensures forall i :: 0 <= i < COMET_LENGTH - 1 ==> r[i] == ReduceBrightness(r[i + 1])
  {
    seq(COMET_LENGTH, i requires 0 <= i < COMET_LENGTH => Dimmed(c, COMET_LENGTH - 1 - i))
  }

  lemma DivTwice(x: nat, p: nat)
    requires p >= 1
    ensures (x / p) / 2 == x / (2 * p)
  {
    HalveDivMod(x, p);
    var q, r := x / p, x % p;
    assert x == p * q + r;
    DivModUnique(x, 2 * p, q / 2, p * (q % 2) + r);
  }

  /** Halving k times divides every channel by 2^k, rounding down. */
  lemma {:induction false} DimmedChannels(c: Color, k: nat)
    ensures Red(Dimmed(c, k)) == Red(c) / Pow2(k)
    ensures Green(Dimmed(c, k)) == Green(c) / Pow2(k)
    ensures Blue(Dimmed(c, k)) == Blue(c) / Pow2(k)
    ensures White(Dimmed(c, k)) == White(c) / Pow2(k)
  {
    if k > 0 {
      DimmedChannels(c, k - 1);
      ReduceBrightnessChannels(Dimmed(c, k - 1));
      DivTwice(Red(c), Pow2(k - 1));
      DivTwice(Green(c), Pow2(k - 1));
      DivTwice(Blue(c), Pow2(k - 1));
      DivTwice(White(c), Pow2(k - 1));
    }
  }

  /** Moving away from the head, each channel of the ladder is the head's
      channel divided by 2, 4 and 8, so it never brightens and strictly
      darkens while it is not zero. */
  lemma LadderDarkensAwayFromHead(c: Color, i: nat)
    requires i < COMET_LENGTH - 1
    ensures Red(Ladder(c)[i]) == Red(Ladder(c)[i + 1]) / 2
    ensures Green(Ladder(c)[i]) == Green(Ladder(c)[i + 1]) / 2
    ensures Blue(Ladder(c)[i]) == Blue(Ladder(c)[i + 1]) / 2
    ensures White(Ladder(c)[i]) == White(Ladder(c)[i + 1]) / 2
    ensures Red(Ladder(c)[i]) == Red(c) / Pow2(COMET_LENGTH - 1 - i)
    ensures Green(Ladder(c)[i]) == Green(c) / Pow2(COMET_LENGTH - 1 - i)
    ensures Blue(Ladder(c)[i]) == Blue(c) / Pow2(COMET_LENGTH - 1 - i)
    ensures White(Ladder(c)[i]) == White(c) / Pow2(COMET_LENGTH - 1 - i)
  {
    ReduceBrightnessChannels(Ladder(c)[i + 1]);
    DimmedChannels(c, COMET_LENGTH - 1 - i);
  }

  /** The colour the comet puts `offset` pixels after its start: the ladder
      entry while there is one, black past the ladder's end. */
  function LadderAt(ladder: seq<Color>, offset: nat): Color {
    if offset < |ladder| then ladder[offset] else BLACK
  }

  /** How many positions pixel p lies after the start position `step`,
      around a ring of n pixels. */
  function Offset(p: int, step: int, n: nat): (o: nat)
    requires n > 0
    ensures o < n
  {
    (p - step) % n
  }

  /** The strip as Comet's `fillPixels(step)` is meant to leave it: pixel p
      holds the ladder entry at its offset from `step`. */
  function CometFrame(ladder: seq<Color>, step: uint32, n: nat): (r: seq<Color>)
    ensures |r| == n
  {
    seq(n, p requires 0 <= p < n => LadderAt(ladder, Offset(p, step, n)))
  }

  /** Offsets and pixel positions correspond one to one: pixel q is at
      offset i from `step` exactly when q == (step % n + i) % n, and that is
      (step + i) % n. */
  lemma OffsetOfPixel(q: nat, step: nat, i: nat, n: nat)
    requires q < n && i < n
    ensures (q - step) % n == i <==> q == (step % n + i) % n
    ensures (step % n + i) % n == (step + i) % n
  {
    var a, s := step / n, step % n;
    assert step == n * a + s;
    ModAddMultiple(s + i, a, n);
    ModAddMultiple(q - s, -a, n);
    Distrib(n, 0, a);
    ModNear(s + i, n);
    ModNear(q - s, n);
  }

  /** Pixel `(step + i) % n` of the comet frame shows ladder entry i, or
      black once i is past the ladder. */
  lemma CometFrameAt(ladder: seq<Color>, step: uint32, n: nat, i: nat)
    requires i < n
    ensures CometFrame(ladder, step, n)[(step + i) % n] == LadderAt(ladder, i)
  {
    OffsetOfPixel((step + i) % n, step, i, n);
  }

  /** Every pixel of `cur` whose offset from `step` is below `count` holds
      its ladder entry; every other pixel is as in `before`. */
  ghost predicate CometPartial(cur: seq<Color>, before: seq<Color>, ladder: seq<Color>, step: uint32, count: nat)
    requires |cur| == |before| > 0
  {
    forall q :: 0 <= q < |cur| ==>
      cur[q] == if Offset(q, step, |cur|) < count then LadderAt(ladder, Offset(q, step, |cur|)) else before[q]
  }

  /** Writing the pixel at offset `count` extends a partial comet frame by
      one offset; once every offset is written the frame is complete. */
  lemma CometPartialStep(cur: seq<Color>, before: seq<Color>, ladder: seq<Color>, step: uint32, count: nat)
    requires |cur| == |before| > 0 && count < |cur|
    requires CometPartial(cur, before, ladder, step, count)
    ensures CometPartial(cur[(step % |cur| + count) % |cur| := LadderAt(ladder, count)], before, ladder, step, count + 1)
  {
    var n := |cur|;
    var target := (step % n + count) % n;
    var next := cur[target := LadderAt(ladder, count)];
    forall q | 0 <= q < n
      ensures next[q] == if Offset(q, step, n) < count + 1 then LadderAt(ladder, Offset(q, step, n)) else before[q]
    {
      OffsetOfPixel(q, step, count, n);
      if q != target {
        assert next[q] == cur[q];
      }
    }
  }

  lemma CometPartialComplete(cur: seq<Color>, before: seq<Color>, ladder: seq<Color>, step: uint32)
    requires |cur| == |before| > 0
    requires CometPartial(cur, before, ladder, step, |cur|)
    ensures cur == CometFrame(ladder, step, |cur|)
  {
  }

  /** The source's `fillPixels` as written: after `count` passes of its loop,
      pixel `static_cast<uint16_t>((step + i) % n)` has been written for each
      i below `count`, where `step + i` is a `uint32_t` sum that wraps. */
  function CometWritesAsWritten(before: seq<Color>, ladder: seq<Color>, step: uint32, count: nat): (r: seq<Color>)
    requires 0 < |before| && count <= |before|
    ensures |r| == |before|
  {
    if count == 0 then before
    else
      CometWritesAsWritten(before, ladder, step, count - 1)[Wrap32(step + (count - 1)) % |before| := LadderAt(ladder, count - 1)]
  }

  /** Near the top of the step counter the wrapped sum repeats a pixel: with
      3 pixels and step 2^32 - 1, `fillPixels` writes pixel 0 twice and never
      writes pixel 2, where the intended frame puts ladder entries 0, 1, 2. */
  lemma CometAsWrittenSkipsPixel(before: seq<Color>, ladder: seq<Color>)
    requires |before| == 3 && |ladder| == COMET_LENGTH
    ensures CometWritesAsWritten(before, ladder, 0xFFFF_FFFF, 3) == [ladder[1], ladder[2], before[2]]
    ensures CometFrame(ladder, 0xFFFF_FFFF, 3) == [ladder[0], ladder[1], ladder[2]]
  {
    var w1 := CometWritesAsWritten(before, ladder, 0xFFFF_FFFF, 1);
    var w2 := CometWritesAsWritten(before, ladder, 0xFFFF_FFFF, 2);
    var w3 := CometWritesAsWritten(before, ladder, 0xFFFF_FFFF, 3);
    assert Wrap32(0xFFFF_FFFF) % 3 == 0;
    assert Wrap32(0x1_0000_0000) % 3 == 0;
    assert Wrap32(0x1_0000_0001) % 3 == 1;
    assert CometWritesAsWritten(before, ladder, 0xFFFF_FFFF, 0) == before;
    assert w1 == before[Wrap32(0xFFFF_FFFF + 0) % 3 := LadderAt(ladder, 0)];
    assert w1 == before[0 := ladder[0]];
    assert w2 == w1[0 := ladder[1]];
    assert w3 == w2[1 := ladder[2]];
    var frame := CometFrame(ladder, 0xFFFF_FFFF, 3);
    assert Offset(0, 0xFFFF_FFFF, 3) == 0 && Offset(1, 0xFFFF_FFFF, 3) == 1 && Offset(2, 0xFFFF_FFFF, 3) == 2;
    assert frame[0] == ladder[0] && frame[1] == ladder[1] && frame[2] == ladder[2];
  }

  /** As long as `step + n` does not pass 2^32 the sum never wraps, and the
      source's `fillPixels` draws exactly the intended frame. */
  lemma CometAsWrittenWithoutWrap(before: seq<Color>, ladder: seq<Color>, step: uint32)
    requires 0 < |before| && step + |before| <= TWO_TO_32
    ensures CometWritesAsWritten(before, ladder, step, |before|) == CometFrame(ladder, step, |before|)
  {
    CometAsWrittenPartial(before, ladder, step, |before|);
    CometPartialComplete(CometWritesAsWritten(before, ladder, step, |before|), before, ladder, step);
  }

  lemma {:induction false} CometAsWrittenPartial(before: seq<Color>, ladder: seq<Color>, step: uint32, count: nat)
    requires 0 < |before| && count <= |before| && step + |before| <= TWO_TO_32
    ensures CometPartial(CometWritesAsWritten(before, ladder, step, count), before, ladder, step, count)
  {
    var n := |before|;
    if count > 0 {
      CometAsWrittenPartial(before, ladder, step, count - 1);
      OffsetOfPixel(0, step, count - 1, n);
      CometPartialStep(CometWritesAsWritten(before, ladder, step, count - 1), before, ladder, step, count - 1);
    }
  }
}
