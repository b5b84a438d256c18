# Animation engine of RemoteNeoPixel, in Dafny

This project models the LED animation engine in `RemoteNeoPixel/Animation.h`
(namespace `anime`) and proves properties of it:

- **Packed colours** (`detail`): 32-bit colours with white in the high byte,
  then red, green and blue. These are modelled on integers. Shifts are
  divisions by powers of two, and masks are remainders or a bitwise `And`
  defined bit by bit (`ints.dfy`, `colors.dfy`).
- **`Configuration`**: a class with a fixed two-slot colour array, the step
  duration and the global brightness, including the clamping
  `adjustBrightness` (`configuration.dfy`).
- **The strip** the sequences draw into (`pixels_t`): a class with a pixel
  array, a brightness byte, a count of `show()` pushes, and the strip's
  8-bit sine table as an unspecified function (`pixels.dfy`).
- **The effects**: SolidColor, ColorWipe, Pulse, Fade and Comet. For each,
  the frame it draws is a function of the strip contents, the step and the
  colour, with lemmas about those functions (`effects.dfy`).
- **`Sequence`** (`sequence.dfy`):
  - The virtual hooks become a `match` on an `Effect` datatype, in which
    Fade carries its four differences. Comet's four-colour ladder is an
    array the sequence owns.
  - `start`, `stop` and `animate` are methods. Each one's `ensures` ties the
    new state to a pure model: `StartModel`, `StopModel` or `AnimateModel`.
  - The lifecycle and timing lemmas are stated about those models.
  - `fillColors` and `fillPixels` are loops over the arrays, with
    invariants.

C++ fixed-width arithmetic is written out:
- `uint32_t` sums and differences wrap (`Wrap32`).
- Conversions to `uint32_t` take the value modulo 2^32.
- Fade's signed division truncates toward zero (`TruncDiv`).

Where a natural reading of the effects differs from the code, the model
follows the code:

- A change of colour 0 on its own does not cause a `show()`. The colour hook
  repaints the buffer, but only a brightness change or a drawn step sets the
  show flag (`AnimateShowsAtMostOnce`, `SolidColorScenario`).
- After `start()` the next step to draw is step 0. So the first `animate()`
  call always draws a step and shows, even within the first step period
  (`SolidColorScenario`).
- Pulse's multiplier is a triangle over 64 steps that peaks at 32, at step
  32, and is 0 at step 0 (`PulseMultiplierTriangle`,
  `PulseColorTroughAndPeak`). At the peak the colour is exactly colour 0.
- Fade moves each channel from colour 0 by `diff * m / 255`, where `diff`
  is colour 0 minus colour 1 as fixed at construction. So at `m == 255` it
  reaches `2 * colour0 - colour1` per channel, away from colour 1, and the
  byte mask makes that value wrap (`FadeAtFullMultiplier`). See Findings.
- Comet's `animate()` step runs `fillPixels` as written, whose pixel index
  `step + i` is a `uint32_t` sum. Within 32 bits that is the intended frame
  (`AnimateCometFrame`); past 2^32 it is not (see Findings).
- `_nextStep = currentStep + 1` is a `uint32_t` sum. At step 2^32 - 1 it
  wraps to 0 (`AnimateStepTiming`).

## Model

| member | source | states |
|---|---|---|
| `Ints.Wrap32` | RemoteNeoPixel/Animation.h:130-131 | the `uint32_t` result of a conversion or wrapping sum: agrees with the value inside [0, 2^32) and is congruent to it modulo 2^32 |
| `Ints.TruncDiv` | RemoteNeoPixel/Animation.h:297-300 | C++ integer division by a positive divisor: the quotient times the divisor lies between 0 and the dividend and within one divisor of it, for either sign of the dividend |
| `Ints.AndLowMask` | RemoteNeoPixel/Animation.h:14 | masking with 2^k - 1 keeps the value modulo 2^k, so `& 0xFF` is `% 256` |
| `Ints.AndBit` | RemoteNeoPixel/Animation.h:247 | `x & 2^k` is non-zero exactly when bit k of x is set |
| `Ints.AndSplit` | RemoteNeoPixel/Animation.h:316 | bitwise and of two values split at bit k is the and of the high parts above the and of the low parts, with no carry between them |
| `Colors.White` | RemoteNeoPixel/Animation.h:13-15 | the white channel is the highest byte, `c / 2^24 mod 256` |
| `Colors.Red` | RemoteNeoPixel/Animation.h:17-19 | the red channel is the second byte, `c / 2^16 mod 256` |
| `Colors.Green` | RemoteNeoPixel/Animation.h:21-23 | the green channel is the third byte, `c / 2^8 mod 256` |
| `Colors.Blue` | RemoteNeoPixel/Animation.h:25-27 | the blue channel is the lowest byte, `c mod 256` |
| `Colors.ColorRGBW` | RemoteNeoPixel/Animation.h:29-34 | the four masked lanes placed in disjoint bytes, white highest, so the bitwise or is their sum; its channels are given by `ChannelsOfColorRGBW` |
| `Colors.ReduceBrightness` | RemoteNeoPixel/Animation.h:315-317 | `(c >> 1) & 0x7F7F7F7F` on the bitwise `And`; the result is at most c / 2 |
| `Colors.Lane` | RemoteNeoPixel/Animation.h:29-34 | `static_cast<uint32_t>(x) & 0xFF` is x modulo 256, and x itself when x is a byte |
| `Colors.ColorRGBWOfChannels` | RemoteNeoPixel/Animation.h:13-34 | packing the four channels read from a colour gives that colour back |
| `Colors.ChannelsOfColorRGBW` | RemoteNeoPixel/Animation.h:13-34 | each getter applied to `colorRGBW(r, g, b, w)` returns the matching argument modulo 256 |
| `Colors.ColorsEqualByChannels` | RemoteNeoPixel/Animation.h:13-27 | two colours are equal exactly when their four channels are |
| `Colors.ReduceBrightnessHalvesChannels` | RemoteNeoPixel/Animation.h:315-317 | `(c >> 1) & 0x7F7F7F7F` equals the colour packed from each channel of c halved, rounding down |
| `Colors.ReduceBrightnessChannels` | RemoteNeoPixel/Animation.h:315-317 | every channel of the reduced colour is the original channel divided by 2: no bit crosses into the channel below |
| `Configurations.Constrain` | RemoteNeoPixel/Animation.h:85 | the clamp lies in [low, high], is the identity inside it, is low below it and high above it |
| `Configurations.AdjustedBrightness` | RemoteNeoPixel/Animation.h:84-86 | the stored brightness is brightness + delta exactly when that is in [0, 255], is 0 below and 255 above, and moves in the direction of delta by at most delta; with a 32-bit `int` the sum never wraps |
| `Configurations.ListedColors` | RemoteNeoPixel/Animation.h:44-53 | the list constructor puts each of the first two listed colours in its own slot (slot 0 alone for a one-colour list) and leaves black in slots the list does not reach |
| `Configurations.Configuration.constructor` | RemoteNeoPixel/Animation.h:89-91 | default configuration: both colours black, step 50 ms, brightness 32 |
| `Configurations.Configuration.FromList` | RemoteNeoPixel/Animation.h:44-53 | the colour slots after the list constructor are `ListedColors(list)`, with the default step and brightness |
| `Configurations.Configuration.SetColor` | RemoteNeoPixel/Animation.h:55-59 | an index below 2 replaces that slot; any other index changes nothing |
| `Configurations.Configuration.GetColor` | RemoteNeoPixel/Animation.h:61-66 | returns the slot for an index below 2 and black for any other index |
| `Configurations.Configuration.GetStepMillis` | RemoteNeoPixel/Animation.h:72-74 | returns the stored step duration |
| `Configurations.Configuration.GetBrightness` | RemoteNeoPixel/Animation.h:80-82 | returns the stored brightness |
| `Configurations.Configuration.SetStepMillis` | RemoteNeoPixel/Animation.h:68-70 | stores the step duration |
| `Configurations.Configuration.SetBrightness` | RemoteNeoPixel/Animation.h:76-78 | stores the brightness |
| `Configurations.Configuration.AdjustBrightness` | RemoteNeoPixel/Animation.h:84-86 | the new brightness is `AdjustedBrightness(old brightness, delta)` |
| `Pixels.Strip.Fill` | RemoteNeoPixel/Animation.h:188 | every pixel of the strip takes the colour |
| `Pixels.Strip.SetPixelColor` | RemoteNeoPixel/Animation.h:210 | the pixel at an index inside the strip takes the colour; an index past the end changes nothing |
| `Pixels.Strip.SetBrightness` | RemoteNeoPixel/Animation.h:125-126 | the strip's brightness becomes the level |
| `Pixels.Strip.Show` | RemoteNeoPixel/Animation.h:104 | one more push of the buffer to the hardware |
| `Effects.WipePixels` | RemoteNeoPixel/Animation.h:207-211 | ColorWipe's step sets pixel `step mod n` to colour 0 and leaves every other pixel as it was |
| `Effects.WipeRunLightsPrefix` | RemoteNeoPixel/Animation.h:203-211 | after the start hook and steps 0 to k - 1, pixel j is colour 0 exactly when j < k and black otherwise, and the last step's pixel is lit: the wipe is cumulative |
| `Effects.PulseMultiplier` | RemoteNeoPixel/Animation.h:245-249 | the multiplier lies in [0, 32] |
| `Effects.PulseMultiplierTriangle` | RemoteNeoPixel/Animation.h:245-249 | the multiplier is `step mod 64` up to 32 and `64 - step mod 64` beyond: a triangle with period 64 that peaks at 32 |
| `Effects.PulseChannel` | RemoteNeoPixel/Animation.h:253-256 | a scaled channel never exceeds the source channel, is 0 at multiplier 0 and the channel itself at multiplier 32 |
| `Effects.PulseColor` | RemoteNeoPixel/Animation.h:251-258 | the colour packed from the four colour-0 channels, each scaled by `PulseChannel` with the step's multiplier |
| `Effects.PulseColorChannels` | RemoteNeoPixel/Animation.h:251-258 | each channel of the pulse colour is the colour-0 channel times the multiplier divided by 32, and no brighter than it |
| `Effects.PulseColorTroughAndPeak` | RemoteNeoPixel/Animation.h:244-258 | the pulse colour is black when step mod 64 is 0 and exactly colour 0 when it is 32 |
| `Effects.PulseColorPeriodic` | RemoteNeoPixel/Animation.h:244-258 | the pulse colour depends on the step only modulo 64 |
| `Effects.FadeDiffs` | RemoteNeoPixel/Animation.h:274-283 | each of Fade's differences, colour 0 minus colour 1 per channel, lies in [-255, 255] and so fits `int16_t` |
| `Effects.FadePhase` | RemoteNeoPixel/Animation.h:291 | the sine index `uint8_t((step << 2) + 0x40)` is `(4 * (step mod 64) + 64) mod 256` |
| `Effects.FadeChannel` | RemoteNeoPixel/Animation.h:297-300 | a channel's unmasked value lies between colour 0's channel and that channel plus the difference, is colour 0's channel at multiplier 0 and channel plus difference at 255 |
| `Effects.FadeColor` | RemoteNeoPixel/Animation.h:296-300 | the colour packed from the four `FadeChannel` sums of the differences, the multiplier and the channels of the current colour 0 |
| `Effects.FadeColorChannels` | RemoteNeoPixel/Animation.h:296-300 | each channel of the fade colour is its unmasked channel value modulo 256 |
| `Effects.FadeColorAtZero` | RemoteNeoPixel/Animation.h:289-302 | with multiplier 0 the fade colour is the current colour 0 |
| `Effects.FadeAtFullMultiplier` | RemoteNeoPixel/Animation.h:274-300 | with the colours unchanged since construction and multiplier 255, each channel is `(2 * colour0 - colour1) mod 256` |
| `Effects.FadeAsWrittenMovesAway` | RemoteNeoPixel/Animation.h:294-300 | with blue 0 in colour 0 and blue 100 in colour 1, the fade as written shows blue 156 at multiplier 255 (the sine peak that step 0 reads), not colour 0's 0 |
| `Effects.FadeBetweenColors` | RemoteNeoPixel/Animation.h:294-300 | the fade with the differences of lines 279-282 kept and colour 1 as the base, `c1 + (c0 - c1) * m / 255` per channel |
| `Effects.FadeBetweenReachesColors` | RemoteNeoPixel/Animation.h:294-300 | every channel of the corrected fade lies between the channels of colour 0 and colour 1, so none wraps; it is colour 1 at multiplier 0 (the sine minimum) and exactly colour 0 at 255 (the sine peak, read at step 0, matching the start frame) |
| `Effects.FadeColorPeriodic` | RemoteNeoPixel/Animation.h:289-302 | the fade colour of a step depends on the step only modulo 64 |
| `Effects.Dimmed` | RemoteNeoPixel/Animation.h:331-336 | the colour halved k times by `reduceBrightness` (315-317), never above the colour itself |
| `Effects.Ladder` | RemoteNeoPixel/Animation.h:331-336 | the ladder has four entries, the last is the head colour, and each entry is the next one passed through `reduceBrightness` |
| `Effects.DimmedChannels` | RemoteNeoPixel/Animation.h:315-317 | halving a colour k times divides each channel by 2^k, rounding down |
| `Effects.LadderDarkensAwayFromHead` | RemoteNeoPixel/Animation.h:331-336 | moving away from the head, each of the four ladder channels is the previous one halved, so each is the head's channel divided by 2, 4 and 8 |
| `Effects.OffsetOfPixel` | RemoteNeoPixel/Animation.h:342 | pixel q lies i places after `step` around a ring of n exactly when q is `(step mod n + i) mod n`, which is `(step + i) mod n` |
| `Effects.CometFrameAt` | RemoteNeoPixel/Animation.h:338-350 | in the intended comet frame pixel `(step + i) mod n` shows ladder entry i, or black once i is past the ladder |
| `Effects.CometPartialStep` | RemoteNeoPixel/Animation.h:341-349 | one pass of the `fillPixels` loop extends the set of finished offsets by one without disturbing the others |
| `Effects.CometWritesAsWritten` | RemoteNeoPixel/Animation.h:338-350 | the strip after the loop of `fillPixels` as written, with the `uint32_t` index sum; the strip keeps its length |
| `Effects.CometAsWrittenSkipsPixel` | RemoteNeoPixel/Animation.h:342 | with 3 pixels at step 2^32 - 1 the loop as written writes pixel 0 twice and never writes pixel 2, while the intended frame puts ladder entries 0, 1 and 2 in pixels 0, 1 and 2 |
| `Effects.CometAsWrittenWithoutWrap` | RemoteNeoPixel/Animation.h:338-350 | while `step + n` stays within 2^32 the loop as written draws exactly the intended comet frame |
| `Sequences.CurrentStep` | RemoteNeoPixel/Animation.h:130-131 | the step is the number of whole step durations in the elapsed time modulo 2^32 |
| `Sequences.StartPixels` | RemoteNeoPixel/Animation.h:163-165 | the start hooks (187-189, 203-205, 240-242, 285-287, 319-321): SolidColor and Fade fill colour 0, ColorWipe and Pulse fill black, Comet draws its step-0 frame; the strip keeps its length |
| `Sequences.ColorChangedPixels` | RemoteNeoPixel/Animation.h:175-177 | the colour hooks (191-193): only SolidColor repaints, with the new colour; the strip keeps its length |
| `Sequences.ColorChangedLadder` | RemoteNeoPixel/Animation.h:327-329 | Comet's colour hook rebuilds the ladder from the new colour; other effects keep theirs |
| `Sequences.StepPixels` | RemoteNeoPixel/Animation.h:171-173 | the step hooks (207-211, 244-259, 289-303, 323-325): ColorWipe lights one pixel, Pulse and Fade fill, Comet runs its loop as written, SolidColor draws nothing; the strip keeps its length |
| `Sequences.StartModel` | RemoteNeoPixel/Animation.h:100-106 | `start()` records the time, resets the next step to 0, draws the start frame, shows once and enables; the ladder, last colour and brightness stay |
| `Sequences.StopModel` | RemoteNeoPixel/Animation.h:108-112 | `stop()` shows once and disables; pixels, ladder and timing stay |
| `Sequences.ColorPhase` | RemoteNeoPixel/Animation.h:117-122 | afterwards the last colour is colour 0; only the pixels, the ladder and the last colour can change |
| `Sequences.StepPhase` | RemoteNeoPixel/Animation.h:133-137 | the step hook's frame and the wrapped next step; nothing else changes |
| `Sequences.AnimateModel` | RemoteNeoPixel/Animation.h:114-144 | `animate()` as a function of the state: it keeps the strip length, the start time and the enabled flag |
| `Sequences.AnimateWhileStopped` | RemoteNeoPixel/Animation.h:114-115 | while stopped, `animate()` changes nothing and shows nothing |
| `Sequences.AnimateColorHook` | RemoteNeoPixel/Animation.h:117-122 | after `animate()` the last colour is colour 0. The ladder is rebuilt from the new colour exactly when colour 0 changed on a Comet, and a SolidColor strip is refilled exactly when colour 0 changed |
| `Sequences.AnimateStepTiming` | RemoteNeoPixel/Animation.h:130-138 | the step hook runs exactly when the current step is at least the next step, with the current step. The next step then becomes the current step + 1 (strictly larger), or 0 at step 2^32 - 1. Otherwise the pixels and the next step are untouched |
| `Sequences.AnimateShowsAtMostOnce` | RemoteNeoPixel/Animation.h:116-142 | `animate()` shows at most once, and exactly when it is running and the brightness differed or a step was drawn; the strip brightness becomes the configured one |
| `Sequences.AnimateCometFrame` | RemoteNeoPixel/Animation.h:323-325 | on a Comet, the step `animate()` draws with the wrapping loop as written is the intended frame (ladder entry i on pixel `(step + i) mod n`) whenever `step + n` stays within 2^32, and that always holds when the step duration is 2 ms or more |
| `Sequences.AnimateOncePerStep` | RemoteNeoPixel/Animation.h:130-142 | a second `animate()` within the same step window, with the configuration unchanged, changes nothing |
| `Sequences.StopThenStart` | RemoteNeoPixel/Animation.h:100-112 | stop then start leaves the sequence running from step 0 at the new time, with two shows and the start frame drawn |
| `Sequences.SolidColorScenario` | RemoteNeoPixel/Animation.h:100-193 | a SolidColor run on 8 pixels: the start shows red; the first `animate()` 10 ms later shows; a repeat in the same window does nothing; a switch to green repaints without showing; the next step shows |
| `Sequences.Sequence.constructor` | RemoteNeoPixel/Animation.h:96-98 | a new sequence is stopped, has colour 0 as its last colour, fixes Fade's differences from colours 0 and 1 (264-283), and fills Comet's ladder from colour 0 (308-310) |
| `Sequences.Sequence.Start` | RemoteNeoPixel/Animation.h:100-106 | the new state is `StartModel`: start time now, next step 0, the start frame drawn, one show, running |
| `Sequences.Sequence.Stop` | RemoteNeoPixel/Animation.h:108-112 | the new state is `StopModel`: one show, stopped, nothing else changed |
| `Sequences.Sequence.Animate` | RemoteNeoPixel/Animation.h:114-144 | the new state is `AnimateModel`: colour hook, brightness sync, step hook (Comet's with the wrapping index as written), show, in the source's order |
| `Sequences.Sequence.FollowColor` | RemoteNeoPixel/Animation.h:117-122 | the state after the colour part of `animate()` is `ColorPhase` |
| `Sequences.Sequence.StepIfDue` | RemoteNeoPixel/Animation.h:130-138 | reports whether the current step was due, and the state after it is `StepPhase` exactly then: `nextStep` is the wrapped `currentStep + 1` and the strip is the step hook's output, for Comet the loop as written with its wrapping index |
| `Sequences.Sequence.StartSelf` | RemoteNeoPixel/Animation.h:163-165 | the start hooks (187-189, 203-205, 240-242, 285-287, 319-321): SolidColor and Fade fill colour 0, ColorWipe and Pulse fill black, Comet runs `fillPixels(0)` as written, which draws the intended step-0 frame because `0 + i` cannot wrap (`CometAsWrittenWithoutWrap`) |
| `Sequences.Sequence.StopSelf` | RemoteNeoPixel/Animation.h:167-169 | no effect overrides `stopSelf()`, so it changes nothing |
| `Sequences.Sequence.ChangeColorSelf` | RemoteNeoPixel/Animation.h:175-177 | the colour hooks (191-193, 327-329): SolidColor refills, Comet rebuilds its ladder, the others change nothing |
| `Sequences.Sequence.AnimateSelf` | RemoteNeoPixel/Animation.h:171-173 | the step hooks (207-211, 244-259, 289-303, 323-325): the strip becomes `StepPixels` of the effect; Comet runs `fillPixels` as written, through `FillPixelsAsWritten` |
| `Sequences.Sequence.FillColors` | RemoteNeoPixel/Animation.h:331-336 | the reverse loop leaves the ladder equal to `Ladder(color)` |
| `Sequences.Sequence.FillPixels` | RemoteNeoPixel/Animation.h:338-350 | with the index computed without wrap-around, the loop leaves the intended comet frame: every pixel written once, pixel `(step + i) mod n` holding ladder entry i or black |
| `Sequences.Sequence.FillPixelsAsWritten` | RemoteNeoPixel/Animation.h:338-350 | the loop with the source's wrapping `uint32_t` index leaves `CometWritesAsWritten` |

## Left out

- RainbowCycle (RemoteNeoPixel/Animation.h:214-231) is not part of this model. It only calls the strip library's `ColorHSV` and `gamma32`, and it shifts a negative `int` left.
- `make_sequence` (RemoteNeoPixel/Animation.h:353-356) forwards its arguments to a constructor and has no logic of its own.
- `millis()` is the `now` argument of `Sequence.Start` and `Sequence.Animate`.
- The strip's sine table `sine8` is the constant function `Strip.sine8`, and the model says nothing about its values.
- The strip class itself is not part of this model. `Strip` keeps only what the sequences use: the pixel array, the brightness byte and a count of `show()` calls. Its `setBrightness` is modelled as storing the level, without the library's rescaling of stored pixel data.
- The `volatile` qualifiers and writes to the configuration from another context (an interrupt) are concurrency and are not modelled. Every operation here runs to completion on its own.
- `Sequences.Sequence.Animate`: requires a non-zero step duration while running, because the source divides by it. On a ColorWipe it also requires a non-empty strip, because the step hook takes `step % numPixels()`. The Comet loop runs zero times on an empty strip and needs no such requirement.
- The target's `int` is taken to be 32 bits wide, as on the 32-bit boards this code is written for. With a 16-bit `int`, `static_cast<uint16_t>(_brightness) + delta` in `adjustBrightness` (line 85) would be computed in `unsigned int` and wrap (brightness 3 with delta -5 would clamp to 255), and Fade's `_redDiff * multiplier` (line 297) could overflow. `AdjustedBrightness` and `FadeChannel` do not model those 16-bit behaviours.
- `getPixels()` and `getConfiguration()` are the `strip` and `config` fields of `Sequence`, and `stopSelf()` is empty for every effect.

## Findings

| source | as written | input that shows it | evidently intended | confidence | as-written member | corrected member |
|---|---|---|---|---|---|---|
| RemoteNeoPixel/Animation.h:342 | Comet's `fillPixels` computes the pixel as `(step + i) % numPixels` with `step + i` a `uint32_t` sum, which wraps when step is near 2^32 | 3 pixels and step 2^32 - 1: pixel 0 is written for i = 0 and again for i = 1, and pixel 2 keeps its old colour | pixel `(step + i) mod n` for every i, so that each pixel is written exactly once | medium; not executed. A step above 2^32 - n needs a step duration of 1 ms, because the current step is at most 2^32 - 1 divided by stepMillis, which is about 49.7 days after `start()` (`AnimateCometFrame`) | `Effects.CometAsWrittenSkipsPixel` | `Sequences.Sequence.FillPixels` |
| RemoteNeoPixel/Animation.h:294-300 | Fade's step adds `diff * m / 255` to colour 0, where `diff` is colour 0 minus colour 1 (279-282), so at the sine peak it overshoots to `2 * c0 - c1` and can wrap a channel past a byte; the colours it shows are not between the two colours | colour 0 with blue 0, colour 1 with blue 100, multiplier 255: blue 156 | colour 1 as the base, `c1 + (c0 - c1) * m / 255`: colour 0 at the sine peak (step 0, as the start frame) and colour 1 at the sine minimum | medium; not executed | `Effects.FadeAsWrittenMovesAway` | `Effects.FadeBetweenReachesColors` |
