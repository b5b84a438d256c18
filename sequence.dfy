/** `anime::Sequence` and its effects: the step-timing state machine that
    starts, stops and animates one effect on a strip while reading a
    configuration. The clock `millis()` is the `now` argument of `Start` and
    `Animate`. */
module Sequences {
  import opened Ints
  import opened Colors
  import opened Configurations
  import opened Pixels
  import opened Effects

  /** What a sequence call can change: the strip's pixels, brightness and
      show count, Comet's ladder, and the sequence's own fields. */
  datatype State = State(
    pixels: seq<Color>,
    brightness: uint8,
    shows: nat,
    ladder: seq<Color>,
    lastColor: Color,
    startMillis: uint32,
    nextStep: uint32,
    enabled: bool)

  /** The configuration values a sequence reads: colour 0, the step
      duration and the brightness. */
  datatype Settings = Settings(color0: Color, stepMillis: uint32, brightness: uint8)

  /** `(currentMillis - _startMillis) / stepMillis` in `uint32_t`: the
      elapsed time is taken modulo 2^32, so the count survives one wrap of
      the millisecond clock. */
  function CurrentStep(now: uint32, start: uint32, stepMillis: uint32): (step: uint32)
    requires stepMillis > 0
    ensures step * stepMillis <= Wrap32(now - start) < step * stepMillis + stepMillis
    ensures now >= start ==> step * stepMillis <= now - start
  {
    FloorDivBounds(Wrap32(now - start), stepMillis);
    Wrap32(now - start) / stepMillis
  }

  // ----- the effect hooks, as what they leave in the strip ----------------

  /** What `startSelf()` draws. */
  function StartPixels(e: Effect, n: nat, ladder: seq<Color>, c0: Color): (r: seq<Color>)
    ensures |r| == n
  {
    match e
    case SolidColor => Filled(n, c0)
    case ColorWipe => Filled(n, BLACK)
    case Pulse => Filled(n, BLACK)
    case Fade(_) => Filled(n, c0)
    case Comet => CometFrame(ladder, 0, n)
  }

  /** What `changeColorSelf(c)` draws: only SolidColor repaints. */
  function ColorChangedPixels(e: Effect, pixels: seq<Color>, c: Color): (r: seq<Color>)
    ensures |r| == |pixels|
  {
    if e.SolidColor? then Filled(|pixels|, c) else pixels
  }

  /** Comet's `changeColorSelf(c)` rebuilds the ladder from the new head. */
  function ColorChangedLadder(e: Effect, ladder: seq<Color>, c: Color): seq<Color> {
    if e.Comet? then Ladder(c) else ladder
  }

  /** What `animateSelf(step)` draws. */
  function StepPixels(e: Effect, pixels: seq<Color>, ladder: seq<Color>, c0: Color, step: uint32, sine: uint8 -> uint8): (r: seq<Color>)
    requires e.ColorWipe? ==> |pixels| > 0
    ensures |r| == |pixels|
  {
    match e
    case SolidColor => pixels
    case ColorWipe => WipePixels(pixels, step, c0)
    case Pulse => Filled(|pixels|, PulseColor(c0, step))
    case Fade(d) => Filled(|pixels|, FadeColor(d, sine(FadePhase(step)), c0))
    case Comet =>
      if |pixels| > 0 then CometWritesAsWritten(pixels, ladder, step, |pixels|) else pixels
  }

  // ----- the three operations as functions of the state -------------------

  /** `start()` */
  function StartModel(e: Effect, s: State, cfg: Settings, now: uint32): (r: State)
    ensures r.enabled && r.nextStep == 0 && r.startMillis == now && |r.pixels| == |s.pixels|
    ensures r.ladder == s.ladder && r.lastColor == s.lastColor && r.brightness == s.brightness
    ensures r.shows == s.shows + 1 && r.pixels == StartPixels(e, |s.pixels|, s.ladder, cfg.color0)
  {
    s.(pixels := StartPixels(e, |s.pixels|, s.ladder, cfg.color0),
       shows := s.shows + 1,
       startMillis := now,
       nextStep := 0,
       enabled := true)
  }

  /** `stop()`: no effect overrides `stopSelf()`. */
  function StopModel(s: State): (r: State)
    ensures !r.enabled && r.shows == s.shows + 1
    ensures r.pixels == s.pixels && r.ladder == s.ladder && r.nextStep == s.nextStep
  {
    s.(shows := s.shows + 1, enabled := false)
  }

  /** What `animate()` needs: a non-zero step duration, and pixels for
      ColorWipe's `step % numPixels()`. Nothing is needed while stopped. */
  predicate CanAnimate(e: Effect, s: State, cfg: Settings) {
    s.enabled ==> cfg.stepMillis > 0 && (e.ColorWipe? ==> |s.pixels| > 0)
  }

  /** The first part of `animate()`: when colour 0 differs from the last
      colour seen, run the colour hook and remember the new colour. */
  function ColorPhase(e: Effect, s: State, c: Color): (r: State)
    ensures r.lastColor == c && |r.pixels| == |s.pixels|
    ensures r.(pixels := s.pixels, ladder := s.ladder, lastColor := s.lastColor) == s
  {
    if c != s.lastColor then
      s.(pixels := ColorChangedPixels(e, s.pixels, c), ladder := ColorChangedLadder(e, s.ladder, c), lastColor := c)
    else s
  }

  /** The step part of `animate()`: run the step hook and schedule the
      following step, `currentStep + 1` in `uint32_t`. */
  function StepPhase(e: Effect, s: State, c0: Color, step: uint32, sine: uint8 -> uint8): (r: State)
    requires e.ColorWipe? ==> |s.pixels| > 0
    ensures |r.pixels| == |s.pixels|
    ensures r.(pixels := s.pixels, nextStep := s.nextStep) == s
  {
    s.(pixels := StepPixels(e, s.pixels, s.ladder, c0, step, sine), nextStep := Wrap32(step + 1))
  }

  /** `animate()`: colour-change hook, brightness sync, step hook, and one
      show when the brightness changed or a step was drawn. */
  function AnimateModel(e: Effect, s: State, cfg: Settings, now: uint32, sine: uint8 -> uint8): (r: State)
    requires CanAnimate(e, s, cfg)
    ensures |r.pixels| == |s.pixels| && r.enabled == s.enabled && r.startMillis == s.startMillis
  {
    if !s.enabled then s
    else
      var colored := ColorPhase(e, s, cfg.color0);
      var step := CurrentStep(now, s.startMillis, cfg.stepMillis);
      var stepped := step >= s.nextStep;
      var drawn := if stepped then StepPhase(e, colored, cfg.color0, step, sine) else colored;
      drawn.(brightness := cfg.brightness,
             shows := if cfg.brightness != s.brightness || stepped then s.shows + 1 else s.shows)
  }

  // ----- properties of the state machine ----------------------------------

  /** While stopped, `animate()` changes nothing and shows nothing. */
  lemma AnimateWhileStopped(e: Effect, s: State, cfg: Settings, now: uint32, sine: uint8 -> uint8)
    requires !s.enabled
    ensures AnimateModel(e, s, cfg, now, sine) == s
  {
  }

  /** The colour hook runs exactly when colour 0 differs from the last colour
      seen, and afterwards the last colour is colour 0. */
  lemma AnimateColorHook(e: Effect, s: State, cfg: Settings, now: uint32, sine: uint8 -> uint8)
    requires s.enabled && CanAnimate(e, s, cfg)
    ensures AnimateModel(e, s, cfg, now, sine).lastColor == cfg.color0
    ensures AnimateModel(e, s, cfg, now, sine).ladder ==
      if e.Comet? && cfg.color0 != s.lastColor then Ladder(cfg.color0) else s.ladder
    ensures e.SolidColor? ==>
      AnimateModel(e, s, cfg, now, sine).pixels ==
        (if cfg.color0 != s.lastColor then Filled(|s.pixels|, cfg.color0) else s.pixels)
  {
  }

  /** The step hook runs exactly when the step implied by the elapsed time
      has not been drawn yet; it runs once, with that step, however many
      steps were missed, and afterwards the next step is the one after it. */
  lemma AnimateStepTiming(e: Effect, s: State, cfg: Settings, now: uint32, sine: uint8 -> uint8)
    requires s.enabled && CanAnimate(e, s, cfg)
    ensures var step := CurrentStep(now, s.startMillis, cfg.stepMillis);
      var r := AnimateModel(e, s, cfg, now, sine);
      var ladder := if cfg.color0 != s.lastColor then ColorChangedLadder(e, s.ladder, cfg.color0) else s.ladder;
      var pixels := if cfg.color0 != s.lastColor then ColorChangedPixels(e, s.pixels, cfg.color0) else s.pixels;
      (step >= s.nextStep ==> r.pixels == StepPixels(e, pixels, ladder, cfg.color0, step, sine)) &&
      (step >= s.nextStep && step < 0xFFFF_FFFF ==> r.nextStep == step + 1 > s.nextStep) &&
      (step >= s.nextStep && step == 0xFFFF_FFFF ==> r.nextStep == 0) &&
      (step < s.nextStep ==> r.nextStep == s.nextStep && r.pixels == pixels)
  {
  }

  /** `show()` runs at most once per call, and exactly when brightness had to
      be synced or a step was drawn; a colour change alone shows nothing. */
  lemma AnimateShowsAtMostOnce(e: Effect, s: State, cfg: Settings, now: uint32, sine: uint8 -> uint8)
    requires CanAnimate(e, s, cfg)
    ensures var r := AnimateModel(e, s, cfg, now, sine);
      (r.shows == s.shows || r.shows == s.shows + 1) &&
      (r.shows == s.shows + 1 <==>
         s.enabled &&
         (cfg.brightness != s.brightness || CurrentStep(now, s.startMillis, cfg.stepMillis) >= s.nextStep)) &&
      (s.enabled ==> r.brightness == cfg.brightness)
  {
  }

  /** Within one step window, with the configuration unchanged, a second
      `animate()` does nothing at all: at most one show per window. */
  lemma AnimateOncePerStep(e: Effect, s: State, cfg: Settings, t1: uint32, t2: uint32, sine: uint8 -> uint8)
    requires s.enabled && CanAnimate(e, s, cfg)
    requires CurrentStep(t2, s.startMillis, cfg.stepMillis) == CurrentStep(t1, s.startMillis, cfg.stepMillis) < 0xFFFF_FFFF
    ensures var r1 := AnimateModel(e, s, cfg, t1, sine);
      CanAnimate(e, r1, cfg) && AnimateModel(e, r1, cfg, t2, sine) == r1
  {
    var r1 := AnimateModel(e, s, cfg, t1, sine);
    assert |r1.pixels| == |s.pixels|;
  }

  /** Comet's step hook, whose pixel index `step + i` wraps in `uint32_t`,
      draws the intended frame (ladder entry i on pixel (step + i) mod n)
      whenever `step + n` stays within 32 bits. That always holds for a step
      duration of 2 ms or more, because the step is then below 2^31: only
      1 ms steps, about 49.7 days after `start()`, reach the wrap. */
  lemma AnimateCometFrame(s: State, cfg: Settings, now: uint32, sine: uint8 -> uint8)
    requires s.enabled && CanAnimate(Comet, s, cfg) && |s.pixels| < 0x1_0000
    ensures var step := CurrentStep(now, s.startMillis, cfg.stepMillis);
      var ladder := if cfg.color0 != s.lastColor then Ladder(cfg.color0) else s.ladder;
      (cfg.stepMillis >= 2 ==> step + |s.pixels| <= TWO_TO_32) &&
      (step >= s.nextStep && step + |s.pixels| <= TWO_TO_32 ==>
         AnimateModel(Comet, s, cfg, now, sine).pixels == CometFrame(ladder, step, |s.pixels|))
  {
    var step := CurrentStep(now, s.startMillis, cfg.stepMillis);
    if cfg.stepMillis >= 2 {
      assert step * 2 <= step * cfg.stepMillis by {
        MulNonneg(step, cfg.stepMillis - 2);
      }
    }
    var ladder := if cfg.color0 != s.lastColor then Ladder(cfg.color0) else s.ladder;
    if step >= s.nextStep && step + |s.pixels| <= TWO_TO_32 && |s.pixels| > 0 {
      AnimateStepTiming(Comet, s, cfg, now, sine);
      CometAsWrittenWithoutWrap(s.pixels, ladder, step);
    }
  }

  /** `stop()` then `start()` restarts from step 0 at the new time and draws
      the start frame, whatever had happened before. */
  lemma StopThenStart(e: Effect, s: State, cfg: Settings, now: uint32)
    ensures var r := StartModel(e, StopModel(s), cfg, now);
      r.enabled && r.nextStep == 0 && r.startMillis == now && r.shows == s.shows + 2 &&
      r.pixels == StartPixels(e, |s.pixels|, s.ladder, cfg.color0)
  {
  }

  /** SolidColor on 8 pixels, red, 50 ms steps, started at `t0`: the start
      fills red and shows once; `animate()` 10 ms later draws step 0 and
      shows again; a second call in the same step window does nothing; a
      switch to green repaints the strip without showing it; the next step
      shows it. */
  lemma SolidColorScenario(s: State, t0: uint32, sine: uint8 -> uint8)
    requires |s.pixels| == 8 && s.lastColor == 0xFF0000 && t0 + 60 < TWO_TO_32
    ensures var red := Settings(0xFF0000, 50, s.brightness);
      var green := red.(color0 := 0x00FF00);
      var started := StartModel(SolidColor, s, red, t0);
      var first := AnimateModel(SolidColor, started, red, t0 + 10, sine);
      var again := AnimateModel(SolidColor, first, red, t0 + 20, sine);
      var recolored := AnimateModel(SolidColor, again, green, t0 + 30, sine);
      var next := AnimateModel(SolidColor, recolored, green, t0 + 60, sine);
      started.pixels == Filled(8, 0xFF0000) && started.shows == s.shows + 1 &&
      first.shows == s.shows + 2 && first.nextStep == 1 &&
      again == first &&
      recolored.pixels == Filled(8, 0x00FF00) && recolored.shows == s.shows + 2 &&
      next.shows == s.shows + 3 && next.nextStep == 2
  {
    var red := Settings(0xFF0000, 50, s.brightness);
    assert CurrentStep(t0 + 10, t0, 50) == 0;
    assert CurrentStep(t0 + 20, t0, 50) == 0;
    assert CurrentStep(t0 + 30, t0, 50) == 0;
    assert CurrentStep(t0 + 60, t0, 50) == 1;
  }

  /** The configuration values `animate()` reads. */
  function SettingsOf(config: Configuration): Settings
    requires config.Valid()
    reads config, config.colors
  {
    Settings(config.GetColor(0), config.GetStepMillis(), config.GetBrightness())
  }

  class Sequence {
    const strip: Strip
    const config: Configuration
    const effect: Effect
    /** Comet's `_colors`: four entries for a Comet, none otherwise. */
    const ladder: array<Color>
    var lastColor: Color
    var startMillis: uint32
    var nextStep: uint32
    var enabled: bool

    ghost predicate Valid() {
      strip.Valid() && config.Valid() &&
      ladder.Length == (if effect.Comet? then COMET_LENGTH else 0) &&
      strip.pixels != config.colors && ladder != strip.pixels && ladder != config.colors
    }

    function View(): State
      reads this, strip, strip.pixels, ladder
    {
      State(strip.pixels[..], strip.brightness, strip.shows, ladder[..], lastColor, startMillis, nextStep, enabled)
    }

    /** The `Sequence` constructor together with each subclass's: the last
        colour is colour 0, the sequence is stopped, Fade fixes its
        differences and Comet fills its ladder. */
    constructor (kind: Effect, strip: Strip, config: Configuration)
      requires strip.Valid() && config.Valid() && strip.pixels != config.colors
      ensures Valid() && this.strip == strip && this.config == config
      ensures effect == if kind.Fade? then Fade(FadeDiffs(config.GetColor(0), config.GetColor(1))) else kind
      ensures ladder[..] == if kind.Comet? then Ladder(config.GetColor(0)) else []
      ensures lastColor == config.GetColor(0) && startMillis == 0 && nextStep == 0 && !enabled
    {
      this.strip := strip;
      this.config := config;
      lastColor := config.GetColor(0);
      startMillis := 0;
      nextStep := 0;
      enabled := false;
      effect := if kind.Fade? then Fade(FadeDiffs(config.GetColor(0), config.GetColor(1))) else kind;
      ladder := new Color[if kind.Comet? then COMET_LENGTH else 0](_ => BLACK);
      new;
      if kind.Comet? {
        FillColors(config.GetColor(0));
      }
    }

    /** `start()` */
    method Start(now: uint32)
      requires Valid()
      modifies this, strip, strip.pixels
      ensures Valid() && View() == StartModel(effect, old(View()), SettingsOf(config), now)
    {
      startMillis := now;
      nextStep := 0;
      StartSelf();
      strip.Show();
      enabled := true;
    }

    /** `stop()` */
    method Stop()
      requires Valid()
      modifies this, strip
      ensures Valid() && View() == StopModel(old(View()))
    {
      StopSelf();
      strip.Show();
      enabled := false;
    }

    /** `animate()` */
    method Animate(now: uint32)
      requires Valid() && CanAnimate(effect, View(), SettingsOf(config))
      modifies this, strip, strip.pixels, ladder
      ensures Valid() && View() == AnimateModel(effect, old(View()), SettingsOf(config), now, strip.sine8)
    {
      if enabled {
        var show := false;
        FollowColor();
        var brightness := config.GetBrightness();
        if brightness != strip.GetBrightness() {
          strip.SetBrightness(brightness);
          show := true;
        }
        var stepped := StepIfDue(now);
        if stepped {
          show := true;
        }
        if show {
          strip.Show();
        }
      }
    }

    /** The start of `animate()`: a new colour 0 goes to the colour hook. */
    method FollowColor()
      requires Valid()
      modifies this`lastColor, strip.pixels, ladder
      ensures View() == ColorPhase(effect, old(View()), config.GetColor(0))
    {
      var nextColor := config.GetColor(0);
      if nextColor != lastColor {
        ChangeColorSelf(nextColor);
        lastColor := nextColor;
      }
    }

    /** The step part of `animate()`: draws the current step if it has not
        been drawn yet, and says whether it did. */
    method StepIfDue(now: uint32) returns (stepped: bool)
      requires Valid() && config.GetStepMillis() > 0 && (effect.ColorWipe? ==> strip.pixels.Length > 0)
      modifies this`nextStep, strip.pixels
      ensures var step := CurrentStep(now, startMillis, config.GetStepMillis());
        stepped == (step >= old(nextStep)) &&
        View() == if stepped then StepPhase(effect, old(View()), config.GetColor(0), step, strip.sine8) else old(View())
    {
      var currentMillis := now;
      var currentStep := CurrentStep(currentMillis, startMillis, config.GetStepMillis());
      stepped := currentStep >= nextStep;
      if stepped {
        nextStep := Wrap32(currentStep + 1);
        AnimateSelf(currentStep);
      }
    }

    method StartSelf()
      requires Valid()
      modifies strip.pixels
      ensures strip.pixels[..] == StartPixels(effect, strip.pixels.Length, ladder[..], config.GetColor(0))
    {
      match effect
      case SolidColor => strip.Fill(config.GetColor(0));
      case ColorWipe => strip.Fill(BLACK);
      case Pulse => strip.Fill(BLACK);
      case Fade(_) => strip.Fill(config.GetColor(0));
      case Comet =>
        FillPixelsAsWritten(0);
        if strip.pixels.Length > 0 {
          CometAsWrittenWithoutWrap(old(strip.pixels[..]), ladder[..], 0);
        }
    }

    /** No effect overrides `stopSelf()`. */
    method StopSelf() {
    }

    method ChangeColorSelf(c: Color)
      requires Valid()
      modifies strip.pixels, ladder
      ensures strip.pixels[..] == ColorChangedPixels(effect, old(strip.pixels[..]), c)
      ensures ladder[..] == ColorChangedLadder(effect, old(ladder[..]), c)
    {
      match effect
      case SolidColor => strip.Fill(c);
      case Comet => FillColors(c);
      case _ =>
    }

    method AnimateSelf(step: uint32)
      requires Valid() && (effect.ColorWipe? ==> strip.pixels.Length > 0)
      modifies strip.pixels
      ensures strip.pixels[..] == StepPixels(effect, old(strip.pixels[..]), ladder[..], config.GetColor(0), step, strip.sine8)
    {
      match effect
      case SolidColor =>
      case ColorWipe =>
        strip.SetPixelColor(step % strip.NumPixels(), config.GetColor(0));
      case Pulse =>
        strip.Fill(PulseColor(config.GetColor(0), step));
      case Fade(d) =>
        var multiplier := strip.sine8(FadePhase(step));
        strip.Fill(FadeColor(d, multiplier, config.GetColor(0)));
      case Comet =>
        FillPixelsAsWritten(step);
    }

    /** Comet's `fillColors(color)`: walks the ladder from its last entry to
        its first, storing the running colour and then halving it. */
    method FillColors(color: Color)
      requires ladder.Length == COMET_LENGTH
      modifies ladder
      ensures ladder[..] == Ladder(color)
    {
      var c := color;
      var k := ladder.Length;
      while k > 0
        invariant 0 <= k <= COMET_LENGTH
        invariant c == Dimmed(color, COMET_LENGTH - k)
        invariant forall i :: k <= i < COMET_LENGTH ==> ladder[i] == Dimmed(color, COMET_LENGTH - 1 - i)
      {
        k := k - 1;
        ladder[k] := c;
        c := ReduceBrightness(c);
      }
      assert ladder[..] == Ladder(color);
    }

    /** Comet's `fillPixels(step)`, with the pixel index computed as
        `(step % n + i) % n` so that it cannot wrap: pixel (step + i) mod n
        takes ladder entry i, or black past the ladder's end. */
    method FillPixels(step: uint32)
      requires Valid()
      modifies strip.pixels
      ensures strip.pixels[..] == CometFrame(ladder[..], step, strip.pixels.Length)
    {
      var n := strip.NumPixels();
      ghost var before := strip.pixels[..];
      var i: uint16 := 0;
      while i < n
        invariant 0 <= i <= n && strip.pixels.Length == n
        invariant n > 0 ==> CometPartial(strip.pixels[..], before, ladder[..], step, i)
      {
        var pixel := (step % n + i) % n;
        var color := if i < ladder.Length then ladder[i] else BLACK;
        CometPartialStep(strip.pixels[..], before, ladder[..], step, i);
        strip.SetPixelColor(pixel, color);
        i := i + 1;
      }
      if n > 0 {
        CometPartialComplete(strip.pixels[..], before, ladder[..], step);
      }
    }

    /** Comet's `fillPixels(step)` as the source writes it: `step + i` is a
        `uint32_t` sum, which wraps near the top of the step counter. */
    method FillPixelsAsWritten(step: uint32)
      requires Valid()
      modifies strip.pixels
      ensures strip.pixels.Length > 0 ==>
        strip.pixels[..] == CometWritesAsWritten(old(strip.pixels[..]), ladder[..], step, strip.pixels.Length)
    {
      var n := strip.NumPixels();
      ghost var before := strip.pixels[..];
      var i: uint16 := 0;
      while i < n
        invariant 0 <= i <= n && strip.pixels.Length == n
        invariant n > 0 ==> strip.pixels[..] == CometWritesAsWritten(before, ladder[..], step, i)
      {
        var pixel := Wrap32(step + i) % n;
        var color := if i < ladder.Length then ladder[i] else BLACK;
        strip.SetPixelColor(pixel, color);
        i := i + 1;
      }
    }
  }
}
