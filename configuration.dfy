/** `anime::Configuration`: the settings every sequence reads, namely two
    colour slots, the step duration and the global brightness. */
module Configurations {
  import opened Ints
  import opened Colors

  const DEFAULT_STEP_MILLIS: uint32 := 50
  const DEFAULT_BRIGHTNESS: uint8 := 32
  /** The size of the `_colors` array. */
  const COLOR_SLOTS: nat := 2

  /** Arduino's `constrain(amt, low, high)` macro. */
  function Constrain(amt: int, low: int, high: int): (r: int)
    requires low <= high
    ensures low <= r <= high
    ensures low <= amt <= high ==> r == amt
    ensures amt < low ==> r == low
    ensures amt > high ==> r == high
  {
    if amt < low then low else if amt > high then high else amt
  }

  /** The brightness `adjustBrightness(delta)` stores. The sum is taken in a
      32-bit `int`, so it cannot wrap before it is clamped. */
  function AdjustedBrightness(brightness: uint8, delta: int8): (r: uint8)
    ensures r == brightness + delta <==> 0 <= brightness + delta <= 0xFF
    ensures brightness + delta < 0 ==> r == 0
    ensures brightness + delta > 0xFF ==> r == 0xFF
    ensures delta >= 0 ==> brightness <= r <= brightness + delta
    ensures delta <= 0 ==> brightness + delta <= r <= brightness
  {
    Constrain(brightness + delta, 0, 0xFF)
  }

  /** The colour slots the initializer-list constructor leaves behind: the
      first two listed colours, and black in any slot the list does not
      reach. */
  function ListedColors(init: seq<Color>): (r: seq<Color>)
    ensures |r| == COLOR_SLOTS
    ensures |init| >= COLOR_SLOTS ==> r == init[..COLOR_SLOTS]
    ensures forall i :: 0 <= i < |init| && i < COLOR_SLOTS ==> r[i] == init[i]
    ensures forall i :: |init| <= i < COLOR_SLOTS ==> r[i] == BLACK
  {
    seq(COLOR_SLOTS, i requires 0 <= i < COLOR_SLOTS => if i < |init| then init[i] else BLACK)
  }

  class Configuration {
    /** `_colors`, a fixed array of two slots. */
    const colors: array<Color>
    var stepMillis: uint32
    var brightness: uint8

    ghost predicate Valid() {
      colors.Length == COLOR_SLOTS
    }

    /** The default constructor: both colours black. */
    constructor ()
      ensures Valid() && fresh(colors)
      ensures colors[..] == [BLACK, BLACK]
      ensures stepMillis == DEFAULT_STEP_MILLIS && brightness == DEFAULT_BRIGHTNESS
    {
      colors := new Color[COLOR_SLOTS](_ => BLACK);
      stepMillis := DEFAULT_STEP_MILLIS;
      brightness := DEFAULT_BRIGHTNESS;
    }

    /** The initializer-list constructor: copies colours in order and stops
        when the slots are full. */
    constructor FromList(init: seq<Color>)
      ensures Valid() && fresh(colors)
      ensures colors[..] == ListedColors(init)
      ensures stepMillis == DEFAULT_STEP_MILLIS && brightness == DEFAULT_BRIGHTNESS
    {
      var slots := new Color[COLOR_SLOTS](_ => BLACK);
      var index := 0;
      while index < |init|
        invariant 0 <= index <= COLOR_SLOTS && index <= |init|
        invariant forall i :: 0 <= i < index ==> slots[i] == init[i]
        invariant forall i :: index <= i < COLOR_SLOTS ==> slots[i] == BLACK
      {
        if index >= COLOR_SLOTS {
          break;
        }
        slots[index] := init[index];
        index := index + 1;
      }
      colors := slots;
      stepMillis := DEFAULT_STEP_MILLIS;
      brightness := DEFAULT_BRIGHTNESS;
    }

    /** `setColor`: an index past the last slot is ignored. */
    method SetColor(index: nat, color: Color)
      requires Valid()
      modifies colors
      ensures colors[..] == if index < COLOR_SLOTS then old(colors[..])[index := color] else old(colors[..])
    {
      if index < colors.Length {
        colors[index] := color;
      }
    }

    /** `getColor`: an index past the last slot reads as black. */
    function GetColor(index: nat): (c: Color)
      requires Valid()
      reads this, colors
      ensures index < COLOR_SLOTS ==> c == colors[index]
      ensures index >= COLOR_SLOTS ==> c == BLACK
    {
      if index < colors.Length then colors[index] else BLACK
    }

    function GetStepMillis(): uint32
      reads this
    {
      stepMillis
    }

    function GetBrightness(): uint8
      reads this
    {
      brightness
    }

    method SetStepMillis(millis: uint32)
      modifies this`stepMillis
      ensures stepMillis == millis
    {
      stepMillis := millis;
    }

    method SetBrightness(level: uint8)
      modifies this`brightness
      ensures brightness == level
    {
      brightness := level;
    }

    /** `adjustBrightness`: applies a signed delta and clamps into [0, 255]. */
    method AdjustBrightness(delta: int8)
      modifies this`brightness
      ensures brightness == AdjustedBrightness(old(brightness), delta)
    {
      brightness := Constrain(brightness + delta, 0, 0xFF);
    }
  }
}
