/**
 * The two bounded updates behind the parameter controls: the arrow buttons
 * step a slider by one, and the text box next to it sets the slider when it
 * holds an integer in range, and is otherwise reset to the slider's value.
 */
module Sliders {
  import opened Params

  datatype Option<T> = None | Some(value: T)

  /** A slider: an integer value between a minimum and a maximum. */
  class Slider {
    var minimum: int
    var maximum: int
    var value: int

    predicate Valid()
      reads this
    {
      minimum <= value <= maximum
    }

    constructor (minimum: int, maximum: int, value: int)
      ensures this.minimum == minimum && this.maximum == maximum && this.value == value
    {
      this.minimum := minimum;
      this.maximum := maximum;
      this.value := value;
    }
  }

  /** A one-line text box. */
  class TextInput {
    var text: string

    constructor (text: string)
      ensures this.text == text
    {
      this.text := text;
    }
  }

  function DigitChar(d: nat): (c: char)
    requires d < 10
    ensures '0' <= c <= '9' && c as int - '0' as int == d
  {
    "0123456789"[d]
  }

  /** Decimal digits of n, most significant first, without leading zeros. */
  function NatString(n: nat): (s: string)
    ensures |s| >= 1 && AllDigits(s)
    ensures s[0] == '0' ==> n == 0
  {
    if n < 10 then [DigitChar(n)] else NatString(n / 10) + [DigitChar(n % 10)]
  }

  /** Python's `str` of an integer: a minus sign for negative values, then the digits. */
  function DecimalString(n: int): (s: string)
    ensures |s| >= 1
    ensures s[0] == '-' <==> n < 0
    ensures n < 0 ==> |s| >= 2 && AllDigits(s[1..]) && s[1] != '0'
    ensures 0 <= n ==> AllDigits(s) && (s[0] == '0' ==> n == 0)
  {
    if n < 0 then "-" + NatString(-n) else NatString(n)
  }

  predicate AllDigits(s: string)
  {
    forall i :: 0 <= i < |s| ==> '0' <= s[i] <= '9'
  }

  function DigitsValue(s: string): nat
    requires AllDigits(s)
  {
    if s == [] then 0 else DigitsValue(s[..|s| - 1]) * 10 + (s[|s| - 1] as int - '0' as int)
  }

  /** Reads an optional minus sign followed by at least one decimal digit. */
  function DecimalValue(s: string): Option<int>
  {
    if |s| > 1 && s[0] == '-' && AllDigits(s[1..]) then Some(0 - DigitsValue(s[1..]))
    else if |s| > 0 && AllDigits(s) then Some(DigitsValue(s))
    else None
  }

  lemma {:induction false} NatStringValue(n: nat)
    ensures |NatString(n)| >= 1 && AllDigits(NatString(n)) && DigitsValue(NatString(n)) == n
  {
    if n >= 10 {
      NatStringValue(n / 10);
      var s := NatString(n);
      assert s[..|s| - 1] == NatString(n / 10);
    }
  }

  /** A minus sign followed by digits reads as the negated digit value. */
  lemma ReadNegative(digits: string)
    requires |digits| >= 1 && AllDigits(digits)
    ensures DecimalValue("-" + digits) == Some(0 - DigitsValue(digits))
  {
    assert ("-" + digits)[1..] == digits;
  }

  /** Digits without a sign read as their value. */
  lemma ReadNonNegative(digits: string)
    requires |digits| >= 1 && AllDigits(digits)
    ensures DecimalValue(digits) == Some(DigitsValue(digits))
  {
    assert '0' <= digits[0] <= '9';
  }

  /** The text written back into a text box reads back as the number it was written from. */
  lemma DecimalStringRoundTrip(n: int)
    ensures DecimalValue(DecimalString(n)) == Some(n)
  {
    if n < 0 {
      NatStringValue(-n);
      ReadNegative(NatString(-n));
    } else {
      NatStringValue(n);
      ReadNonNegative(NatString(n));
    }
  }

  /** `increment_slider`: step by `direction` when the new value stays in range, else do nothing. */
  method IncrementSlider(slider: Slider, direction: int)
    modifies slider`value
    ensures var stepped := old(slider.value) + direction;
      slider.value == if slider.minimum <= stepped <= slider.maximum then stepped else old(slider.value)
    ensures old(slider.Valid()) ==> slider.Valid()
  {
    var newValue := slider.value + direction;
    if slider.minimum <= newValue <= slider.maximum {
      slider.value := newValue;
    }
  }

  /**
   * `update_from_text_input`: `parsed` is what `int(text_input.text)` gives,
   * None when it raises. An integer within [minVal, maxVal] becomes the
   * slider's value; anything else leaves the slider alone and resets the
   * text to the slider's value.
   */
  method UpdateFromTextInput(textInput: TextInput, slider: Slider, minVal: int, maxVal: int, parsed: Option<int>)
    modifies textInput, slider`value
    ensures parsed.Some? && minVal <= parsed.value <= maxVal ==>
      slider.value == parsed.value && textInput.text == old(textInput.text)
    ensures !(parsed.Some? && minVal <= parsed.value <= maxVal) ==>
      slider.value == old(slider.value) && textInput.text == DecimalString(slider.value)
    ensures old(slider.Valid()) && slider.minimum <= minVal && maxVal <= slider.maximum ==> slider.Valid()
  {
    if parsed.None? {
      textInput.text := DecimalString(slider.value);
      return;
    }
    var value := parsed.value;
    if minVal <= value <= maxVal {
      slider.value := value;
    } else {
      textInput.text := DecimalString(slider.value);
    }
  }

  /**
   * After a rejected entry the box shows the slider's value, so submitting
   * it again sets the slider to the value it already has.
   */
  method ResubmitAfterReset(textInput: TextInput, slider: Slider, minVal: int, maxVal: int, parsed: Option<int>)
    requires slider.Valid() && slider.minimum == minVal && slider.maximum == maxVal
    requires !(parsed.Some? && minVal <= parsed.value <= maxVal)
    modifies textInput, slider`value
    ensures slider.value == old(slider.value) && textInput.text == DecimalString(slider.value)
  {
    UpdateFromTextInput(textInput, slider, minVal, maxVal, parsed);
    DecimalStringRoundTrip(slider.value);
    UpdateFromTextInput(textInput, slider, minVal, maxVal, DecimalValue(textInput.text));
  }

  // The three sliders of the window: pixel size, bit depth and palette colours.
  const PixelationMin := 8
  const PixelationMax := 256
  const BitDepthMin := 1
  const BitDepthMax := 8
  const PaletteMin := 2
  const PaletteMax := 256

  /**
   * Values the bit-depth and palette sliders can hold pass their stage's
   * clamp unchanged; a pixel size from its slider is cut down only by an
   * image side shorter than it.
   */
  lemma SliderValuesWithinClamps(v: int, width: nat, height: nat)
    ensures BitDepthMin <= v <= BitDepthMax ==> ClampBitDepth(v) == v
    ensures PaletteMin <= v <= PaletteMax ==> ClampPaletteColors(v) == v
    ensures PixelationMin <= v <= PixelationMax ==> ClampPixelSize(v, width, height) == if Min(width, height) == 0 then 1 else Min(v, Min(width, height))
  {
  }
}
