/**
 The Windows console path: the background bits of the console's character
 attribute word, mapped through the console's 16-colour palette. The call
 that reads the attribute word is outside the model; the word is an input.
 */
module Console {
  import opened Types

  const BACKGROUND_BLUE: bv16 := 0x0010
  const BACKGROUND_GREEN: bv16 := 0x0020
  const BACKGROUND_RED: bv16 := 0x0040
  const BACKGROUND_INTENSITY: bv16 := 0x0080

  /** The console palette, 8 bits per channel: dim colours at 128, light
      grey at 192, intense colours at 255, and dark grey for intensity
      alone. */
  function ConsolePalette(red: bool, green: bool, blue: bool, intense: bool): (entry: (nat, nat, nat))
    ensures entry.0 <= 0xFF && entry.1 <= 0xFF && entry.2 <= 0xFF
  {
    match (red, green, blue, intense)
    case (false, false, false, false) => (0, 0, 0)
    case (true, false, false, false) => (128, 0, 0)
    case (false, true, false, false) => (0, 128, 0)
    case (true, true, false, false) => (128, 128, 0)
    case (false, false, true, false) => (0, 0, 128)
    case (true, false, true, false) => (128, 0, 128)
    case (false, true, true, false) => (0, 128, 128)
    case (true, true, true, false) => (192, 192, 192)
    case (false, false, false, true) => (128, 128, 128)
    case (true, false, false, true) => (255, 0, 0)
    case (false, true, false, true) => (0, 255, 0)
    case (true, true, false, true) => (255, 255, 0)
    case (false, false, true, true) => (0, 0, 255)
    case (true, false, true, true) => (255, 0, 255)
    case (false, true, true, true) => (0, 255, 255)
    case (true, true, true, true) => (255, 255, 255)
  }

  /** `from_winapi` once the attribute word is known: always a colour. */
  function FromWinapi(attributes: bv16): (c: Rgb)
    ensures attributes & 0x00F0 == 0 ==> c == Rgb(0, 0, 0)
    ensures attributes & 0x00F0 == 0x00F0 ==> c == Rgb(0xFF00, 0xFF00, 0xFF00)
  {
    var e := ConsolePalette(
      attributes & BACKGROUND_RED != 0,
      attributes & BACKGROUND_GREEN != 0,
      attributes & BACKGROUND_BLUE != 0,
      attributes & BACKGROUND_INTENSITY != 0);
    Widen(e.0, e.1, e.2)
  }

  /** Only the four background bits matter: foreground colour bits and the
      other attribute flags never change the answer. */
  lemma OnlyBackgroundBitsMatter(a: bv16, b: bv16)
    requires a & 0x00F0 == b & 0x00F0
    ensures FromWinapi(a) == FromWinapi(b)
  {
    assert a & BACKGROUND_RED == (a & 0x00F0) & BACKGROUND_RED;
    assert b & BACKGROUND_RED == (b & 0x00F0) & BACKGROUND_RED;
    assert a & BACKGROUND_GREEN == (a & 0x00F0) & BACKGROUND_GREEN;
    assert b & BACKGROUND_GREEN == (b & 0x00F0) & BACKGROUND_GREEN;
    assert a & BACKGROUND_BLUE == (a & 0x00F0) & BACKGROUND_BLUE;
    assert b & BACKGROUND_BLUE == (b & 0x00F0) & BACKGROUND_BLUE;
    assert a & BACKGROUND_INTENSITY == (a & 0x00F0) & BACKGROUND_INTENSITY;
    assert b & BACKGROUND_INTENSITY == (b & 0x00F0) & BACKGROUND_INTENSITY;
  }
}
