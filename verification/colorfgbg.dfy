/**
 The non-interactive fallback: the `COLORFGBG` variable that rxvt-style
 terminals export as `fg;bg` palette indices. The background index selects
 an entry of rxvt's default 16-colour palette.
 */
module ColorFgBg {
  import opened Types
  import opened Text

  const COLORFGBG := "COLORFGBG"

  /** rxvt's default palette, 8 bits per channel. Indices 16 to 255 are not
      in the palette and read as black, like index 0. */
  function RxvtPalette(index: nat): (entry: (nat, nat, nat))
    ensures entry.0 <= 0xFF && entry.1 <= 0xFF && entry.2 <= 0xFF
  {
    match index
    case 0 => (0, 0, 0)
    case 1 => (205, 0, 0)
    case 2 => (0, 205, 0)
    case 3 => (205, 205, 0)
    case 4 => (0, 0, 238)
    case 5 => (205, 0, 205)
    case 6 => (0, 205, 205)
    case 7 => (229, 229, 229)
    case 8 => (127, 127, 127)
    case 9 => (255, 0, 0)
    case 10 => (0, 255, 0)
    case 11 => (255, 255, 0)
    case 12 => (92, 92, 255)
    case 13 => (255, 0, 255)
    case 14 => (0, 255, 255)
    case 15 => (255, 255, 255)
    case _ => (0, 0, 0)
  }

  /** The palette entry for `index`, widened to 16 bits per channel. */
  function PaletteColor(index: nat): Rgb {
    var e := RxvtPalette(index);
    Widen(e.0, e.1, e.2)
  }

  /** `from_env_colorfgbg`: no variable, or no second `;`-separated field,
      is `Unsupported`; a second field that is not a decimal `u8` is a parse
      error carrying the whole variable; otherwise that palette entry. */
  function FromEnvColorFgBg(env: map<string, string>): (r: Result<Rgb>)
    ensures COLORFGBG !in env ==> r == Err(Unsupported)
    ensures COLORFGBG in env && ';' !in env[COLORFGBG] ==> r == Err(Unsupported)
    ensures r.Err? && r.error != Unsupported ==> COLORFGBG in env && r.error == Parse(env[COLORFGBG])
    ensures r.Ok? ==> r.value.r % 0x100 == 0 && r.value.g % 0x100 == 0 && r.value.b % 0x100 == 0
    ensures r.Ok? ==> r.value.r <= 0xFF00 && r.value.g <= 0xFF00 && r.value.b <= 0xFF00
    ensures r.Ok? ==> exists i :: 0 <= i < 16 && r.value == PaletteColor(i)
    ensures COLORFGBG in env && |Split(env[COLORFGBG], ';')| >= 2 ==>
      (r.Ok? <==> ParseUnsigned(Split(env[COLORFGBG], ';')[1], 10, U8_MAX).Some?)
  {
    if COLORFGBG !in env then Err(Unsupported)
    else
      var v := env[COLORFGBG];
      var fields := Split(v, ';');
      if |fields| < 2 then
        NoSeparatorOneField(v, ';');
        Err(Unsupported)
      else
        match ParseUnsigned(fields[1], 10, U8_MAX)
        case None => Err(Parse(v))
        case Some(index) =>
          assert index >= 16 ==> PaletteColor(index) == PaletteColor(0);
          Ok(PaletteColor(index))
  }

  lemma NoSeparatorOneField(v: string, sep: char)
    requires |Split(v, sep)| < 2
    ensures sep !in v
  {
    var parts := Split(v, sep);
    assert Join(parts, sep) == parts[0];
  }

  /** Writing a background index in decimal (any number of leading zeros,
      any foreground field without `;`) and reading it back selects that
      palette entry. */
  lemma IndexRoundTrip(env: map<string, string>, fg: string, index: nat, width: nat)
    requires ';' !in fg
    requires index <= U8_MAX && 1 <= width && index < Pow(10, width)
    ensures FromEnvColorFgBg(env[COLORFGBG := fg + ";" + Digits(index, width, 10)]) == Ok(PaletteColor(index))
  {
    var d := Digits(index, width, 10);
    SplitWithoutSeparator(fg, ';');
    SplitWithoutSeparator(d, ';');
    SplitAround(fg, ';', d);
    ParseDigits(index, width, 10, U8_MAX);
  }

  /** Fields after the second are never looked at: appending more leaves
      the outcome as it was, except that a parse error names the whole
      variable, appended fields included. */
  lemma ExtraFieldsIgnored(env: map<string, string>, v: string, extra: string)
    requires ';' in v
    ensures var longer := FromEnvColorFgBg(env[COLORFGBG := v + ";" + extra]);
      var shorter := FromEnvColorFgBg(env[COLORFGBG := v]);
      (longer.Ok? || shorter.Ok? ==> longer == shorter) &&
      (longer.Err? <==> shorter.Err?) &&
      (longer.Err? ==> longer.error == Parse(v + ";" + extra) && shorter.error == Parse(v))
  {
    SplitAround(v, ';', extra);
    var fields := Split(v, ';');
    assert |fields| >= 2 by {
      if |fields| < 2 {
        NoSeparatorOneField(v, ';');
      }
    }
    var whole := Split(v + ";" + extra, ';');
    assert whole[1] == fields[1];
  }

  /** A background field that is not a decimal `u8` (not a number, empty,
      negative, or above 255) is a parse error naming the whole variable. */
  lemma MalformedIndexIsParseError(env: map<string, string>, fg: string, bg: string)
    requires ';' !in fg && ';' !in bg
    requires ParseUnsigned(bg, 10, U8_MAX).None?
    ensures FromEnvColorFgBg(env[COLORFGBG := fg + ";" + bg]) == Err(Parse(fg + ";" + bg))
  {
    SplitWithoutSeparator(fg, ';');
    SplitWithoutSeparator(bg, ';');
    SplitAround(fg, ';', bg);
  }

  /** ... and one that is a decimal `u8` (a leading `+` included) selects
      that palette entry. */
  lemma IndexParsed(env: map<string, string>, fg: string, bg: string, index: nat)
    requires ';' !in fg && ';' !in bg
    requires ParseUnsigned(bg, 10, U8_MAX) == Some(index)
    ensures FromEnvColorFgBg(env[COLORFGBG := fg + ";" + bg]) == Ok(PaletteColor(index))
  {
    SplitWithoutSeparator(fg, ';');
    SplitWithoutSeparator(bg, ';');
    SplitAround(fg, ';', bg);
  }

  /** A leading `+` is accepted: "0;+15" is bright white. */
  lemma PlusSignedIndex(env: map<string, string>)
    ensures FromEnvColorFgBg(env[COLORFGBG := "0" + ";" + "+15"]) == Ok(Rgb(0xFF00, 0xFF00, 0xFF00))
  {
    ParsePlusFifteen();
    IndexParsed(env, "0", "+15", 15);
    assert PaletteColor(15) == Rgb(0xFF00, 0xFF00, 0xFF00);
  }

  lemma ParsePlusFifteen()
    ensures ParseUnsigned("+15", 10, U8_MAX) == Some(15)
  {
    assert Unsigned("+15") == "15";
    ParseFifteen();
  }

  /** Instances: a letter, an empty field, a negative number and 256. */
  lemma MalformedIndexExamples(env: map<string, string>, fg: string)
    requires ';' !in fg
    ensures FromEnvColorFgBg(env[COLORFGBG := fg + ";" + "x"]) == Err(Parse(fg + ";" + "x"))
    ensures FromEnvColorFgBg(env[COLORFGBG := fg + ";" + ""]) == Err(Parse(fg + ";" + ""))
    ensures FromEnvColorFgBg(env[COLORFGBG := fg + ";" + "-1"]) == Err(Parse(fg + ";" + "-1"))
    ensures FromEnvColorFgBg(env[COLORFGBG := fg + ";" + Digits(256, 3, 10)]) ==
      Err(Parse(fg + ";" + Digits(256, 3, 10)))
  {
    assert "x"[0] == 'x' && DigitOf('x', 10).None?;
    MalformedIndexIsParseError(env, fg, "x");
    MalformedIndexIsParseError(env, fg, "");
    assert '-' in "-1";
    MalformedIndexIsParseError(env, fg, "-1");
    TwoFiftySixTooBig();
    MalformedIndexIsParseError(env, fg, Digits(256, 3, 10));
  }

  lemma TwoFiftySixTooBig()
    ensures Pow(10, 3) == 1000
    ensures ParseUnsigned(Digits(256, 3, 10), 10, U8_MAX).None?
  {
    assert Pow(10, 3) == 1000;
    ParseDigits(256, 3, 10, 256);
  }

  /** Indices 16 to 255 parse as a `u8` but fall to the table's catch-all
      arm: black, the same as index 0. */
  lemma HighIndicesAreBlack(index: nat)
    requires 16 <= index <= U8_MAX
    ensures PaletteColor(index) == Rgb(0, 0, 0) == PaletteColor(0)
  {
  }

  /** The documented examples: a bright white background ... */
  lemma BrightWhiteExample(env: map<string, string>)
    ensures FromEnvColorFgBg(env[COLORFGBG := "0" + ";" + "15"]) == Ok(Rgb(0xFF00, 0xFF00, 0xFF00))
  {
    var v := "0" + ";" + "15";
    SplitWithoutSeparator("0", ';');
    SplitWithoutSeparator("15", ';');
    SplitAround("0", ';', "15");
    assert Split(v, ';') == ["0", "15"];
    ParseFifteen();
    assert PaletteColor(15) == Rgb(0xFF00, 0xFF00, 0xFF00);
  }

  lemma ParseFifteen()
    ensures ParseUnsigned("15", 10, U8_MAX) == Some(15)
  {
    assert "15"[..1] == "1";
    assert IsDigits("15", 10);
    assert ValueOf("1", 10) == 1;
    assert ValueOf("15", 10) == 15;
  }

  /** ... and a black one. */
  lemma BlackExample(env: map<string, string>)
    ensures FromEnvColorFgBg(env[COLORFGBG := "15" + ";" + "0"]) == Ok(Rgb(0, 0, 0))
  {
    var v := "15" + ";" + "0";
    SplitWithoutSeparator("0", ';');
    SplitWithoutSeparator("15", ';');
    SplitAround("15", ';', "0");
    assert Split(v, ';') == ["15", "0"];
    ParseZero();
    assert PaletteColor(0) == Rgb(0, 0, 0);
  }

  lemma ParseZero()
    ensures ParseUnsigned("0", 10, U8_MAX) == Some(0)
  {
    assert "0"[..0] == [];
    assert ValueOf("0", 10) == 0;
  }
}
