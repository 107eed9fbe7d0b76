/**
 Decoding of the X11 colour specification a terminal answers with, the
 `rrrr/gggg/bbbb` part of `rgb:rrrr/gggg/bbbb`: one to four hex digits per
 channel, scaled to 16 bits by shifting them to the top of the channel.
 */
module X11 {
  import opened Types
  import opened Text

  /** `x << n` on a `u16` for a shift amount below 16: bits pushed past the
      top are lost. */
  function Shl16(x: u16, n: nat): (r: u16)
    requires n < 16
    ensures x * Pow(2, n) < 0x1_0000 ==> r == x * Pow(2, n)
  {
    (x * Pow(2, n)) % 0x1_0000
  }

  /** The component is one to four characters that `u16::from_str_radix`
      accepts in base 16 (so a leading `+` is allowed). */
  predicate IsHexComponent(s: string) {
    1 <= |s| <= 4 && ParseUnsigned(s, 16, U16_MAX).Some?
  }

  /** A k-character component with value v stands for v * 16^(4 - k). */
  function ComponentValue(s: string): u16
    requires IsHexComponent(s)
  {
    ShiftFits(s);
    ParseUnsigned(s, 16, U16_MAX).value * Pow(16, 4 - |s|)
  }

  /** `decode_hex`, with the shift guarded: a component longer than four
      characters is a parse error, like any text that is not hex. */
  function DecodeHex(s: string): (r: Result<u16>)
    ensures r.Ok? <==> IsHexComponent(s)
    ensures r.Ok? ==> r.value == ComponentValue(s)
    ensures r.Err? ==> r.error == Parse(s)
  {
    match ParseUnsigned(s, 16, U16_MAX)
    case None => Err(Parse(s))
    case Some(v) =>
      if |s| > 4 then Err(Parse(s))
      else
        ShiftFits(s);
        Ok(Shl16(v, (4 - |s|) * 4))
  }

  /** The powers the decoder meets, evaluated once. */
  lemma PowTable()
    ensures Pow(16, 0) == 1 && Pow(16, 1) == 16 && Pow(16, 2) == 256
    ensures Pow(16, 3) == 4096 && Pow(16, 4) == 0x1_0000
    ensures Pow(2, 0) == 1 && Pow(2, 4) == 16 && Pow(2, 8) == 256 && Pow(2, 12) == 4096
  {
    assert Pow(2, 4) == 16;
    assert Pow(2, 8) == 16 * Pow(2, 4) by {
      assert Pow(2, 8) == 2 * 2 * 2 * 2 * Pow(2, 4);
    }
    assert Pow(2, 12) == 16 * Pow(2, 8) by {
      assert Pow(2, 12) == 2 * 2 * 2 * 2 * Pow(2, 8);
    }
  }

  /** Shifting a component's value by the missing digit places never loses a
      bit: the value has at most |s| hex digits. */
  lemma ShiftFits(s: string)
    requires IsHexComponent(s)
    ensures var v := ParseUnsigned(s, 16, U16_MAX).value;
      v * Pow(2, (4 - |s|) * 4) == v * Pow(16, 4 - |s|) < 0x1_0000
  {
    var v := ParseUnsigned(s, 16, U16_MAX).value;
    PowMono(16, |Unsigned(s)|, |s|);
    NibbleShift(v, |s|);
  }

  /** A value of at most `n` hex digits shifted left by `4 - n` nibbles. */
  lemma NibbleShift(v: nat, n: nat)
    requires 1 <= n <= 4 && v < Pow(16, n)
    ensures v * Pow(2, (4 - n) * 4) == v * Pow(16, 4 - n) < 0x1_0000
  {
    PowTable();
    if n == 1 {
      assert (4 - n) * 4 == 12 && 4 - n == 3;
    } else if n == 2 {
      assert (4 - n) * 4 == 8 && 4 - n == 2;
    } else if n == 3 {
      assert (4 - n) * 4 == 4 && 4 - n == 1;
    } else {
      assert (4 - n) * 4 == 0 && 4 - n == 0;
    }
  }

  /** `decode_x11_color`: split on `/`; fewer than three pieces is a parse
      error carrying the whole text; otherwise the first three pieces are
      decoded in order, and the first bad one is the error. Pieces after the
      third are not looked at. */
  function DecodeX11Color(s: string): (r: Result<Rgb>)
    ensures Occurrences(s, '/') < 2 ==> r == Err(Parse(s))
    ensures r.Ok? <==>
      var parts := Split(s, '/');
      |parts| >= 3 && IsHexComponent(parts[0]) && IsHexComponent(parts[1]) && IsHexComponent(parts[2])
    ensures r.Ok? ==>
      var parts := Split(s, '/');
      r.value == Rgb(ComponentValue(parts[0]), ComponentValue(parts[1]), ComponentValue(parts[2]))
    ensures r.Err? ==> r.error.Parse?
    ensures var parts := Split(s, '/');
      |parts| >= 3 && !IsHexComponent(parts[0]) ==> r == Err(Parse(parts[0]))
    ensures var parts := Split(s, '/');
      |parts| >= 3 && IsHexComponent(parts[0]) && !IsHexComponent(parts[1]) ==>
        r == Err(Parse(parts[1]))
    ensures var parts := Split(s, '/');
      |parts| >= 3 && IsHexComponent(parts[0]) && IsHexComponent(parts[1]) && !IsHexComponent(parts[2]) ==>
        r == Err(Parse(parts[2]))
  {
    var parts := Split(s, '/');
    if |parts| < 3 then Err(Parse(s))
    else
      var red, green, blue := DecodeHex(parts[0]), DecodeHex(parts[1]), DecodeHex(parts[2]);
      if red.Err? then red.PropagateFailure()
      else if green.Err? then green.PropagateFailure()
      else if blue.Err? then blue.PropagateFailure()
      else Ok(Rgb(red.value, green.value, blue.value))
  }

  /** The top `k` hex digits of a channel, as a terminal that reports `k`
      digits per channel writes them. */
  function EncodeHex(x: u16, k: nat): (s: string)
    requires 1 <= k <= 4
    ensures |s| == k && '/' !in s
    ensures forall i :: 0 <= i < |s| ==> '0' <= s[i] <= 'z'
  {
    var s := Digits(TopDigits(x, k), k, 16);
    HexCharsInRange(s);
    s
  }

  /** The channel's top `k` hex digits, as a number: shifted back into place
      they are the channel with its low digits cleared. */
  function TopDigits(x: u16, k: nat): (q: nat)
    requires 1 <= k <= 4
    ensures q < Pow(16, k) && q <= U16_MAX
    ensures q * Pow(16, 4 - k) == x - x % Pow(16, 4 - k)
  {
    TopDigitsFit(x, k);
    DivIsSmaller(x, Pow(16, 4 - k));
    DivMod(x, Pow(16, 4 - k));
    x / Pow(16, 4 - k)
  }

  lemma HexCharsInRange(s: string)
    requires IsDigits(s, 16)
    ensures forall i :: 0 <= i < |s| ==> '0' <= s[i] <= 'z'
  {
    forall i | 0 <= i < |s|
      ensures '0' <= s[i] <= 'z'
    {
      assert DigitOf(s[i], 16).Some?;
    }
  }

  /** The top `k` digits of a channel fit in `k` digits. */
  lemma TopDigitsFit(x: u16, k: nat)
    requires 1 <= k <= 4
    ensures x / Pow(16, 4 - k) < Pow(16, k)
  {
    PowTable();
  }

  /** The channel with its low 4 * (4 - k) bits cleared: what survives being
      reported with `k` digits. */
  function Truncate(x: u16, k: nat): u16
    requires 1 <= k <= 4
  {
    x - x % Pow(16, 4 - k)
  }

  /** Decoding a k-digit component recovers the channel up to the digits the
      terminal left out. */
  lemma HexRoundTrip(x: u16, k: nat)
    requires 1 <= k <= 4
    ensures DecodeHex(EncodeHex(x, k)) == Ok(Truncate(x, k))
  {
    var s := EncodeHex(x, k);
    EncodedComponent(x, k);
    var r := DecodeHex(s);
    assert r.Ok? && r.value == ComponentValue(s);
    assert ComponentValue(s) == Truncate(x, k);
  }

  /** The encoded top digits form a component whose value is those digits
      shifted back into place. */
  lemma EncodedComponent(x: u16, k: nat)
    requires 1 <= k <= 4
    ensures IsHexComponent(EncodeHex(x, k))
    ensures ComponentValue(EncodeHex(x, k)) == x - x % Pow(16, 4 - k)
  {
    DigitsComponent(TopDigits(x, k), k);
  }

  /** `k` hex digits of `q` form a component standing for `q * 16^(4-k)`. */
  lemma DigitsComponent(q: nat, k: nat)
    requires 1 <= k <= 4 && q < Pow(16, k) && q <= U16_MAX
    ensures IsHexComponent(Digits(q, k, 16))
    ensures ComponentValue(Digits(q, k, 16)) == q * Pow(16, 4 - k)
  {
    ParseDigits(q, k, 16, U16_MAX);
    assert Unsigned(Digits(q, k, 16)) == Digits(q, k, 16);
  }

  lemma DivIsSmaller(x: nat, p: nat)
    requires p >= 1
    ensures x / p <= x
  {
  }

  lemma DivMod(x: nat, p: nat)
    requires p >= 1
    ensures (x / p) * p == x - x % p
  {
  }

  /** The reply text of a colour whose channels are each written with `k`
      hex digits. */
  function FormatX11(c: Rgb, k: nat): (s: string)
    requires 1 <= k <= 4
    ensures forall i :: 0 <= i < |s| ==> '/' <= s[i] <= 'z'
  {
    EncodeHex(c.r, k) + "/" + EncodeHex(c.g, k) + "/" + EncodeHex(c.b, k)
  }

  /** Decoding inverts formatting: exactly for four digits per channel, and
      up to the unreported low digits for fewer. */
  lemma X11RoundTrip(c: Rgb, k: nat)
    requires 1 <= k <= 4
    ensures DecodeX11Color(FormatX11(c, k)) == Ok(Rgb(Truncate(c.r, k), Truncate(c.g, k), Truncate(c.b, k)))
  {
    HexRoundTrip(c.r, k);
    HexRoundTrip(c.g, k);
    HexRoundTrip(c.b, k);
    DecodeThree(EncodeHex(c.r, k), EncodeHex(c.g, k), EncodeHex(c.b, k));
  }

  /** With all four digits reported the colour comes back unchanged. */
  lemma X11ExactRoundTrip(c: Rgb)
    ensures DecodeX11Color(FormatX11(c, 4)) == Ok(c)
  {
    X11RoundTrip(c, 4);
    assert Truncate(c.r, 4) == c.r && Truncate(c.g, 4) == c.g && Truncate(c.b, 4) == c.b;
  }

  /** Only the first three pieces matter: two texts whose first three pieces
      agree decode alike, so trailing `/...` pieces are ignored, not
      rejected. */
  lemma FirstThreeDecide(s: string, s': string)
    requires |Split(s, '/')| >= 3 && |Split(s', '/')| >= 3
    requires Split(s, '/')[..3] == Split(s', '/')[..3]
    ensures DecodeX11Color(s) == DecodeX11Color(s')
  {
    assert Split(s, '/')[0] == Split(s', '/')[0];
    assert Split(s, '/')[1] == Split(s', '/')[1];
    assert Split(s, '/')[2] == Split(s', '/')[2];
  }

  /** Appending more pieces to a three-piece reply leaves its decoding as it
      was. */
  lemma ExtraComponentsIgnored(s: string, extra: string)
    requires Occurrences(s, '/') >= 2
    ensures DecodeX11Color(s + ['/'] + extra) == DecodeX11Color(s)
  {
    var longer := s + ['/'] + extra;
    var parts := Split(s, '/');
    assert |parts| >= 3;
    SplitAround(s, '/', extra);
    var whole := Split(longer, '/');
    assert whole == parts + Split(extra, '/');
    assert whole[..3] == parts[..3];
    FirstThreeDecide(longer, s);
  }

  /** A single leading `+` counts towards the component's length but not its
      digits, so `+d` decodes one hex place lower than `d`. */
  lemma PlusSignQuirk(d: string)
    requires 1 <= |d| <= 3 && IsDigits(d, 16)
    ensures DecodeHex(['+'] + d) == Ok(ValueOf(d, 16) * Pow(16, 3 - |d|))
    ensures DecodeHex(d) == Ok(ValueOf(d, 16) * Pow(16, 4 - |d|))
  {
    ShortDigits(d);
    LeadingPlusAccepted(d, 16, U16_MAX);
    assert |['+'] + d| == |d| + 1;
  }

  /** One to four hex digits always form a component. */
  lemma ShortDigits(d: string)
    requires 1 <= |d| <= 4 && IsDigits(d, 16)
    ensures ParseUnsigned(d, 16, U16_MAX) == Some(ValueOf(d, 16))
    ensures IsHexComponent(d)
  {
    assert Unsigned(d) == d by {
      assert DigitOf(d[0], 16).Some?;
    }
    PowMono(16, |d|, 4);
    PowTable();
  }

  // ---------------------------------------------------------------------
  // The shift as the library computes it.

  /** `decode_hex` exactly as written: `(4 - len) * 4` is evaluated in `u32`.
      With overflow checks on (a debug build) a component longer than four
      characters panics, shown as `None`; with them off (a release build)
      the subtraction and product wrap and the shift amount is masked to its
      low four bits. */
  function DecodeHexAsWritten(s: string, overflowChecks: bool): (r: Option<Result<u16>>)
    ensures r.None? ==> overflowChecks && |s| > 4
  {
    match ParseUnsigned(s, 16, U16_MAX)
    case None => Some(Err(Parse(s)))
    case Some(v) =>
      var len := |s| % 0x1_0000_0000;
      if overflowChecks && len > 4 then None
      else
        var amount := ((4 - len) % 0x1_0000_0000) * 4 % 0x1_0000_0000;
        Some(Ok(Shl16(v, amount % 16)))
  }

  /** Where the guard does not apply, the code as written and the guarded
      decoder agree on both builds. */
  lemma AsWrittenAgreesUpToFourChars(s: string, overflowChecks: bool)
    requires |s| <= 4
    ensures DecodeHexAsWritten(s, overflowChecks) == Some(DecodeHex(s))
  {
    match ParseUnsigned(s, 16, U16_MAX)
    case None =>
    case Some(v) =>
      ShiftAmountSmall(|s|);
      ShiftFits(s);
      var shifted := Shl16(v, (4 - |s|) * 4);
      assert DecodeHexAsWritten(s, overflowChecks) == Some(Ok(shifted));
      assert DecodeHex(s) == Ok(shifted);
  }

  /** For one to four characters nothing wraps or is masked. */
  lemma ShiftAmountSmall(len: nat)
    requires 1 <= len <= 4
    ensures len % 0x1_0000_0000 == len
    ensures ((4 - len) % 0x1_0000_0000) * 4 % 0x1_0000_0000 % 16 == (4 - len) * 4
  {
  }

  /** The value of the first `k` digits extends that of the first `k - 1`. */
  lemma PrefixValue(s: string, k: nat)
    requires 1 <= k <= |s| && IsDigits(s, 16)
    ensures IsDigits(s[..k], 16) && IsDigits(s[..k - 1], 16)
    ensures ValueOf(s[..k], 16) == ValueOf(s[..k - 1], 16) * 16 + DigitOf(s[k - 1], 16).value
  {
    assert s[..k][..k - 1] == s[..k - 1];
    assert s[..k][k - 1] == s[k - 1];
  }

  /** `"00001"` is a five-character component whose value fits in a `u16`:
      a debug build panics on it, a release build shifts by 12 and reads it
      as 0x1000, and the guarded decoder rejects it. */
  lemma OverlongComponentCounterexample()
    ensures DecodeHexAsWritten("00001", true) == None
    ensures DecodeHexAsWritten("00001", false) == Some(Ok(0x1000))
    ensures DecodeHex("00001") == Err(Parse("00001"))
  {
    ParseOverlong();
    var amount := ((4 - 5) % 0x1_0000_0000) * 4 % 0x1_0000_0000;
    assert amount % 16 == 12;
    PowTable();
    assert Shl16(1, 12) == 0x1000;
  }

  lemma ParseOverlong()
    ensures ParseUnsigned("00001", 16, U16_MAX) == Some(1)
  {
    var s := "00001";
    assert Unsigned(s) == s;
    assert IsDigits(s, 16);
    assert s[..0] == [];
    PrefixValue(s, 1);
    PrefixValue(s, 2);
    PrefixValue(s, 3);
    PrefixValue(s, 4);
    PrefixValue(s, 5);
    assert s[..5] == s;
  }

  /** Three components joined by `/` decode one by one. */
  lemma DecodeThree(a: string, b: string, c: string)
    requires IsHexComponent(a) && IsHexComponent(b) && IsHexComponent(c)
    requires '/' !in a && '/' !in b && '/' !in c
    ensures DecodeX11Color(a + "/" + b + "/" + c) == Ok(Rgb(ComponentValue(a), ComponentValue(b), ComponentValue(c)))
  {
    SplitThree(a, b, c);
  }

  lemma SplitThree(a: string, b: string, c: string)
    requires '/' !in a && '/' !in b && '/' !in c
    ensures Split(a + "/" + b + "/" + c, '/') == [a, b, c]
  {
    SplitJoin([a, b, c], '/');
    assert [a, b, c][1..] == [b, c] && [b, c][1..] == [c];
    assert Join([c], '/') == c;
    assert Join([b, c], '/') == b + "/" + c;
    assert Join([a, b, c], '/') == a + "/" + b + "/" + c;
  }

  /** A component of one to four copies of the hex digit whose value is `d`. */
  lemma RepeatedDigit(s: string, d: nat)
    requires 1 <= |s| <= 4 && DigitOf(s[0], 16) == Some(d)
    requires forall i :: 0 <= i < |s| ==> s[i] == s[0]
    ensures IsHexComponent(s) && '/' !in s
    ensures ComponentValue(s) == if |s| == 1 then d * 0x1000 else if |s| == 2 then d * 0x1100
        else if |s| == 3 then d * 0x1110 else d * 0x1111
  {
    RepeatedValue(s, d);
    assert Unsigned(s) == s;
    var v := ValueOf(s, 16);
    assert ParseUnsigned(s, 16, U16_MAX) == Some(v);
    PowTable();
  }

  lemma RepeatedValue(s: string, d: nat)
    requires 1 <= |s| <= 4 && DigitOf(s[0], 16) == Some(d)
    requires forall i :: 0 <= i < |s| ==> s[i] == s[0]
    ensures IsDigits(s, 16)
    ensures ValueOf(s, 16) == if |s| == 1 then d else if |s| == 2 then d * 0x11
        else if |s| == 3 then d * 0x111 else d * 0x1111
  {
    assert IsDigits(s, 16);
    assert s[..0] == [];
    PrefixValue(s, 1);
    var v1 := ValueOf(s[..1], 16);
    assert v1 == d;
    if |s| >= 2 {
      PrefixValue(s, 2);
      var v2 := ValueOf(s[..2], 16);
      assert v2 == d * 0x11;
      if |s| >= 3 {
        PrefixValue(s, 3);
        var v3 := ValueOf(s[..3], 16);
        assert v3 == d * 0x111;
        if |s| == 4 {
          PrefixValue(s, 4);
        }
      }
    }
    assert s[..|s|] == s;
  }

  /** The library's unit test for the decoder, as theorems. */
  lemma DecoderUnitTestZero()
    ensures DecodeX11Color("0000" + "/" + "0000" + "/" + "0000") == Ok(Rgb(0, 0, 0))
  {
    RepeatedDigit("0000", 0);
    DecodeThree("0000", "0000", "0000");
  }

  lemma DecoderUnitTestFourDigits()
    ensures DecodeX11Color("1111" + "/" + "2222" + "/" + "3333") == Ok(Rgb(0x1111, 0x2222, 0x3333))
  {
    RepeatedDigit("1111", 1);
    RepeatedDigit("2222", 2);
    RepeatedDigit("3333", 3);
    DecodeThree("1111", "2222", "3333");
  }

  lemma DecoderUnitTestThreeDigits()
    ensures DecodeX11Color("111" + "/" + "222" + "/" + "333") == Ok(Rgb(0x1110, 0x2220, 0x3330))
  {
    RepeatedDigit("111", 1);
    RepeatedDigit("222", 2);
    RepeatedDigit("333", 3);
    DecodeThree("111", "222", "333");
  }

  lemma DecoderUnitTestTwoDigits()
    ensures DecodeX11Color("11" + "/" + "22" + "/" + "33") == Ok(Rgb(0x1100, 0x2200, 0x3300))
  {
    RepeatedDigit("11", 1);
    RepeatedDigit("22", 2);
    RepeatedDigit("33", 3);
    DecodeThree("11", "22", "33");
  }

  lemma DecoderUnitTestOneDigit()
    ensures DecodeX11Color("1" + "/" + "2" + "/" + "3") == Ok(Rgb(0x1000, 0x2000, 0x3000))
  {
    RepeatedDigit("1", 1);
    RepeatedDigit("2", 2);
    RepeatedDigit("3", 3);
    DecodeThree("1", "2", "3");
  }
}
