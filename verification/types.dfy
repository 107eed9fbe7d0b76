/**
 The value types shared by every part of the background-colour probe:
 bytes on the terminal wire, 16-bit colour channels, the terminal families,
 the error taxonomy and the Result type the operations return.
 */
module Types {

  /** One byte read from or written to the terminal. */
  type byte = x: int | 0 <= x < 0x100

  /** A Rust `u16`. */
  type u16 = x: int | 0 <= x < 0x1_0000

  const ETX: byte := 0x03
  const BEL: byte := 0x07
  const ESC: byte := 0x1b
  const COLON: byte := 0x3a
  const BACKSLASH: byte := 0x5c
  const LOWER_N: byte := 0x6e

  const U16_MAX: nat := 0xFFFF
  const U8_MAX: nat := 0xFF

  /** The terminal families the probe distinguishes. */
  datatype Terminal = Screen | Tmux | XtermCompatible | Windows | Emacs

  /** A background colour, each channel on the full 16-bit scale. */
  datatype Rgb = Rgb(r: u16, g: u16, b: u16)

  /** An 8-bit palette entry widened to 16 bits per channel by multiplying
      by 256, as both fixed palettes of the library are. */
  function Widen(r8: nat, g8: nat, b8: nat): (c: Rgb)
    requires r8 <= 0xFF && g8 <= 0xFF && b8 <= 0xFF
    ensures c.r % 0x100 == 0 && c.g % 0x100 == 0 && c.b % 0x100 == 0
    ensures c.r <= 0xFF00 && c.g <= 0xFF00 && c.b <= 0xFF00
    ensures c.r / 0x100 == r8 && c.g / 0x100 == g8 && c.b / 0x100 == b8
  {
    Rgb(r8 * 0x100, g8 * 0x100, b8 * 0x100)
  }

  datatype Theme = Light | Dark

  /** The library's error enum. The model never produces `Io`: the calls
      that raise it (raw mode, the write, the runtime) are outside it. */
  datatype Error = Io | Parse(text: string) | Unsupported | Timeout

  datatype Option<+T> = None | Some(value: T)

  datatype Result<+T> = Ok(value: T) | Err(error: Error) {

    predicate IsFailure() {
      Err?
    }

    function PropagateFailure<U>(): Result<U>
      requires Err?
    {
      Err(error)
    }

    function Extract(): T
      requires Ok?
    {
      value
    }
  }

  /** The bytes a probe wrote to the terminal, and what it returned. */
  datatype Probe<+T> = Probe(sent: seq<byte>, result: Result<T>)

  /** A byte string read as text, one character per byte (the payloads the
      decoders see are ASCII whenever they decode successfully). */
  function Chars(bs: seq<byte>): (s: string)
    ensures |s| == |bs|
    ensures forall i :: 0 <= i < |bs| ==> s[i] as int == bs[i]
  {
    seq(|bs|, i requires 0 <= i < |bs| => bs[i] as char)
  }

  predicate IsLatin1(s: string) {
    forall i :: 0 <= i < |s| ==> s[i] as int < 0x100
  }

  /** Text written as bytes, one byte per character. */
  function Bytes(s: string): (bs: seq<byte>)
    requires IsLatin1(s)
    ensures |bs| == |s|
    ensures forall i :: 0 <= i < |s| ==> bs[i] == s[i] as int
  {
    seq(|s|, i requires 0 <= i < |s| => s[i] as int)
  }

  lemma CharsOfBytes(s: string)
    requires IsLatin1(s)
    ensures Chars(Bytes(s)) == s
  {
  }
}
