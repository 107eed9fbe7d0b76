# termbg in Dafny

A model of the core of `termbg`, a Rust library that finds out a terminal's
background colour, and whether that colour is light or dark. It asks the
terminal with an OSC 11 query ("report the background colour") and decodes
the X11 colour text that comes back (`rgb:rrrr/gggg/bbbb`). It also measures
how long the terminal takes to answer a device status request (`CSI 5 n`).
It knows five terminal families:

- tmux and GNU screen: the query is wrapped in a passthrough sequence.
- Emacs: never asked.
- The Windows console: its attribute word is read instead.
- Everything else: treated as xterm-compatible.

When the terminal cannot answer, the colour falls back on the `COLORFGBG`
variable that rxvt-style terminals export.

Everything the library reads from the outside world is an input of the model.
These inputs are gathered in `Probe.Host`:

- the environment, as a map from names to values;
- whether this is the Windows build;
- whether standard input, output and error are all terminals;
- the bytes the terminal sends before it goes quiet;
- the console's attribute word.

The latency probe also takes its clock reading as a parameter. The colour
and latency operations return a `Probe`: the bytes they wrote to the terminal,
plus the result. `Probe.BackgroundTheme` returns only the theme or the error,
as `theme` does; the bytes it writes are those of `Probe.BackgroundColor`.

Modules, one per component of `src/lib.rs`:

- `Types`: shared types (`Terminal`, `Rgb`, `Theme`, `Error`, `Result`) and the byte-to-text view.
- `Text`: the two standard-library pieces the decoders rely on, `str::split` with a one-character pattern and `from_str_radix` for unsigned types.
- `Detect`: `terminal()`, both the Windows and the non-Windows variant.
- `Query`: the bytes written to the terminal.
- `Scanner`: the two byte-at-a-time read loops. Each is a method (the loop) proved equal to a declarative reading of the input.
- `X11`: `decode_x11_color` and `decode_hex`, an encoder they invert, and the shift as the code computes it.
- `ColorFgBg`: `from_env_colorfgbg` and rxvt's palette.
- `Console`: `from_winapi` once the attribute word is known.
- `Probe`: `rgb`, `latency`, `theme`, `from_xterm` and `xterm_latency`, and properties of the whole call.

Behaviours of the code worth knowing:

- The timeout applies to each byte read separately, not to the whole probe. The model has no clock: a reply that never completes is a timeout (`Probe.SilentTerminalTimesOut`).
- An X11 reply with more than three `/`-separated components is not rejected. The code decodes the first three and never looks at the rest (`X11.ExtraComponentsIgnored`).
- A `COLORFGBG` background index from 16 to 255 is not an error: the palette's catch-all arm maps it to black (`ColorFgBg.HighIndicesAreBlack`). An index above 255 fails to parse as a `u8` and is a parse error (`ColorFgBg.MalformedIndexIsParseError`).
- A hex component longer than four characters is not checked for, and the shift underflows; see Findings. The X11 colour syntax `rgb:r/g/b` allows one to four hex digits per channel, so `X11.DecodeHex` rejects longer components as a parse error. The code as written is modelled beside it (`X11.DecodeHexAsWritten`).

Two further behaviours of the code, kept as they are:

- `from_str_radix` accepts one leading `+`. `decode_hex` counts the `+` in the component's length, so `+8` decodes to `0x0800` rather than `0x8000` (`X11.PlusSignQuirk`).
- On Windows, `TERM_PROGRAM=vscode` is checked before `INSIDE_EMACS` (`Detect.WindowsPrecedence`).

## Model

| member | source | states |
|---|---|---|
| Detect.UnixTerminal | src/lib.rs:55-75 | Never the Windows console. Emacs exactly when `INSIDE_EMACS` is set. Screen only when `TERM` starts with "screen". |
| Detect.WindowsTerminal | src/lib.rs:78-97 | Always one of xterm-compatible, Emacs or console. Emacs only when `INSIDE_EMACS` is set. Console only when neither `WT_SESSION` nor `INSIDE_EMACS` is set. |
| Detect.UnixPrecedence | src/lib.rs:56-75 | The first match wins: `INSIDE_EMACS`, then `TMUX`, then a `TERM` starting with "screen". Xterm-compatible exactly when none of them matches. |
| Detect.WindowsPrecedence | src/lib.rs:79-97 | `TERM_PROGRAM=vscode` wins even over `INSIDE_EMACS`. Emacs and the console are each characterised by an if-and-only-if. |
| Detect.DetectTerminal | src/lib.rs:55-97 | The build chooses the variant: Windows never reports tmux or screen, and other platforms never report the Windows console. |
| Detect.DetectionReadsOnlyConsulted | src/lib.rs:56-97 | Two environments that agree on the five variables detection reads are detected alike, on both platforms. |
| Query.ColorQueryBytes | src/lib.rs:180-187 | Of `Query.ColorQuery`: the exact query bytes for tmux (DCS passthrough with the ESC doubled, then ETX), for screen, and for every other family (ST-terminated). The tmux, screen and plain queries differ from one another; xterm-compatible terminals, the Windows console and Emacs all get the plain one. |
| Scanner.ColorReply | src/lib.rs:201-226 | A completed reply consumes no more than the input. Its payload holds no BEL or ESC. The last byte consumed is BEL, or the one before it is ESC. |
| Scanner.ReadColorReply | src/lib.rs:201-226 | The byte-at-a-time loop computes exactly the declarative `ColorReply`. |
| Scanner.HeaderSkipped | src/lib.rs:220-225 | Bytes before the first `:` never matter, even BEL or ESC: the outcome is that of the rest, shifted. |
| Scanner.BelEndsReply | src/lib.rs:207-210 | After the `:` every byte but BEL and ESC is kept, in order. BEL ends the reply and is not kept. |
| Scanner.StEndsReply | src/lib.rs:211-219 | ESC ends the reply after exactly one more byte, whatever that byte is. Neither byte is kept. |
| Scanner.DanglingEscTimesOut | src/lib.rs:212-216 | An ESC with nothing after it leaves the reader waiting: the reply never completes. |
| Scanner.UnterminatedReplyTimesOut | src/lib.rs:203-206 | A `:` followed only by bytes other than BEL and ESC leaves the reply incomplete, whatever header came before. |
| Scanner.ColorReplyReadsNoFurther | src/lib.rs:203-226 | Whatever follows a complete reply leaves the outcome unchanged. |
| Scanner.LatencyReply | src/lib.rs:310-318 | Completes exactly when an `n` arrives. It consumes through the first `n` and keeps nothing. |
| Scanner.ReadLatencyReply | src/lib.rs:309-319 | The loop computes exactly `LatencyReply`. |
| Scanner.LatencyReplyReadsNoFurther | src/lib.rs:310-318 | Bytes after the `n` are never read. |
| Text.Split | src/lib.rs:339 | One more piece than there are separators. No piece contains the separator. Joining the pieces gives back the text. |
| Text.SplitJoin | src/lib.rs:339 | Splitting undoes joining, for pieces free of the separator. |
| Text.ParseUnsigned | src/lib.rs:334 | Succeeds exactly when what is left after one optional `+` is a non-empty run of digits whose value is at most the maximum. The result is that value. A text holding `-` never parses. |
| Text.ParseDigits | src/lib.rs:244 | Parsing a decimal or hex rendering of a number, with any leading zeros, gives the number back. |
| Text.LeadingPlusAccepted | src/lib.rs:334 | A single leading `+` changes nothing about the parse. |
| X11.DecodeHex | src/lib.rs:332-337 | Succeeds exactly for one to four characters that parse as hex. The value is the component shifted to the top of 16 bits. An error carries the component. |
| X11.HexRoundTrip | src/lib.rs:332-337 | Decoding the top `k` hex digits of a channel gives the channel with its unreported low bits cleared. |
| X11.DecodeX11Color | src/lib.rs:339-348 | Fewer than two `/` is a parse error carrying the whole text. Success exactly when the first three pieces are valid components, and then it is their values. Otherwise the error is a parse error carrying the first bad piece, in the order red, green, blue. |
| X11.X11RoundTrip | src/lib.rs:331-349 | Decoding `rrrr/gggg/bbbb` written with `k` digits per channel gives the truncated colour. |
| X11.X11ExactRoundTrip | src/lib.rs:331-349 | With four digits per channel the colour comes back unchanged. |
| X11.FirstThreeDecide | src/lib.rs:339-346 | Two replies with the same first three pieces decode alike. |
| X11.ExtraComponentsIgnored | src/lib.rs:339-343 | Appending `/...` to a reply with at least three pieces does not change its decoding. |
| X11.PlusSignQuirk | src/lib.rs:333-335 | `+d` is accepted and decodes one hex place lower than `d`. |
| X11.DecodeHexAsWritten | src/lib.rs:332-337 | The code as written, on a debug or release build: it can panic only on a debug build, and only for a component longer than four characters. |
| X11.AsWrittenAgreesUpToFourChars | src/lib.rs:333-335 | Up to four characters the code as written agrees with `DecodeHex` on both builds. |
| X11.OverlongComponentCounterexample | src/lib.rs:333-335 | `"00001"` panics on a debug build and decodes to 0x1000 on a release build, while `DecodeHex` rejects it. |
| X11.DecoderUnitTestZero | src/lib.rs:403-404 | `0000/0000/0000` decodes to black. |
| X11.DecoderUnitTestFourDigits | src/lib.rs:406-407 | `1111/2222/3333` decodes to (0x1111, 0x2222, 0x3333). |
| X11.DecoderUnitTestThreeDigits | src/lib.rs:409-410 | `111/222/333` decodes to (0x1110, 0x2220, 0x3330). |
| X11.DecoderUnitTestTwoDigits | src/lib.rs:412-413 | `11/22/33` decodes to (0x1100, 0x2200, 0x3300). |
| X11.DecoderUnitTestOneDigit | src/lib.rs:415-416 | `1/2/3` decodes to (0x1000, 0x2000, 0x3000). |
| Types.Widen | src/lib.rs:285-289 | An 8-bit entry times 256: each channel is a multiple of 256, at most 0xFF00, and gives back the entry when divided by 256. |
| ColorFgBg.RxvtPalette | src/lib.rs:247-283 | Each entry of the table is an 8-bit triple. `ColorFgBg.PaletteColor` widens an entry to 16 bits. |
| ColorFgBg.FromEnvColorFgBg | src/lib.rs:240-290 | The variable missing, or without `;`, is `Unsupported`. With a second field, success exactly when that field parses as a decimal `u8`. Any other error is a parse error carrying the whole variable. A success is one of the sixteen palette colours, each channel a multiple of 256. |
| ColorFgBg.MalformedIndexIsParseError | src/lib.rs:243-244 | `fg;bg` whose `bg` is not a decimal `u8` gives a parse error carrying `fg;bg`. |
| ColorFgBg.IndexParsed | src/lib.rs:242-289 | `fg;bg` whose `bg` parses as a decimal `u8` (a leading `+` allowed) selects that palette entry. With `ColorFgBg.MalformedIndexIsParseError` this settles every `bg`. |
| ColorFgBg.PlusSignedIndex | src/lib.rs:244 | `0;+15` gives bright white (0xFF00, 0xFF00, 0xFF00): `from_str_radix` accepts one leading `+`. |
| ColorFgBg.MalformedIndexExamples | src/lib.rs:244 | A letter, an empty field, `-1` and `256` as the index are each that parse error. |
| ColorFgBg.IndexRoundTrip | src/lib.rs:242-289 | `fg;NNN`, with any foreground field and any zero-padded decimal index up to 255, selects that palette entry. |
| ColorFgBg.ExtraFieldsIgnored | src/lib.rs:242-244 | Fields after the second do not change a success or the kind of failure. A parse error names the whole variable. |
| ColorFgBg.HighIndicesAreBlack | src/lib.rs:282 | Every index from 16 to 255 gives black, the same as index 0. |
| ColorFgBg.BrightWhiteExample | src/lib.rs:280-289 | `0;15` gives (0xFF00, 0xFF00, 0xFF00). |
| ColorFgBg.BlackExample | src/lib.rs:248-249 | `15;0` gives black. |
| Console.ConsolePalette | src/lib.rs:370-388 | Each of the sixteen rows is an 8-bit triple. |
| Console.FromWinapi | src/lib.rs:360-394 | No background bits is black. All four background bits is 0xFF00 on each channel. |
| Console.OnlyBackgroundBitsMatter | src/lib.rs:360-363 | Attribute words that agree on the four background bits give the same colour. |
| Probe.FromXterm | src/lib.rs:171-238 | Not attached to a terminal: `Unsupported`, and nothing is written. Otherwise the family's query is written. A reply that never completes is a `Timeout`. A completed reply's payload, read one character per byte, is what gets decoded. Every other error is a parse error. |
| Probe.XtermLatency | src/lib.rs:292-329 | The status request `Query.LatencyQuery` is always written. The result is the elapsed time exactly when an `n` arrives, else a `Timeout`. |
| Probe.PreferPrimary | src/lib.rs:107-114 | Succeeds exactly when either side does, preferring the primary. A failure is the primary's error. |
| Probe.PrimaryColor | src/lib.rs:100-125 | Emacs: `Unsupported` without writing. On Windows every family but xterm-compatible answers from the console. Every other family goes through `Probe.FromXterm`. Whatever is written is the family's query. |
| Probe.BackgroundColor | src/lib.rs:100-134 | Only the detected family's query is ever written, and nothing without a terminal. Succeeds exactly when the primary or `COLORFGBG` does. A successful primary wins. `COLORFGBG` is used only when the primary fails. A failure is the primary's. |
| Probe.Latency | src/lib.rs:137-155 | Writes either nothing, answering zero, or the status request. A failure is a `Timeout` with no `n` in the reply. |
| Probe.ThemeOf | src/lib.rs:161-168 | Light exactly when the BT.601 luma 0.299 R + 0.587 G + 0.114 B, taken as a real number, exceeds 32768. |
| Probe.BackgroundTheme | src/lib.rs:158-169 | The theme of the background colour, or the colour's error. |
| Probe.EmacsNeverQueries | src/lib.rs:103-115 | Inside Emacs nothing is written. The colour is `COLORFGBG`'s, else `Unsupported`. The latency is zero. |
| Probe.WindowsConsoleAnswers | src/lib.rs:118-155 | In the Windows console nothing is written, the colour comes from the console, and the latency is zero. |
| Probe.SilentTerminalTimesOut | src/lib.rs:204-206 | A probed terminal that never completes its reply gives `COLORFGBG`'s colour, else a `Timeout`. |
| Probe.ColorProbe | src/lib.rs:100-125 | Every family that is asked goes through `from_xterm`: every family but Emacs off Windows, and xterm-compatible on Windows. |
| Probe.LatencyProbe | src/lib.rs:138-144 | A probed family sends the status request even without a terminal. It succeeds exactly when an `n` arrives. |
| Probe.ReplyTextIsDecoded | src/lib.rs:196-237 | Any header without `:`, then `:`, then text, then BEL, then anything: the text is what gets decoded. |
| Probe.StReplyTextIsDecoded | src/lib.rs:196-237 | The same for a reply ended by ESC and one more byte. |
| Probe.UnterminatedReplyIsTimeout | src/lib.rs:203-206 | A `:` with no BEL or ESC after it is a `Timeout`. |
| Probe.XtermEndToEnd | src/lib.rs:181-237 | For an xterm-compatible terminal, the ST-terminated query is written, and a reply `ESC ] 11 ; rgb:` + the colour's text + ESC + any byte yields that colour. |
| Probe.TmuxEndToEnd | src/lib.rs:181-237 | Inside tmux, the tmux query is written, and a reply `ESC ] 11 ; rgb:` + the colour's text + BEL yields that colour. |
| Probe.ThemeBoundary | src/lib.rs:161-168 | Black is dark and white is light. Grey 0x8000 is dark, because the comparison is strict. Grey 0x8001 is light. |
| Probe.ThemeMonotone | src/lib.rs:161-168 | Brightening any channel never turns a light background dark. |

## Left out

- Raw mode (`enable_raw_mode` and `disable_raw_mode`), the write to standard error, the tokio runtime and the stdin wrapper are I/O. The `Io` error they can raise is never produced. Two effects of that code are not modelled:
  - The early `?` returns after raw mode is enabled (src/lib.rs:191-194 and 298-303) leave raw mode on.
  - An error from the read loop reaches the caller only after `disable_raw_mode` has run (src/lib.rs:230-233 and 324-326).
- Time is left out. A reply is the finite sequence of bytes that arrives before the terminal goes quiet, and reaching its end is the `Timeout`. The per-byte timeout duration is not modelled, and neither is the difference between a per-byte and an overall deadline.
- `read_exact`'s own error is ignored by the code, which then looks at the previous byte again. A read error is not modelled; a stream that ends reads as a timeout.
- The `debug_assert_eq!` on the byte after ESC is not modelled. Any byte is consumed (`Scanner.StEndsReply`).
- `String::from_utf8_lossy`: the payload is read one character per byte. The two agree on every payload that decodes. On a non-ASCII payload they differ only in the text carried by the parse error.
- `is_terminal` on the three standard streams is the boolean `Host.interactive`.
- `env::var` failing on a value that is not Unicode is not modelled. The environment maps names to strings.
- `GetStdHandle` and `GetConsoleScreenBufferInfo` are outside the model. The attribute word is an input.
- X11.DecodeHex: rejects a component longer than four characters, which the code as written does not. Such a component panics on a debug build and decodes to a wrapped shift on a release build; that behaviour is `X11.DecodeHexAsWritten`, and the rest of the model uses `X11.DecodeHex`.
- Probe.ThemeOf: compares exactly in integers (299 R + 587 G + 114 B > 32768000) where the code computes in `f64`. Rounding right at the boundary is not modelled.
- Probe.XtermLatency: the `Duration` is the clock reading passed in as a natural number.
- The command-line demo `src/bin/termbg.rs` is not part of this model.

## Findings

| source | as written | input that shows it | evidently intended | confidence | as-written member | corrected member |
|---|---|---|---|---|---|---|
| src/lib.rs:333-335 | `(4 - len) * 4` is computed in `u32` with no length check. A component longer than four characters underflows: a debug build panics, and a release build wraps and shifts by the amount masked to four bits. | `rgb:00001/0/0`, whose first component `00001` fits in a `u16` | A component longer than four hex digits is a parse error | not executed | X11.DecodeHexAsWritten, X11.OverlongComponentCounterexample | X11.DecodeHex |
