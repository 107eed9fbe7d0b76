/**
 The public operations: the background colour (`rgb`), the round-trip
 latency (`latency`) and the light/dark theme (`theme`). Each call detects
 the terminal family afresh and chooses between asking the terminal, asking
 the Windows console, and answering without asking; the colour falls back on
 `COLORFGBG`. Everything these calls read from outside is in `Host`.
 */
module Probe {
  import opened Types
  import opened Detect
  import opened Query
  import opened Scanner
  import opened X11
  import opened ColorFgBg
  import opened Console

  /** What one call reads from its surroundings. `interactive` says that
      standard input, output and error are all terminals. `reply` is what the
      terminal sends after the query, up to the first read that times out or
      fails. `consoleAttributes` is the Windows console's attribute word. */
  datatype Host = Host(
    windows: bool,
    env: map<string, string>,
    interactive: bool,
    reply: seq<byte>,
    consoleAttributes: bv16)

  function Family(host: Host): Terminal {
    DetectTerminal(host.env, host.windows)
  }

  /** `from_xterm`: refuse when not attached to a terminal; otherwise write
      the family's query and decode the reply, one character per byte. A
      reply that never completes is a timeout. */
  function FromXterm(term: Terminal, host: Host): (p: Probe<Rgb>)
    ensures !host.interactive ==> p == Probe([], Err(Unsupported))
    ensures host.interactive ==> p.sent == ColorQuery(term)
    ensures host.interactive && ColorReply(host.reply).Exhausted? ==> p.result == Err(Timeout)
    ensures host.interactive && ColorReply(host.reply).Complete? ==>
      p.result == DecodeX11Color(Chars(ColorReply(host.reply).payload))
    ensures p.result.Err? ==> p.result.error in {Unsupported, Timeout} || p.result.error.Parse?
  {
    if !host.interactive then Probe([], Err(Unsupported))
    else
      match ColorReply(host.reply)
      case Exhausted => Probe(ColorQuery(term), Err(Timeout))
      case Complete(payload, _) => Probe(ColorQuery(term), DecodeX11Color(Chars(payload)))
  }

  /** `xterm_latency`: write the status request (with no terminal check) and
      wait for the `n` that ends the report; the duration is the clock
      reading `elapsed`. */
  function XtermLatency(host: Host, elapsed: nat): (p: Probe<nat>)
    ensures p.sent == LatencyQuery
    ensures p.result.Ok? <==> LOWER_N in host.reply
    ensures p.result.Ok? ==> p.result.value == elapsed
    ensures p.result.Err? ==> p.result.error == Timeout
  {
    match LatencyReply(host.reply)
    case Exhausted => Probe(LatencyQuery, Err(Timeout))
    case Complete(_, _) => Probe(LatencyQuery, Ok(elapsed))
  }

  /** The selection at the end of `rgb`: the primary answer if it succeeded,
      else the fallback if that succeeded, else the primary's error. */
  function PreferPrimary<T>(primary: Result<T>, fallback: Result<T>): (r: Result<T>)
    ensures r.Ok? <==> primary.Ok? || fallback.Ok?
    ensures primary.Ok? ==> r == primary
    ensures r.Ok? ==> r == primary || r == fallback
    ensures r.Err? ==> r == primary
  {
    if primary.Ok? then primary else if fallback.Ok? then fallback else primary
  }

  /** The per-family source of the colour: Emacs never answers; elsewhere
      the terminal is asked, except that the Windows build asks the console
      for every family but the xterm-compatible one. */
  function PrimaryColor(term: Terminal, host: Host): (p: Probe<Rgb>)
    ensures term == Emacs ==> p == Probe([], Err(Unsupported))
    ensures host.windows && term != Emacs && term != XtermCompatible ==>
      p == Probe([], Ok(FromWinapi(host.consoleAttributes)))
    ensures term != Emacs && (host.windows ==> term == XtermCompatible) ==> p == FromXterm(term, host)
    ensures p.sent == [] || p.sent == ColorQuery(term)
  {
    if !host.windows then
      match term
      case Emacs => Probe([], Err(Unsupported))
      case _ => FromXterm(term, host)
    else
      match term
      case Emacs => Probe([], Err(Unsupported))
      case XtermCompatible => FromXterm(term, host)
      case _ => Probe([], Ok(FromWinapi(host.consoleAttributes)))
  }

  /** `rgb`: the detected family's answer, falling back on `COLORFGBG`. */
  function BackgroundColor(host: Host): (p: Probe<Rgb>)
    ensures p.sent == [] || p.sent == ColorQuery(Family(host))
    ensures !host.interactive ==> p.sent == []
    ensures p.result.Ok? <==>
      PrimaryColor(Family(host), host).result.Ok? || FromEnvColorFgBg(host.env).Ok?
    ensures p.result.Err? ==> p.result == PrimaryColor(Family(host), host).result
    ensures PrimaryColor(Family(host), host).result.Ok? ==> p.result == PrimaryColor(Family(host), host).result
    ensures !PrimaryColor(Family(host), host).result.Ok? && FromEnvColorFgBg(host.env).Ok? ==>
      p.result == FromEnvColorFgBg(host.env)
  {
    var primary := PrimaryColor(Family(host), host);
    Probe(primary.sent, PreferPrimary(primary.result, FromEnvColorFgBg(host.env)))
  }

  /** `latency`: Emacs, and on Windows every family but the xterm-compatible
      one, report zero without asking. */
  function Latency(host: Host, elapsed: nat): (p: Probe<nat>)
    ensures p.sent == [] || p.sent == LatencyQuery
    ensures p.sent == [] ==> p.result == Ok(0)
    ensures p.result.Err? ==> p.result.error == Timeout && LOWER_N !in host.reply
  {
    var term := Family(host);
    if term == Emacs then Probe([], Ok(0))
    else if !host.windows || term == XtermCompatible then XtermLatency(host, elapsed)
    else Probe([], Ok(0))
  }

  /** Light when the ITU-R BT.601 luma 0.299 R + 0.587 G + 0.114 B exceeds
      half the 16-bit scale; the comparison is done exactly, in integers. */
  function ThemeOf(c: Rgb): (t: Theme)
    ensures t == Light <==> 0.299 * c.r as real + 0.587 * c.g as real + 0.114 * c.b as real > 32768.0
  {
    if 299 * c.r + 587 * c.g + 114 * c.b > 32768000 then Light else Dark
  }

  /** `theme`: the background colour's theme, or the colour's error. */
  function BackgroundTheme(host: Host): (r: Result<Theme>)
    ensures r.Ok? <==> BackgroundColor(host).result.Ok?
    ensures r.Ok? ==> r.value == ThemeOf(BackgroundColor(host).result.value)
    ensures r.Err? ==> r.error == BackgroundColor(host).result.error
  {
    var c :- BackgroundColor(host).result;
    Ok(ThemeOf(c))
  }

  // ---------------------------------------------------------------------
  // Properties of the whole call.

  /** Inside Emacs nothing is written to the terminal: the colour is the
      `COLORFGBG` one if that works, else `Unsupported`, and the latency is
      zero. */
  lemma EmacsNeverQueries(host: Host, elapsed: nat)
    requires Family(host) == Emacs
    ensures BackgroundColor(host) ==
      Probe([], if FromEnvColorFgBg(host.env).Ok? then FromEnvColorFgBg(host.env) else Err(Unsupported))
    ensures Latency(host, elapsed) == Probe([], Ok(0))
  {
  }

  /** In the Windows console the colour comes from the console palette (the
      fallback is never needed) and the latency is zero. */
  lemma WindowsConsoleAnswers(host: Host, elapsed: nat)
    requires host.windows && Family(host) == Windows
    ensures BackgroundColor(host) == Probe([], Ok(FromWinapi(host.consoleAttributes)))
    ensures Latency(host, elapsed) == Probe([], Ok(0))
  {
  }

  /** A family that is asked times out, absent the fallback, exactly when
      the terminal never completes its reply. */
  lemma SilentTerminalTimesOut(host: Host)
    requires host.interactive && ColorReply(host.reply).Exhausted?
    requires Family(host) != Emacs && (host.windows ==> Family(host) == XtermCompatible)
    ensures BackgroundColor(host).sent == ColorQuery(Family(host))
    ensures BackgroundColor(host).result ==
      if FromEnvColorFgBg(host.env).Ok? then FromEnvColorFgBg(host.env) else Err(Timeout)
  {
  }

  /** Every family that is asked, and only those, goes through `from_xterm`:
      every family but Emacs off Windows, and the xterm-compatible one on
      Windows. */
  lemma ColorProbe(host: Host)
    requires Family(host) != Emacs && (host.windows ==> Family(host) == XtermCompatible)
    ensures PrimaryColor(Family(host), host) == FromXterm(Family(host), host)
    ensures BackgroundColor(host).sent == FromXterm(Family(host), host).sent
  {
  }

  /** The latency probe is sent whenever the family is probed, attached to
      a terminal or not, and it succeeds exactly when an `n` arrives. */
  lemma LatencyProbe(host: Host, elapsed: nat)
    requires Family(host) != Emacs && (host.windows ==> Family(host) == XtermCompatible)
    ensures Latency(host, elapsed).sent == LatencyQuery
    ensures Latency(host, elapsed).result == if LOWER_N in host.reply then Ok(elapsed) else Err(Timeout)
  {
  }

  /** Whatever the header before the first `:` and whatever follows the BEL,
      a BEL-terminated reply carrying the text `t` is decoded as `t`. */
  lemma ReplyTextIsDecoded(term: Terminal, host: Host, header: seq<byte>, t: string, rest: seq<byte>)
    requires host.interactive && COLON !in header
    requires forall i :: 0 <= i < |t| ==> 0x20 <= t[i] as int < 0x7f
    requires host.reply == header + [COLON] + Bytes(t) + [BEL] + rest
    ensures FromXterm(term, host) == Probe(ColorQuery(term), DecodeX11Color(t))
  {
    var body := Bytes(t);
    assert host.reply == header + (([COLON] + body + [BEL]) + rest);
    HeaderSkipped(header, ([COLON] + body + [BEL]) + rest);
    BelEndsReply(body, rest);
    CharsOfBytes(t);
  }

  /** The same for a reply ended by the String Terminator, ESC and one more
      byte, as xterm answers a query that ended with one. */
  lemma StReplyTextIsDecoded(term: Terminal, host: Host, header: seq<byte>, t: string, x: byte, rest: seq<byte>)
    requires host.interactive && COLON !in header
    requires forall i :: 0 <= i < |t| ==> 0x20 <= t[i] as int < 0x7f
    requires host.reply == header + [COLON] + Bytes(t) + [ESC, x] + rest
    ensures FromXterm(term, host) == Probe(ColorQuery(term), DecodeX11Color(t))
  {
    var body := Bytes(t);
    assert host.reply == header + (([COLON] + body + [ESC, x]) + rest);
    HeaderSkipped(header, ([COLON] + body + [ESC, x]) + rest);
    StEndsReply(body, x, rest);
    CharsOfBytes(t);
  }

  /** A `:` with no BEL or ESC after it before the terminal goes quiet is a
      timeout. */
  lemma UnterminatedReplyIsTimeout(term: Terminal, host: Host, header: seq<byte>, body: seq<byte>)
    requires host.interactive && COLON !in header
    requires forall i :: 0 <= i < |body| ==> !IsTerminator(body[i])
    requires host.reply == header + [COLON] + body
    ensures FromXterm(term, host) == Probe(ColorQuery(term), Err(Timeout))
  {
    UnterminatedReplyTimesOut(header, body);
  }

  /** The start of a colour reply up to its `:`: ESC ] 11 ; rgb */
  const ReplyHeader: seq<byte> :=
    [ESC, ']' as byte, '1' as byte, '1' as byte, ';' as byte, 'r' as byte, 'g' as byte, 'b' as byte]

  /** End to end inside tmux: the tmux-wrapped query is written, and a reply `ESC ] 11 ; rgb:rrrr/gggg/bbbb BEL` carrying
      the text of colour `c` yields `c`. */
  lemma TmuxEndToEnd(host: Host, c: Rgb, text: string, rest: seq<byte>)
    requires !host.windows && host.interactive
    requires INSIDE_EMACS !in host.env && TMUX in host.env
    requires text == FormatX11(c, 4)
    requires host.reply == ReplyHeader + [COLON] + Bytes(text) + [BEL] + rest
    ensures BackgroundColor(host) == Probe(ColorQuery(Tmux), Ok(c))
  {
    TmuxPrimary(host, c, text, rest);
  }

  // The end-to-end lemmas are split into the steps below (the primary
  // answer, then the decoded reply) so that each proof stays small.
  lemma TmuxPrimary(host: Host, c: Rgb, text: string, rest: seq<byte>)
    requires !host.windows && host.interactive
    requires INSIDE_EMACS !in host.env && TMUX in host.env
    requires text == FormatX11(c, 4)
    requires host.reply == ReplyHeader + [COLON] + Bytes(text) + [BEL] + rest
    ensures PrimaryColor(Family(host), host) == Probe(ColorQuery(Tmux), Ok(c))
  {
    UnixPrecedence(host.env);
    TmuxReplyDecoded(host, c, text, rest);
  }

  /** Inside tmux, a reply carrying the text of colour `c` is read back as
      `c`. */
  lemma TmuxReplyDecoded(host: Host, c: Rgb, text: string, rest: seq<byte>)
    requires host.interactive
    requires text == FormatX11(c, 4)
    requires host.reply == ReplyHeader + [COLON] + Bytes(text) + [BEL] + rest
    ensures FromXterm(Tmux, host) == Probe(ColorQuery(Tmux), Ok(c))
  {
    X11ExactRoundTrip(c);
    assert DecodeX11Color(text) == Ok(c);
    HeaderedReplyDecoded(Tmux, host, text, rest);
  }

  lemma HeaderedReplyDecoded(term: Terminal, host: Host, t: string, rest: seq<byte>)
    requires host.interactive
    requires forall i :: 0 <= i < |t| ==> '/' <= t[i] <= 'z'
    requires host.reply == ReplyHeader + [COLON] + Bytes(t) + [BEL] + rest
    ensures FromXterm(term, host) == Probe(ColorQuery(term), DecodeX11Color(t))
  {
    assert COLON !in ReplyHeader;
    ReplyTextIsDecoded(term, host, ReplyHeader, t, rest);
  }

  /** End to end for an xterm-compatible terminal: the ST-terminated query is
      written, and a reply `ESC ] 11 ; rgb:rrrr/gggg/bbbb ESC \` carrying the
      text of colour `c` yields `c`. */
  lemma XtermEndToEnd(host: Host, c: Rgb, text: string, x: byte, rest: seq<byte>)
    requires host.interactive && Family(host) == XtermCompatible
    requires text == FormatX11(c, 4)
    requires host.reply == ReplyHeader + [COLON] + Bytes(text) + [ESC, x] + rest
    ensures BackgroundColor(host) == Probe(ColorQuery(XtermCompatible), Ok(c))
  {
    XtermPrimary(host, c, text, x, rest);
  }

  lemma XtermPrimary(host: Host, c: Rgb, text: string, x: byte, rest: seq<byte>)
    requires host.interactive && Family(host) == XtermCompatible
    requires text == FormatX11(c, 4)
    requires host.reply == ReplyHeader + [COLON] + Bytes(text) + [ESC, x] + rest
    ensures PrimaryColor(Family(host), host) == Probe(ColorQuery(XtermCompatible), Ok(c))
  {
    XtermReplyDecoded(host, c, text, x, rest);
  }

  lemma XtermReplyDecoded(host: Host, c: Rgb, text: string, x: byte, rest: seq<byte>)
    requires host.interactive
    requires text == FormatX11(c, 4)
    requires host.reply == ReplyHeader + [COLON] + Bytes(text) + [ESC, x] + rest
    ensures FromXterm(XtermCompatible, host) == Probe(ColorQuery(XtermCompatible), Ok(c))
  {
    X11ExactRoundTrip(c);
    assert DecodeX11Color(text) == Ok(c);
    StHeaderedReplyDecoded(XtermCompatible, host, text, x, rest);
  }

  lemma StHeaderedReplyDecoded(term: Terminal, host: Host, t: string, x: byte, rest: seq<byte>)
    requires host.interactive
    requires forall i :: 0 <= i < |t| ==> '/' <= t[i] <= 'z'
    requires host.reply == ReplyHeader + [COLON] + Bytes(t) + [ESC, x] + rest
    ensures FromXterm(term, host) == Probe(ColorQuery(term), DecodeX11Color(t))
  {
    assert COLON !in ReplyHeader;
    StReplyTextIsDecoded(term, host, ReplyHeader, t, x, rest);
  }

  /** Theme: black is dark, white is light, a luma of exactly 32768 is dark
      (the comparison is strict), and brightening any channel never turns a
      light background dark. */
  lemma ThemeBoundary()
    ensures ThemeOf(Rgb(0, 0, 0)) == Dark
    ensures ThemeOf(Rgb(0xFFFF, 0xFFFF, 0xFFFF)) == Light
    ensures ThemeOf(Rgb(0x8000, 0x8000, 0x8000)) == Dark
    ensures ThemeOf(Rgb(0x8001, 0x8001, 0x8001)) == Light
  {
  }

  lemma ThemeMonotone(c: Rgb, d: Rgb)
    requires c.r <= d.r && c.g <= d.g && c.b <= d.b
    ensures ThemeOf(c) == Light ==> ThemeOf(d) == Light
  {
  }
}
