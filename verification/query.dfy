/**
 The request bytes written to the terminal: the xterm OSC 11 background
 colour query, wrapped for tmux or GNU screen, and the ECMA-48 device status
 report request used as a latency probe.
 */
module Query {
  import opened Types

  /** ESC \ : the String Terminator. */
  const ST: seq<byte> := [ESC, BACKSLASH]

  /** OSC 11 ; ? : "report the background colour", closed by `terminator`. */
  function BackgroundQuery(terminator: seq<byte>): seq<byte> {
    [ESC, ']' as byte, '1' as byte, '1' as byte, ';' as byte, '?' as byte] + terminator
  }

  /** tmux's DCS passthrough: ESC P tmux; then the inner sequence with its
      ESC doubled (the inner query holds a single, leading ESC), then ST. */
  function TmuxPassthrough(inner: seq<byte>): seq<byte> {
    [ESC, 'P' as byte, 't' as byte, 'm' as byte, 'u' as byte, 'x' as byte, ';' as byte, ESC]
      + inner + ST
  }

  /** GNU screen's DCS passthrough: ESC P, the inner sequence, ST. */
  function ScreenPassthrough(inner: seq<byte>): seq<byte> {
    [ESC, 'P' as byte] + inner + ST
  }

  /** The background colour query written for each family. Inside a
      multiplexer the BEL-terminated query travels in a passthrough and is
      followed by a trailing ETX byte. */
  function ColorQuery(term: Terminal): seq<byte> {
    match term
    case Tmux => TmuxPassthrough(BackgroundQuery([BEL])) + [ETX]
    case Screen => ScreenPassthrough(BackgroundQuery([BEL])) + [ETX]
    case _ => BackgroundQuery(ST)
  }

  /** The bytes on the wire, family by family. The tmux, screen and plain
      queries differ from one another; every other family sends the plain
      one. */
  lemma ColorQueryBytes()
    ensures ColorQuery(Tmux) == [0x1b, 'P' as byte, 't' as byte, 'm' as byte, 'u' as byte,
      'x' as byte, ';' as byte, 0x1b, 0x1b, ']' as byte, '1' as byte, '1' as byte, ';' as byte,
      '?' as byte, 0x07, 0x1b, '\\' as byte, 0x03]
    ensures ColorQuery(Screen) == [0x1b, 'P' as byte, 0x1b, ']' as byte, '1' as byte,
      '1' as byte, ';' as byte, '?' as byte, 0x07, 0x1b, '\\' as byte, 0x03]
    ensures forall term :: term !in {Tmux, Screen} ==> ColorQuery(term) == [0x1b, ']' as byte,
      '1' as byte, '1' as byte, ';' as byte, '?' as byte, 0x1b, '\\' as byte]
    ensures forall t, u :: ColorQuery(t) == ColorQuery(u) ==> t == u || (t !in {Tmux, Screen} && u !in {Tmux, Screen})
  {
  }

  /** CSI 5 n: the device status report request. */
  const LatencyQuery: seq<byte> := [ESC, '[' as byte, '5' as byte, 'n' as byte]
}
