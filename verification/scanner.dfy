/**
 The two response readers, lifted out of their asynchronous read loops. Each
 sees the finite sequence of bytes the terminal sends before the input goes
 quiet; reaching its end before the reply is complete is the model of a read
 timing out (or failing).
 */
module Scanner {
  import opened Types

  /** What a read loop ended with: the payload it kept and how many bytes it
      took from the input, or running out of input first. */
  datatype Scan = Complete(payload: seq<byte>, consumed: nat) | Exhausted {

    /** The same outcome seen from `n` bytes earlier in the stream. */
    function After(n: nat): Scan {
      match this
      case Complete(p, k) => Complete(p, k + n)
      case Exhausted => Exhausted
    }
  }

  /** The first index at or after `from` holding `b`, or `|s|` if none does. */
  function IndexOf(s: seq<byte>, b: byte, from: nat): (k: nat)
    requires from <= |s|
    ensures from <= k <= |s|
    ensures k < |s| ==> s[k] == b
    ensures forall j :: from <= j < k ==> s[j] != b
    decreases |s| - from
  {
    if from == |s| then |s| else if s[from] == b then from else IndexOf(s, b, from + 1)
  }

  /** The bytes that end a colour reply once its payload has started. */
  predicate IsTerminator(b: byte) {
    b == BEL || b == ESC
  }

  /** The first index at or after `from` holding BEL or ESC, or `|s|`. */
  function IndexOfTerminator(s: seq<byte>, from: nat): (k: nat)
    requires from <= |s|
    ensures from <= k <= |s|
    ensures k < |s| ==> IsTerminator(s[k])
    ensures forall j :: from <= j < k ==> !IsTerminator(s[j])
    decreases |s| - from
  {
    if from == |s| then |s| else if IsTerminator(s[from]) then from else IndexOfTerminator(s, from + 1)
  }

  /** `IndexOf` is pinned down by its contract: the first matching index. */
  lemma IndexOfIs(s: seq<byte>, b: byte, from: nat, k: nat)
    requires from <= k <= |s|
    requires k < |s| ==> s[k] == b
    requires forall j :: from <= j < k ==> s[j] != b
    ensures IndexOf(s, b, from) == k
  {
  }

  /** `IndexOfTerminator` is pinned down by its contract likewise. */
  lemma IndexOfTerminatorIs(s: seq<byte>, from: nat, k: nat)
    requires from <= k <= |s|
    requires k < |s| ==> IsTerminator(s[k])
    requires forall j :: from <= j < k ==> !IsTerminator(s[j])
    ensures IndexOfTerminator(s, from) == k
  {
  }

  /** The colour reply, read off the input: everything up to and including
      the first `:` is header; the payload runs from there to the first BEL
      or ESC; BEL ends the reply, ESC ends it after one more byte. */
  function ColorReply(input: seq<byte>): (r: Scan)
    ensures r.Complete? ==> r.consumed <= |input|
    ensures r.Complete? ==> BEL !in r.payload && ESC !in r.payload
    ensures r.Complete? ==> |r.payload| + 2 <= r.consumed
    ensures r.Complete? ==>
      input[r.consumed - 1] == BEL || input[r.consumed - 2] == ESC
  {
    var c := IndexOf(input, COLON, 0);
    if c == |input| then Exhausted
    else Framed(input, c, IndexOfTerminator(input, c + 1))
  }

  /** The reply once its `:` is at `c` and its first terminator at `t`. */
  function Framed(input: seq<byte>, c: nat, t: nat): Scan
    requires c < t <= |input|
  {
    if t == |input| then Exhausted
    else if input[t] == BEL then Complete(input[c + 1..t], t + 1)
    else if t + 1 < |input| then Complete(input[c + 1..t], t + 2)
    else Exhausted
  }

  /** The read loop of the colour probe, byte by byte as the library runs
      it, computes exactly `ColorReply`. */
  method ReadColorReply(input: seq<byte>) returns (r: Scan)
    ensures r == ColorReply(input)
  {
    var buffer: seq<byte> := [];
    var start := false;
    var i := 0;
    ghost var c := IndexOf(input, COLON, 0);
    while true
      invariant 0 <= i <= |input|
      invariant start <==> c < i
      invariant !start ==> buffer == []
      invariant start ==> buffer == input[c + 1..i] && IndexOfTerminator(input, c + 1) >= i
      decreases |input| - i
    {
      if i == |input| {
        return Exhausted;
      }
      var b := input[i];
      i := i + 1;
      if start && b == BEL {
        return Complete(buffer, i);
      }
      if start && b == ESC {
        // the second byte of the String Terminator is consumed unchecked
        if i == |input| {
          return Exhausted;
        }
        i := i + 1;
        return Complete(buffer, i);
      }
      if start {
        buffer := buffer + [b];
      }
      if b == COLON {
        start := true;
      }
    }
  }

  /** The latency reply: everything up to the first `n`, nothing kept. */
  function LatencyReply(input: seq<byte>): (r: Scan)
    ensures r.Complete? <==> LOWER_N in input
    ensures r.Complete? ==> r.payload == [] && 1 <= r.consumed <= |input|
    ensures r.Complete? ==> input[r.consumed - 1] == LOWER_N && LOWER_N !in input[..r.consumed - 1]
  {
    var k := IndexOf(input, LOWER_N, 0);
    if k == |input| then Exhausted else Complete([], k + 1)
  }

  /** The read loop of the latency probe computes exactly `LatencyReply`. */
  method ReadLatencyReply(input: seq<byte>) returns (r: Scan)
    ensures r == LatencyReply(input)
  {
    var i := 0;
    while true
      invariant 0 <= i <= |input|
      invariant LOWER_N !in input[..i]
      decreases |input| - i
    {
      if i == |input| {
        return Exhausted;
      }
      var b := input[i];
      i := i + 1;
      if b == LOWER_N {
        return Complete([], i);
      }
    }
  }

  /** Bytes before the first `:` are header whatever they are; in particular
      a BEL or ESC there does not end the reply. */
  lemma HeaderSkipped(header: seq<byte>, s: seq<byte>)
    requires COLON !in header
    ensures ColorReply(header + s) == ColorReply(s).After(|header|)
  {
    var c := IndexOf(s, COLON, 0);
    ColonShift(header, s);
    if c < |s| {
      TerminatorShift(header, s, c + 1);
      FramedShift(header, s, c, IndexOfTerminator(s, c + 1));
    }
  }

  /** Framing does not depend on what precedes the `:`. */
  lemma FramedShift(header: seq<byte>, s: seq<byte>, c: nat, t: nat)
    requires c < t <= |s|
    ensures Framed(header + s, |header| + c, |header| + t) == Framed(s, c, t).After(|header|)
  {
    var h := |header|;
    if t < |s| {
      assert (header + s)[h + t] == s[t];
      assert (header + s)[h + c + 1..h + t] == s[c + 1..t];
    }
  }

  lemma ColonShift(header: seq<byte>, s: seq<byte>)
    requires COLON !in header
    ensures IndexOf(header + s, COLON, 0) == |header| + IndexOf(s, COLON, 0)
  {
    var input := header + s;
    var c := IndexOf(s, COLON, 0);
    assert forall j :: 0 <= j < |header| ==> input[j] != COLON;
    assert forall j :: |header| <= j < |header| + c ==> input[j] == s[j - |header|];
    IndexOfIs(input, COLON, 0, |header| + c);
  }

  lemma TerminatorShift(header: seq<byte>, s: seq<byte>, from: nat)
    requires from <= |s|
    ensures IndexOfTerminator(header + s, |header| + from) == |header| + IndexOfTerminator(s, from)
  {
    var t := IndexOfTerminator(s, from);
    var input := header + s;
    assert forall j :: |header| + from <= j < |header| + t ==> input[j] == s[j - |header|];
    IndexOfTerminatorIs(input, |header| + from, |header| + t);
  }

  /** After the first `:` every byte but BEL and ESC is kept, in order (later
      `:` bytes included); a BEL ends the reply and is not kept. */
  lemma BelEndsReply(body: seq<byte>, rest: seq<byte>)
    requires forall i :: 0 <= i < |body| ==> !IsTerminator(body[i])
    ensures ColorReply([COLON] + body + [BEL] + rest) == Complete(body, |body| + 2)
  {
    var input := [COLON] + body + [BEL] + rest;
    assert IndexOf(input, COLON, 0) == 0;
    assert forall j :: 1 <= j < |body| + 1 ==> input[j] == body[j - 1];
    IndexOfTerminatorIs(input, 1, |body| + 1);
    assert input[1..|body| + 1] == body;
  }

  /** An ESC ends the reply after exactly one further byte, whatever it is;
      neither byte is kept. */
  lemma StEndsReply(body: seq<byte>, x: byte, rest: seq<byte>)
    requires forall i :: 0 <= i < |body| ==> !IsTerminator(body[i])
    ensures ColorReply([COLON] + body + [ESC, x] + rest) == Complete(body, |body| + 3)
  {
    var input := [COLON] + body + [ESC, x] + rest;
    assert IndexOf(input, COLON, 0) == 0;
    assert forall j :: 1 <= j < |body| + 1 ==> input[j] == body[j - 1];
    IndexOfTerminatorIs(input, 1, |body| + 1);
    assert input[1..|body| + 1] == body;
  }

  /** An ESC that is the last byte before the input goes quiet leaves the
      reader waiting for the byte after it: the read times out. */
  lemma DanglingEscTimesOut(body: seq<byte>)
    requires forall i :: 0 <= i < |body| ==> !IsTerminator(body[i])
    ensures ColorReply([COLON] + body + [ESC]) == Exhausted
  {
    var input := [COLON] + body + [ESC];
    assert IndexOf(input, COLON, 0) == 0;
    assert forall j :: 1 <= j < |body| + 1 ==> input[j] == body[j - 1];
    IndexOfTerminatorIs(input, 1, |body| + 1);
  }

  /** A `:` followed only by bytes that are neither BEL nor ESC leaves the
      reader waiting for a terminator: the read times out. */
  lemma UnterminatedReplyTimesOut(header: seq<byte>, body: seq<byte>)
    requires COLON !in header
    requires forall i :: 0 <= i < |body| ==> !IsTerminator(body[i])
    ensures ColorReply(header + [COLON] + body) == Exhausted
  {
    var input := [COLON] + body;
    assert header + [COLON] + body == header + input;
    HeaderSkipped(header, input);
    assert IndexOf(input, COLON, 0) == 0;
    assert forall j :: 1 <= j < |body| + 1 ==> input[j] == body[j - 1];
    IndexOfTerminatorIs(input, 1, |body| + 1);
  }

  /** The colour reader never looks past the bytes it consumes: whatever
      follows a complete reply leaves the outcome unchanged. */
  lemma ColorReplyReadsNoFurther(input: seq<byte>, rest: seq<byte>)
    requires ColorReply(input).Complete?
    ensures ColorReply(input[..ColorReply(input).consumed] + rest) == ColorReply(input)
  {
    var r := ColorReply(input);
    var s := input[..r.consumed] + rest;
    var c := IndexOf(input, COLON, 0);
    var t := IndexOfTerminator(input, c + 1);
    assert r == Framed(input, c, t);
    assert t < r.consumed;
    assert forall j :: 0 <= j < r.consumed ==> s[j] == input[j];
    IndexOfIs(s, COLON, 0, c);
    IndexOfTerminatorIs(s, c + 1, t);
    assert s[c + 1..t] == input[c + 1..t];
    assert s[t] == input[t];
    assert Framed(s, c, t) == r;
  }

  /** The latency reader never looks past the `n` that completes it. */
  lemma LatencyReplyReadsNoFurther(input: seq<byte>, rest: seq<byte>)
    requires LatencyReply(input).Complete?
    ensures LatencyReply(input[..LatencyReply(input).consumed] + rest) == LatencyReply(input)
  {
    var k := LatencyReply(input).consumed;
    var s := input[..k] + rest;
    assert s[..k - 1] == input[..k - 1];
    assert s[k - 1] == LOWER_N;
  }
}
