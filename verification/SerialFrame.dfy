/** Frames of the Canon serial line: payloads between marks, with the marks escaped inside. */
module SerialFrame {
  import opened Wrappers

  const FBEG: bv8 := 0xc0
  const FEND: bv8 := 0xc1
  const ESC: bv8 := 0x7e
  const XOR: bv8 := 0x20

  const SEND_BUFFER: nat := 2100
  const RECEIVE_BUFFER: nat := 5000

  type Bytes = seq<bv8>

  /** What the line delivers, read by read: a byte, or nothing in time. */
  type Line = seq<Option<bv8>>

  function Flip(b: bv8): bv8 {
    b ^ XOR
  }

  predicate Special(b: bv8) {
    b == FBEG || b == FEND || b == ESC
  }

  function StuffByte(b: bv8): Bytes {
    if Special(b) then [ESC, Flip(b)] else [b]
  }

  function Stuff(payload: Bytes): (s: Bytes)
    ensures |payload| <= |s| <= 2 * |payload|
  {
    if payload == [] then [] else Stuff(payload[..|payload| - 1]) + StuffByte(payload[|payload| - 1])
  }

  function Frame(payload: Bytes): Bytes {
    [FBEG] + Stuff(payload) + [FEND]
  }

  lemma FlipTwice(b: bv8)
    ensures Flip(Flip(b)) == b
  {
  }

  lemma FlippedIsPlain(b: bv8)
    requires Special(b)
    ensures !Special(Flip(b))
  {
  }

  lemma {:induction false} StuffInPieces(a: Bytes, b: Bytes)
    ensures Stuff(a + b) == Stuff(a) + Stuff(b)
  {
    hide StuffByte;
    if b == [] {
      assert a + b == a;
    } else {
      StuffInPieces(a, b[..|b| - 1]);
      assert (a + b)[..|a + b| - 1] == a + b[..|b| - 1];
    }
  }

  /** The marks do not occur inside a frame. */
  lemma {:induction false} NoMarksInside(payload: Bytes)
    ensures FBEG !in Stuff(payload) && FEND !in Stuff(payload)
  {
    hide Flip;
    if payload != [] {
      var b := payload[|payload| - 1];
      NoMarksInside(payload[..|payload| - 1]);
      if Special(b) {
        FlippedIsPlain(b);
      }
    }
  }

  // ----- Sending -----

  /** The send buffer has room for the stuffed payload and both marks. */
  predicate Fits(payload: Bytes) {
    |Stuff(payload)| + 2 <= SEND_BUFFER
  }

  /** The loop can end with a full buffer, and the closing mark lies outside it. */
  predicate Overruns(payload: Bytes) {
    payload != [] && |Stuff(payload)| == SEND_BUFFER - 1 && Special(payload[|payload| - 1])
  }

  lemma StuffNext(payload: Bytes, i: nat)
    requires i < |payload|
    ensures Stuff(payload[..i + 1]) == Stuff(payload[..i]) + StuffByte(payload[i])
    ensures |Stuff(payload[..i + 1])| <= |Stuff(payload)|
    ensures i + 1 < |payload| ==> |Stuff(payload[..i + 1])| < |Stuff(payload)|
  {
    hide StuffByte;
    assert payload[..i + 1][..i] == payload[..i];
    assert payload[..i + 1] + payload[i + 1..] == payload;
    StuffInPieces(payload[..i + 1], payload[i + 1..]);
  }

  /** What becomes of a payload. One whose last byte is escaped at the very end of the buffer leaves no place for the
      closing mark, which the source then writes behind the buffer. */
  datatype Sending = Sent(frame: Bytes) | TooLong | PastTheEnd

  /** Writes the frame of a payload into the buffer, or gives up near the end of the buffer. */
  method SendFrame(payload: Bytes) returns (outcome: Sending)
    ensures outcome == if Overruns(payload) then PastTheEnd else if Fits(payload) then Sent(Frame(payload)) else TooLong
  {
    hide Flip, Special, Stuff;
    var buffer := new bv8[SEND_BUFFER];
    buffer[0] := FBEG;
    var p := 1;
    assert Stuff([]) == [] && payload[..0] == [];
    for i := 0 to |payload|
      invariant p == 1 + |Stuff(payload[..i])| <= SEND_BUFFER
      invariant buffer[..p] == [FBEG] + Stuff(payload[..i])
      invariant p == SEND_BUFFER ==> i > 0 && Special(payload[i - 1])
    {
      StuffNext(payload, i);
      if p >= SEND_BUFFER - 1 {
        return TooLong;
      }
      ghost var written := buffer[..p];
      if !Special(payload[i]) {
        buffer[p] := payload[i];
        p := p + 1;
        assert buffer[..p] == written + [payload[i]];
      } else {
        buffer[p] := ESC;
        buffer[p + 1] := Flip(payload[i]);
        p := p + 2;
        assert buffer[..p] == written + [ESC, Flip(payload[i])];
      }
    }
    assert payload[..|payload|] == payload;
    if p == SEND_BUFFER {
      return PastTheEnd;
    }
    ghost var framed := buffer[..p];
    buffer[p] := FEND;
    assert buffer[..p + 1] == framed + [FEND];
    return Sent(buffer[..p + 1]);
  }

  /** Every packet the protocol allows fits. */
  lemma PacketsFit(payload: Bytes)
    requires |payload| <= 1022
    ensures Fits(payload) && !Overruns(payload)
  {
  }

  // ----- Receiving -----

  /** The read at `p`; behind the end of what the line delivers there is nothing. */
  function Read(line: Line, p: nat): Option<bv8> {
    if p < |line| then line[p] else None
  }

  /** A missing byte behind an escape is taken for -1. */
  function Unescaped(r: Option<bv8>): bv8 {
    match r
    case None => Flip(0xff)
    case Some(b) => Flip(b)
  }

  /** The payload from `p` up to the closing mark, behind `got`, and the position behind it. */
  function Receive(line: Line, p: nat, got: Bytes): (r: Option<(Bytes, nat)>)
    ensures r.Some? ==> p < r.value.1
    decreases |line| - p
  {
    match Read(line, p)
    case None => None
    case Some(c) =>
      if c == FEND then Some((got, p + 1))
      else if |got| >= RECEIVE_BUFFER then None
      else if c == ESC then Receive(line, p + 2, got + [Unescaped(Read(line, p + 1))])
      else Receive(line, p + 1, got + [c])
  }

  /** The position behind the next opening mark. */
  function Opening(line: Line, p: nat): (r: Option<nat>)
    ensures r.Some? ==> p < r.value
    decreases |line| - p
  {
    match Read(line, p)
    case None => None
    case Some(c) => if c == FBEG then Some(p + 1) else Opening(line, p + 1)
  }

  function ReceiveFrame(line: Line, p: nat): (r: Option<(Bytes, nat)>)
    ensures r.Some? ==> p < r.value.1
  {
    match Opening(line, p)
    case None => None
    case Some(q) => Receive(line, q, [])
  }

  /** The line delivers the bytes from `p` on. */
  predicate Delivers(line: Line, p: nat, bytes: Bytes) {
    p + |bytes| <= |line| && forall i :: 0 <= i < |bytes| ==> line[p + i] == Some(bytes[i])
  }

  lemma DeliversInPieces(line: Line, p: nat, a: Bytes, b: Bytes)
    requires Delivers(line, p, a + b)
    ensures Delivers(line, p, a) && Delivers(line, p + |a|, b)
  {
    assert forall i :: 0 <= i < |a| ==> (a + b)[i] == a[i];
    assert forall i :: 0 <= i < |b| ==> (a + b)[|a| + i] == b[i];
  }

  lemma StuffOfOne(b: bv8)
    ensures Stuff([b]) == StuffByte(b)
  {
    assert [b][..0] == [];
  }

  lemma {:induction false} ReceiveStuffed(line: Line, p: nat, got: Bytes, payload: Bytes)
    requires Delivers(line, p, Stuff(payload) + [FEND]) && |got| + |payload| <= RECEIVE_BUFFER
    ensures Receive(line, p, got) == Some((got + payload, p + |Stuff(payload)| + 1))
    decreases |payload|
  {
    hide Flip, Stuff;
    if payload == [] {
      assert Stuff([]) == [];
      assert line[p + 0] == Some(([] + [FEND])[0]);
      assert got + [] == got;
    } else {
      var b, rest := payload[0], payload[1..];
      assert [b] + rest == payload;
      StuffInPieces([b], rest);
      StuffOfOne(b);
      assert Stuff(payload) + [FEND] == StuffByte(b) + (Stuff(rest) + [FEND]);
      DeliversInPieces(line, p, StuffByte(b), Stuff(rest) + [FEND]);
      ReceiveByte(line, p, got, b);
      ReceiveStuffed(line, p + |StuffByte(b)|, got + [b], rest);
      assert got + [b] + rest == got + payload;
    }
  }

  lemma ReceiveByte(line: Line, p: nat, got: Bytes, b: bv8)
    requires Delivers(line, p, StuffByte(b)) && |got| < RECEIVE_BUFFER
    ensures Receive(line, p, got) == Receive(line, p + |StuffByte(b)|, got + [b])
  {
    hide Flip;
    assert line[p + 0] == Some(StuffByte(b)[0]);
    if Special(b) {
      assert line[p + 1] == Some(StuffByte(b)[1]);
      FlipTwice(b);
    }
  }

  /** Bytes outside frames. */
  predicate Noise(line: Line, p: nat, q: nat) {
    p <= q <= |line| && forall i :: p <= i < q ==> line[i].Some? && line[i].value != FBEG
  }

  lemma {:induction false} OpeningBehindNoise(line: Line, p: nat, q: nat)
    requires Noise(line, p, q) && Delivers(line, q, [FBEG])
    ensures Opening(line, p) == Some(q + 1)
    decreases q - p
  {
    if p < q {
      OpeningBehindNoise(line, p + 1, q);
    } else {
      assert line[q + 0] == Some([FBEG][0]);
    }
  }

  /** A frame behind noise is received as its payload. */
  lemma FrameRoundTrip(line: Line, p: nat, q: nat, payload: Bytes)
    requires Noise(line, p, q) && Delivers(line, q, Frame(payload)) && |payload| <= RECEIVE_BUFFER
    ensures ReceiveFrame(line, p) == Some((payload, q + |Frame(payload)|))
  {
    hide Stuff, Receive, Opening;
    assert Frame(payload) == [FBEG] + (Stuff(payload) + [FEND]);
    DeliversInPieces(line, q, [FBEG], Stuff(payload) + [FEND]);
    OpeningBehindNoise(line, p, q);
    ReceiveStuffed(line, q + 1, [], payload);
    assert [] + payload == payload;
  }

  /** The line delivers the frames of the payloads, with noise in front of each. */
  ghost predicate Carries(line: Line, p: nat, payloads: seq<Bytes>)
    decreases |payloads|
  {
    payloads == [] ||
    exists q: nat :: Noise(line, p, q) && Delivers(line, q, Frame(payloads[0])) && |payloads[0]| <= RECEIVE_BUFFER &&
                Carries(line, q + |Frame(payloads[0])|, payloads[1..])
  }

  /** What `n` calls receive, one after another. */
  function ReceiveFrames(line: Line, p: nat, n: nat): (r: Option<seq<Bytes>>)
    decreases n
  {
    if n == 0 then Some([])
    else
      match ReceiveFrame(line, p)
      case None => None
      case Some((payload, q)) =>
        match ReceiveFrames(line, q, n - 1)
        case None => None
        case Some(rest) => Some([payload] + rest)
  }

  lemma {:induction false} FramesRoundTrip(line: Line, p: nat, payloads: seq<Bytes>)
    requires Carries(line, p, payloads)
    ensures ReceiveFrames(line, p, |payloads|) == Some(payloads)
    decreases |payloads|
  {
    hide Frame, ReceiveFrame, Noise, Delivers;
    if payloads != [] {
      var q: nat :| Noise(line, p, q) && Delivers(line, q, Frame(payloads[0])) && |payloads[0]| <= RECEIVE_BUFFER &&
               Carries(line, q + |Frame(payloads[0])|, payloads[1..]);
      FrameRoundTrip(line, p, q, payloads[0]);
      FramesRoundTrip(line, q + |Frame(payloads[0])|, payloads[1..]);
      assert [payloads[0]] + payloads[1..] == payloads;
    }
  }

  /** The receiving end of the line. */
  class Port {
    const line: Line
    var next: nat

    constructor (line: Line)
      ensures this.line == line && next == 0
    {
      this.line, next := line, 0;
    }

    method GetByte() returns (c: Option<bv8>)
      modifies this
      ensures c == Read(line, old(next)) && next == old(next) + 1
    {
      c := if next < |line| then line[next] else None;
      next := next + 1;
    }

    method RecvFrame() returns (payload: Option<Bytes>)
      modifies this
      ensures var r := ReceiveFrame(line, old(next));
              if r.None? then payload == None else payload == Some(r.value.0) && next == r.value.1
    {
      hide Flip;
      ghost var start := next;
      var buffer := new bv8[RECEIVE_BUFFER];
      var c := GetByte();
      while c != Some(FBEG)
        invariant c == Read(line, next - 1) && next > 0
        invariant Opening(line, next - 1) == Opening(line, start)
        decreases |line| + 1 - next
      {
        if c.None? {
          return None;
        }
        c := GetByte();
      }
      ghost var from := next;
      var p := 0;
      c := GetByte();
      while c != Some(FEND)
        invariant c == Read(line, next - 1) && next > 0 && p <= RECEIVE_BUFFER
        invariant Receive(line, next - 1, buffer[..p]) == Receive(line, from, [])
        decreases |line| + 1 - next
      {
        if c.None? {
          return None;
        }
        if c == Some(ESC) {
          c := GetByte();
          c := Some(Unescaped(c));
        }
        if p >= RECEIVE_BUFFER {
          return None;
        }
        ghost var got := buffer[..p];
        buffer[p] := c.value;
        p := p + 1;
        assert buffer[..p] == got + [c.value];
        c := GetByte();
      }
      return Some(buffer[..p]);
    }
  }
}
