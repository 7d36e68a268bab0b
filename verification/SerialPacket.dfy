/** Packets of the Canon serial line: a header, a body and a checksum in one frame. */
module SerialPacket {
  import opened Crc
  import opened SerialFrame
  import opened Wrappers

  const MSG: bv8 := 0
  const EOT: bv8 := 4
  const ACK: bv8 := 5
  const NACK: bv8 := 255
  const UPLOAD_EOT: bv8 := 3

  const PKT_SEQ: nat := 0
  const PKT_TYPE: nat := 1
  const PKT_LEN_LSB: nat := 2
  const PKT_LEN_MSB: nat := 3
  const PKT_HDR_LEN: nat := 4

  /** The initial checksums by length, as far as they are known. */
  type Inits = t: seq<Option<bv16>> | |t| == 1024 witness seq(1024, _ => None)

  function FindInit(t: Inits, len: nat): Option<bv16> {
    if len < 1024 then t[len] else None
  }

  // ----- Numbers as bytes -----

  /** The byte with a given value, counted up so that no conversion between numbers and bits is needed. */
  function ByteOf(n: nat): (b: bv8)
    requires n < 256
    ensures b as nat == n
  {
    if n == 0 then 0 else
      NextByte(ByteOf(n - 1));
      ByteOf(n - 1) + 1
  }

  lemma NextByte(b: bv8)
    requires b as nat < 255
    ensures (b + 1) as nat == b as nat + 1
  {
  }

  function Lsb(n: nat): bv8 {
    ByteOf(n % 256)
  }

  function Msb(n: nat): bv8 {
    ByteOf(n / 256 % 256)
  }

  function Length(lsb: bv8, msb: bv8): (n: nat)
    ensures n < 0x1_0000
  {
    lsb as nat + 256 * (msb as nat)
  }

  lemma LengthRoundTrip(n: nat)
    requires n < 0x1_0000
    ensures Length(Lsb(n), Msb(n)) == n
  {
    hide ByteOf;
    assert n / 256 % 256 == n / 256;
  }

  function LowHalf(crc: bv16): bv8 {
    (crc & 0xff) as bv8
  }

  function HighHalf(crc: bv16): bv8 {
    (crc >> 8) as bv8
  }

  function Join(low: bv8, high: bv8): bv16 {
    (low as bv16) | ((high as bv16) << 8)
  }

  lemma JoinHalves(crc: bv16)
    ensures Join(LowHalf(crc), HighHalf(crc)) == crc
  {
  }

  lemma HalvesOfJoin(low: bv8, high: bv8)
    ensures LowHalf(Join(low, high)) == low && HighHalf(Join(low, high)) == high
  {
  }

  // ----- Sending -----

  /** The first four bytes; a refusal and the end of an upload travel under other names. */
  function Header(kind: bv8, seqNo: bv8, len: nat): (h: Bytes)
    ensures |h| == PKT_HDR_LEN
  {
    if kind == NACK then [seqNo, ACK, 0xff, Msb(len)]
    else if kind == UPLOAD_EOT then [seqNo, EOT, 0x03, Msb(len)]
    else [seqNo, kind, Lsb(len), Msb(len)]
  }

  /** How much of the body is sent. */
  function BodyLength(kind: bv8, len: nat): nat {
    if kind == EOT || kind == ACK || kind == NACK || kind == UPLOAD_EOT then 2 else len
  }

  /** Bytes with their checksum, if their length has an initial value. */
  function WithCrc(t: Inits, bytes: Bytes): Option<Bytes> {
    match FindInit(t, |bytes|)
    case None => None
    case Some(init) =>
      var crc := Checksum(init, bytes);
      Some(bytes + [LowHalf(crc), HighHalf(crc)])
  }

  /** A packet with the first bytes of `pkt`. */
  function Packet(t: Inits, kind: bv8, seqNo: bv8, pkt: Bytes, len: nat): Option<Bytes>
    requires BodyLength(kind, len) <= |pkt|
  {
    WithCrc(t, Header(kind, seqNo, len) + pkt[..BodyLength(kind, len)])
  }

  method GenCrc(t: Inits, pkt: Bytes) returns (crc: Option<bv16>)
    ensures crc == match FindInit(t, |pkt|) case None => None case Some(init) => Some(Checksum(init, pkt))
  {
    var init := FindInit(t, |pkt|);
    if init.None? {
      return None;
    }
    var sum := Chksum(init.value, pkt);
    return Some(sum);
  }

  /** What goes over the line for a packet. */
  method SendPacket(t: Inits, kind: bv8, seqNo: bv8, pkt: Bytes, len: nat) returns (sent: Option<Bytes>)
    requires BodyLength(kind, len) <= |pkt|
    ensures var packet := Packet(t, kind, seqNo, pkt, len);
            sent == if packet.None? then None else Some(Frame(packet.value))
  {
    hide Checksum, LowHalf, HighHalf, Frame, Lsb, Msb;
    var hdr := [seqNo, kind, Lsb(len), Msb(len)];
    var count := len;
    if kind == NACK {
      hdr := hdr[PKT_TYPE := ACK][PKT_TYPE + 1 := 0xff];
    }
    if kind == UPLOAD_EOT {
      hdr := hdr[PKT_TYPE := EOT][PKT_TYPE + 1 := 0x03];
      count := 2;
    }
    if kind == EOT || kind == ACK || kind == NACK {
      count := 2;
    }
    assert hdr == Header(kind, seqNo, len) && count == BodyLength(kind, len);
    var crc := GenCrc(t, hdr + pkt[..count]);
    if crc.None? {
      return None;
    }
    var packet := hdr + pkt[..count] + [LowHalf(crc.value), HighHalf(crc.value)];
    KnownLengthsFit(t, hdr + pkt[..count]);
    var outcome := SendFrame(packet);
    sent := Some(outcome.frame);
  }

  lemma KnownLengthsFit(t: Inits, bytes: Bytes)
    requires FindInit(t, |bytes|).Some?
    ensures forall packet: Bytes :: |packet| == |bytes| + 2 ==> Fits(packet) && !Overruns(packet)
  {
    hide Stuff;
  }

  // ----- Receiving -----

  /** A packet, or none; none because of the length of a message is remembered. */
  datatype Incoming = Nothing(badLength: bool) | Received(kind: bv8, seqNo: bv8, data: Bytes)

  predicate CrcOk(t: Inits, pkt: Bytes, crc: bv16) {
    var init := FindInit(t, |pkt|);
    init.Some? ==> Checksum(init.value, pkt) == crc
  }

  function Declared(raw: Bytes): nat
    requires |raw| >= PKT_HDR_LEN
  {
    Length(raw[PKT_LEN_LSB], raw[PKT_LEN_MSB])
  }

  /** What a frame holds: the payload of a message, and all of any other packet. */
  function Parse(t: Inits, raw: Bytes): Incoming {
    if |raw| < PKT_HDR_LEN then Nothing(false)
    else if raw[PKT_TYPE] == MSG && Declared(raw) + PKT_HDR_LEN > |raw| - 2 then Nothing(true)
    else if !CrcOk(t, raw[..|raw| - 2], Join(raw[|raw| - 2], raw[|raw| - 1])) then Nothing(false)
    else Received(raw[PKT_TYPE], raw[PKT_SEQ],
                  if raw[PKT_TYPE] == MSG then raw[PKT_HDR_LEN..PKT_HDR_LEN + Declared(raw)] else raw)
  }

  /** Without an initial value, the search finds one, and the packet passes. */
  method ChkCrc(t: Inits, pkt: Bytes, crc: bv16) returns (ok: bool)
    ensures ok == CrcOk(t, pkt, crc)
  {
    var init := FindInit(t, |pkt|);
    if init.Some? {
      var sum := Chksum(init.value, pkt);
      return sum == crc;
    }
    var _ := Guess(pkt, crc);
    return true;
  }

  method RecvPacket(port: Port, t: Inits) returns (r: Incoming)
    modifies port
    ensures var frame := ReceiveFrame(port.line, old(port.next));
            if frame.None? then r == Nothing(false) else r == Parse(t, frame.value.0) && port.next == frame.value.1
  {
    hide ReceiveFrame, CrcOk, Join, Length;
    var frame := port.RecvFrame();
    if frame.None? {
      return Nothing(false);
    }
    var pkt := frame.value;
    var rawLength, length := |pkt|, 0;
    if rawLength < PKT_HDR_LEN {
      return Nothing(false);
    }
    if pkt[PKT_TYPE] == MSG {
      length := Length(pkt[PKT_LEN_LSB], pkt[PKT_LEN_MSB]);
      if length + PKT_HDR_LEN > rawLength - 2 {
        return Nothing(true);
      }
    }
    var ok := ChkCrc(t, pkt[..rawLength - 2], Join(pkt[rawLength - 2], pkt[rawLength - 1]));
    if !ok {
      return Nothing(false);
    }
    return Received(pkt[PKT_TYPE], pkt[PKT_SEQ],
                    if pkt[PKT_TYPE] == MSG then pkt[PKT_HDR_LEN..PKT_HDR_LEN + length] else pkt);
  }

  // ----- The way back -----

  lemma CrcRoundTrip(t: Inits, bytes: Bytes)
    requires FindInit(t, |bytes|).Some?
    ensures var raw := WithCrc(t, bytes).value;
            |raw| == |bytes| + 2 && raw[..|bytes|] == bytes && CrcOk(t, bytes, Join(raw[|bytes|], raw[|bytes| + 1]))
  {
    hide Checksum, Join, LowHalf, HighHalf;
    JoinHalves(Checksum(FindInit(t, |bytes|).value, bytes));
  }

  /** Each message packet is received with its number and payload. */
  lemma MessageRoundTrip(t: Inits, seqNo: bv8, pkt: Bytes, len: nat)
    requires len <= |pkt| && FindInit(t, len + PKT_HDR_LEN).Some?
    ensures Packet(t, MSG, seqNo, pkt, len).Some?
    ensures Parse(t, Packet(t, MSG, seqNo, pkt, len).value) == Received(MSG, seqNo, pkt[..len])
  {
    hide CrcOk, Join, Lsb, Msb, Length, Checksum, LowHalf, HighHalf;
    var bytes := Header(MSG, seqNo, len) + pkt[..len];
    CrcRoundTrip(t, bytes);
    LengthRoundTrip(len);
    var raw := WithCrc(t, bytes).value;
    assert raw[PKT_LEN_LSB] == raw[..|bytes|][PKT_LEN_LSB] && raw[PKT_LEN_MSB] == raw[..|bytes|][PKT_LEN_MSB];
    assert raw[PKT_TYPE] == raw[..|bytes|][PKT_TYPE] && raw[PKT_SEQ] == raw[..|bytes|][PKT_SEQ];
    assert raw[PKT_HDR_LEN..PKT_HDR_LEN + len] == raw[..|bytes|][PKT_HDR_LEN..];
  }

  /** The packets of a list of numbered messages. */
  ghost predicate PacketsOf(t: Inits, messages: seq<(bv8, Bytes)>, raws: seq<Bytes>) {
    |raws| == |messages| &&
    forall i :: 0 <= i < |messages| ==> Packet(t, MSG, messages[i].0, messages[i].1, |messages[i].1|) == Some(raws[i])
  }

  /** A line that carries the frames of message packets, with any noise in front of each, delivers exactly
      the messages, in order. */
  lemma MessagesRoundTrip(t: Inits, messages: seq<(bv8, Bytes)>, raws: seq<Bytes>, line: Line, p: nat)
    requires PacketsOf(t, messages, raws) && Carries(line, p, raws)
    ensures ReceiveFrames(line, p, |messages|) == Some(raws)
    ensures forall i :: 0 <= i < |messages| ==> Parse(t, raws[i]) == Received(MSG, messages[i].0, messages[i].1)
  {
    hide Parse, Packet, ReceiveFrames, Carries;
    FramesRoundTrip(line, p, raws);
    forall i | 0 <= i < |messages| ensures Parse(t, raws[i]) == Received(MSG, messages[i].0, messages[i].1) {
      var m := messages[i];
      PacketKnown(t, m.0, m.1);
      MessageRoundTrip(t, m.0, m.1, |m.1|);
      assert m.1[..|m.1|] == m.1;
    }
  }

  lemma PacketKnown(t: Inits, seqNo: bv8, body: Bytes)
    requires Packet(t, MSG, seqNo, body, |body|).Some?
    ensures FindInit(t, |body| + PKT_HDR_LEN).Some?
  {
    hide Checksum, Lsb, Msb;
    assert body[..|body|] == body;
  }

  // ----- Damaged packets -----

  /** Is the checksum at the end of a frame right? */
  predicate Intact(t: Inits, raw: Bytes) {
    |raw| >= 2 && CrcOk(t, raw[..|raw| - 2], Join(raw[|raw| - 2], raw[|raw| - 1]))
  }

  lemma HighBytesDiffer(i: bv16, j: bv16)
    requires i <= 0xff && j <= 0xff && High(Shift8(i)) == High(Shift8(j))
    ensures i == j
  {
  }

  lemma LowOfSums(crc: bv16, a: bv8, c: bv8)
    requires Low(Xor(crc, a as bv16)) == Low(Xor(crc, c as bv16))
    ensures a == c
  {
  }

  lemma HighOfHigh(x: bv16, y: bv16)
    ensures High(Xor(x, High(y))) == High(x)
  {
  }

  lemma HighOfJoin(low: bv8, high: bv8)
    ensures High(Join(low, high)) == (high as bv16)
  {
  }

  /** Bytes that change the checksum in its low byte only are equal. */
  lemma LastByteShows(crc: bv16, a: bv8, c: bv8)
    requires High(Step(crc, a)) == High(Step(crc, c))
    ensures a == c
  {
    hide Shift8, Low, High, Xor;
    var x, y := Xor(crc, a as bv16), Xor(crc, c as bv16);
    SplitByte(x);
    SplitByte(y);
    HighOfHigh(Shift8(Low(x)), x);
    HighOfHigh(Shift8(Low(y)), y);
    HighBytesDiffer(Low(x), Low(y));
    LowOfSums(crc, a, c);
  }

  /** Of two frames that differ within two adjacent bytes only, at most one has the right checksum. */
  lemma AdjacentDamageFound(t: Inits, front: Bytes, a: bv8, b: bv8, c: bv8, d: bv8, back: Bytes)
    requires FindInit(t, |front| + |back|).Some?
    requires Intact(t, front + [a, b] + back) && Intact(t, front + [c, d] + back)
    ensures a == c && b == d
  {
    hide Checksum, Join;
    var s, u := front + [a, b] + back, front + [c, d] + back;
    var init, n := FindInit(t, |front| + |back|).value, |s|;
    if |back| >= 2 {
      var rest := back[..|back| - 2];
      assert s[..n - 2] == front + [a, b] + rest && u[..n - 2] == front + [c, d] + rest;
      AdjacentErrorsFound(init, front, a, b, c, d, rest);
    } else if |back| == 1 {
      assert s[..n - 2] == front + [a] && u[..n - 2] == front + [c];
      LastDataByteDiffers(init, front, a, c, b, d, back[0]);
    } else {
      assert s[..n - 2] == front && u[..n - 2] == front;
      HalvesOfJoin(a, b);
      HalvesOfJoin(c, d);
    }
  }

  lemma LastDataByteDiffers(init: bv16, front: Bytes, a: bv8, c: bv8, b: bv8, d: bv8, high: bv8)
    requires Checksum(init, front + [a]) == Join(b, high) && Checksum(init, front + [c]) == Join(d, high)
    ensures a == c && b == d
  {
    hide Step, Join, High, LowHalf, HighHalf;
    assert (front + [a])[..|front|] == front && (front + [c])[..|front|] == front;
    HighOfJoin(b, high);
    HighOfJoin(d, high);
    LastByteShows(Checksum(init, front), a, c);
    HalvesOfJoin(b, high);
    HalvesOfJoin(d, high);
  }

  /** A frame that was damaged within two adjacent bytes is not taken for a packet. */
  lemma DamagedPacketRejected(t: Inits, front: Bytes, a: bv8, b: bv8, c: bv8, d: bv8, back: Bytes)
    requires FindInit(t, |front| + |back|).Some? && (a != c || b != d)
    requires Parse(t, front + [a, b] + back).Received?
    ensures Parse(t, front + [c, d] + back).Nothing?
  {
    hide CrcOk, Join, Length;
    if Intact(t, front + [c, d] + back) {
      AdjacentDamageFound(t, front, a, b, c, d, back);
    }
  }
}
