/** What goes over the Canon serial line, byte by byte. */
module SerialLaws {
  import opened Crc
  import opened SerialFrame
  import opened SerialPacket
  import opened Wrappers

  // ----- Frames -----

  /** Marks and the escape are sent as two bytes, and everything else as it is. */
  function OnTheLine(b: bv8): Bytes {
    if b == 0xc0 then [0x7e, 0xe0]
    else if b == 0xc1 then [0x7e, 0xe1]
    else if b == 0x7e then [0x7e, 0x5e]
    else [b]
  }

  lemma FrameInBytes(front: Bytes, b: bv8, back: Bytes)
    ensures Frame([]) == [0xc0, 0xc1]
    ensures Frame(front + [b] + back) == [0xc0] + (Stuff(front) + OnTheLine(b) + Stuff(back)) + [0xc1]
  {
    ByteInBytes(b);
    StuffInPieces(front + [b], back);
    StuffInPieces(front, [b]);
    assert [b][..0] == [];
  }

  lemma ByteInBytes(b: bv8)
    ensures StuffByte(b) == OnTheLine(b)
  {
  }

  // ----- Packets -----

  lemma ChecksumBytes(crc: bv16)
    ensures LowHalf(0x1234) == 0x34 && HighHalf(0x1234) == 0x12
  {
  }

  /** The bytes of a message packet: its number, zero, the length, the message, and the checksum with its low byte
      first. */
  lemma MessageInBytes(t: Inits, seqNo: bv8, pkt: Bytes, len: nat, raw: Bytes)
    requires len <= |pkt| && Packet(t, 0, seqNo, pkt, len) == Some(raw)
    ensures |raw| == len + 6 && len + 4 < 1024 && t[len + 4].Some?
    ensures raw[0] == seqNo && raw[1] == 0 && raw[2] as nat == len % 256 && raw[3] as nat == len / 256
    ensures raw[4..4 + len] == pkt[..len]
    ensures var crc := Checksum(t[len + 4].value, raw[..len + 4]);
            raw[len + 4] == LowHalf(crc) && raw[len + 5] == HighHalf(crc)
  {
    hide Header, Checksum, LowHalf, HighHalf;
    HeaderOfMessage(seqNo, len);
    var bytes := Header(0, seqNo, len) + pkt[..len];
    assert raw[..len + 4] == bytes;
  }

  lemma HeaderOfMessage(seqNo: bv8, len: nat)
    requires len < 1020
    ensures var h := Header(0, seqNo, len);
            h[0] == seqNo && h[1] == 0 && h[2] as nat == len % 256 && h[3] as nat == len / 256
  {
    hide ByteOf;
    assert len / 256 % 256 == len / 256;
  }

  /** All other packets that are sent have two bytes behind their header. */
  lemma OtherInBytes(t: Inits, kind: bv8, seqNo: bv8, pkt: Bytes, len: nat, raw: Bytes)
    requires kind in {3, 4, 5, 255} && 2 <= |pkt| && Packet(t, kind, seqNo, pkt, len) == Some(raw)
    ensures |raw| == 8 && raw[0] == seqNo && raw[4..6] == pkt[..2]
    ensures raw[1] == (if kind == 255 then 5 else if kind == 3 then 4 else kind)
    ensures raw[2] as nat == if kind == 255 then 255 else if kind == 3 then 3 else len % 256
  {
    hide Checksum, LowHalf, HighHalf, ByteOf;
  }

  /** What is received in such bytes. */
  lemma ReceivedInBytes(t: Inits, raw: Bytes)
    requires Parse(t, raw).Received?
    ensures |raw| >= 4 && Parse(t, raw).seqNo == raw[0] && Parse(t, raw).kind == raw[1]
    ensures Parse(t, raw).data ==
            if raw[1] == 0 then raw[4..4 + (raw[2] as nat + 256 * raw[3] as nat)] else raw
  {
    hide CrcOk, Join;
  }
}
