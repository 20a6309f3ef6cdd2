/** Packets: a 12-byte header of id, padding, content size and CRC, and the content (Protocol.h, protocol.cpp). */
module Packets {
  import opened Bytes

  const HEADER_SIZE := 12
  const MAX_CHAT_MESSAGE_LEN := 20

  const REQUEST_LOGIN := 1
  const REPLY_LOGIN := 2
  const REQUEST_CHAT := 6
  const NOTICE_CHAT := 7

  /** The checksum of the eight bytes before the crc_ field, padding included */
  type Crc = Bytes -> uint32

  datatype Header = Header(id: nat, contentSize: uint32, crc: uint32) {
    function PacketSize(): nat { contentSize + HEADER_SIZE }
  }

  function ReadHeader(p: Bytes): Header
    requires |p| >= HEADER_SIZE
  {
    Pow256Values();
    Header(DecodeLE(p[..2]), DecodeLE(p[4..8]), DecodeLE(p[8..12]))
  }

  predicate CrcMatches(crc: Crc, p: Bytes)
    requires |p| >= HEADER_SIZE
  {
    crc(p[..8]) == ReadHeader(p).crc
  }

  /** The server refuses chat requests with more than 20 bytes of content. */
  predicate SizeAllowed(filters: bool, h: Header) {
    filters && h.id == REQUEST_CHAT ==> h.contentSize <= MAX_CHAT_MESSAGE_LEN
  }

  predicate WellFormedPacket(crc: Crc, filters: bool, p: Bytes) {
    |p| >= HEADER_SIZE && CrcMatches(crc, p) && SizeAllowed(filters, ReadHeader(p)) && |p| == ReadHeader(p).PacketSize()
  }

  function Content(p: Bytes): Bytes
    requires |p| >= HEADER_SIZE && ReadHeader(p).PacketSize() <= |p|
  {
    p[HEADER_SIZE..ReadHeader(p).PacketSize()]
  }

  /** A packet with the given content; the padding is whatever the fresh memory held. */
  function Packet(crc: Crc, id: nat, pad: Bytes, content: Bytes): Bytes
    requires |pad| == 2
  {
    var head := EncodeLE(id % 0x1_0000, 2) + pad + EncodeLE(|content| % TWO_32, 4);
    head + EncodeLE(crc(head), 4) + content
  }

  /** Where the fields of a header lie, byte by byte */
  lemma HeaderLayout(p: Bytes)
    requires |p| >= HEADER_SIZE
    ensures var h := ReadHeader(p);
            var b: seq<int> := p;
            && h.id == b[0] + 0x100 * b[1]
            && h.contentSize == b[4] + 0x100 * b[5] + 0x1_0000 * b[6] + 0x100_0000 * b[7]
            && h.crc == b[8] + 0x100 * b[9] + 0x1_0000 * b[10] + 0x100_0000 * b[11]
  {
    TwoBytes(p[..2]);
    FourBytes(p[4..8]);
    FourBytes(p[8..12]);
  }

  lemma TwoBytes(s: Bytes)
    requires |s| == 2
    ensures var b: seq<int> := s; DecodeLE(s) == b[0] + 0x100 * b[1]
  {
    assert s[1..][1..] == [];
  }

  lemma FourBytes(s: Bytes)
    requires |s| == 4
    ensures var b: seq<int> := s; DecodeLE(s) == b[0] + 0x100 * b[1] + 0x1_0000 * b[2] + 0x100_0000 * b[3]
  {
    assert s[1..][1..] == s[2..] && s[2..][0] == s[2] && s[2..][1] == s[3];
    TwoBytes(s[2..]);
  }

  /** What build_packet makes and the serialiser fills is read back as it was meant. */
  lemma PacketReads(crc: Crc, id: nat, pad: Bytes, content: Bytes)
    requires |pad| == 2 && id < 0x1_0000 && |content| < TWO_32
    ensures var p := Packet(crc, id, pad, content);
            && |p| == HEADER_SIZE + |content|
            && ReadHeader(p) == Header(id, |content|, crc(p[..8])) && CrcMatches(crc, p)
            && Content(p) == content
  {
    var p := Packet(crc, id, pad, content);
    var head := EncodeLE(id, 2) + pad + EncodeLE(|content|, 4);
    assert p[..8] == head && p[..2] == EncodeLE(id, 2);
    assert p[4..8] == EncodeLE(|content|, 4) && p[8..12] == EncodeLE(crc(head), 4);
    assert id < Pow256(2) && |content| < Pow256(4) && crc(head) < Pow256(4) by { Pow256Values(); }
    DecodeEncodeLE(id, 2);
    DecodeEncodeLE(|content|, 4);
    DecodeEncodeLE(crc(head), 4);
    assert p[HEADER_SIZE..] == content;
  }

  /** The client takes every such packet; the server refuses chat requests with more than 20 bytes, and only those. */
  lemma OnlyTheServerLimits(crc: Crc, id: nat, pad: Bytes, content: Bytes)
    requires |pad| == 2 && id < 0x1_0000 && |content| < TWO_32
    ensures WellFormedPacket(crc, false, Packet(crc, id, pad, content))
    ensures WellFormedPacket(crc, true, Packet(crc, id, pad, content)) <==> id != 6 || |content| <= 20
  {
    hide Packet;
    PacketReads(crc, id, pad, content);
  }

  method StoreLE(target: array<byte>, at: nat, value: nat, k: nat)
    requires at + k <= target.Length
    modifies target
    ensures var was := old(target[..]); target[..] == was[..at] + EncodeLE(value, k) + was[at + k..]
  {
    var v := value;
    ghost var bytes := EncodeLE(value, k);
    for i := 0 to k
      invariant bytes[i..] == EncodeLE(v, k - i)
      invariant forall j | 0 <= j < i :: target[at + j] == bytes[j]
      invariant forall j | 0 <= j < at || at + k <= j < target.Length :: target[j] == old(target[j])
    {
      target[at + i] := v % 256;
      assert bytes[i] == bytes[i..][0] && bytes[i + 1..] == bytes[i..][1..];
      v := v / 256;
    }
  }

  /** new byte[content_size + sizeof(packet_header)], whatever it holds, with the header fields stored in it */
  method BuildPacket(crc: Crc, id: uint32, contentSize: uint32, garbage: Bytes) returns (packet: array<byte>)
    requires |garbage| == contentSize + HEADER_SIZE
    ensures fresh(packet) && packet[..] == Packet(crc, id, garbage[2..4], garbage[HEADER_SIZE..])
  {
    hide EncodeLE;
    packet := new byte[|garbage|](i requires 0 <= i < |garbage| => garbage[i]);
    assert packet[..] == garbage;
    StoreLE(packet, 0, id % 0x1_0000, 2);
    StoreLE(packet, 4, contentSize, 4);
    ghost var sum := EncodeLE(crc(packet[..8]), 4);
    assert packet[..8] == packet[..][..8];
    StoreLE(packet, 8, crc(packet[..8]), 4);
    HeaderInPlace(garbage, EncodeLE(id % 0x1_0000, 2), EncodeLE(contentSize, 4), sum);
  }

  /** Three stores at the header's offsets leave two bytes of padding. */
  lemma HeaderInPlace(garbage: Bytes, id: Bytes, size: Bytes, sum: Bytes)
    requires |garbage| >= HEADER_SIZE && |id| == 2 && |size| == |sum| == 4
    ensures var first := id + garbage[2..];
            var second := first[..4] + size + first[8..];
            && garbage[..0] + id + garbage[2..] == first
            && second[..8] == id + garbage[2..4] + size
            && second[..8] + sum + second[12..] == id + garbage[2..4] + size + sum + garbage[12..]
  {
  }
}
