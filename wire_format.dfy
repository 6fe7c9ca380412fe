/**
 The datagram header shared by the camera (sender) and the receiver: a packed
 10-byte record `packet_id: u16, total_len: u32, start_offset: u32`, all
 little-endian, followed by the payload.
 */
module WireFormat {

  type byte = x: int | 0 <= x < 0x100
  type u16 = x: int | 0 <= x < 0x1_0000
  type u32 = x: int | 0 <= x < 0x1_0000_0000

  datatype Option<T> = None | Some(value: T)

  /** Size of the packed header on both sides of the link. */
  const HEADER_SIZE: nat := 10
  /** The receiver asks the socket for at most this many bytes per datagram. */
  const MAX_PACKET_SIZE: nat := 2048

  datatype Header = Header(packetId: u16, totalLen: u32, startOffset: u32)

  /** A decoded datagram: its header and every byte after it. */
  datatype Fragment = Fragment(header: Header, payload: seq<byte>)

  function Pow256(n: nat): (p: nat)
    ensures p > 0
  {
    if n == 0 then 1 else 256 * Pow256(n - 1)
  }

  /** The `width` low-order bytes of `v`, least significant first. */
  function LittleEndian(v: nat, width: nat): (bs: seq<byte>)
    ensures |bs| == width
  {
    if width == 0 then [] else [v % 256] + LittleEndian(v / 256, width - 1)
  }

  /** The unsigned value of a little-endian byte string. */
  function FromLittleEndian(bs: seq<byte>): (v: nat)
    ensures v < Pow256(|bs|)
  {
    if bs == [] then 0 else bs[0] + 256 * FromLittleEndian(bs[1..])
  }

  lemma {:induction false} FromToLittleEndian(v: nat, width: nat)
    requires v < Pow256(width)
    ensures FromLittleEndian(LittleEndian(v, width)) == v
  {
    if width > 0 {
      var bs := LittleEndian(v, width);
      assert bs[1..] == LittleEndian(v / 256, width - 1);
      FromToLittleEndian(v / 256, width - 1);
    }
  }

  lemma {:induction false} ToFromLittleEndian(bs: seq<byte>)
    ensures LittleEndian(FromLittleEndian(bs), |bs|) == bs
  {
    if bs != [] {
      var v := FromLittleEndian(bs);
      DivMod256(bs[0], FromLittleEndian(bs[1..]));
      ToFromLittleEndian(bs[1..]);
      assert LittleEndian(v, |bs|) == [v % 256] + LittleEndian(v / 256, |bs| - 1);
      assert bs == [bs[0]] + bs[1..];
    }
  }

  lemma DivMod256(lo: byte, hi: nat)
    ensures (lo + 256 * hi) % 256 == lo && (lo + 256 * hi) / 256 == hi
  {
  }

  /**
   The bytes the sender writes for its packed `Header` struct
   (`udp.write((uint8_t *)&current_header, HEADER_SIZE)` on a little-endian CPU).
   */
  function PackHeader(h: Header): (bs: seq<byte>)
    ensures |bs| == HEADER_SIZE
  {
    LittleEndian(h.packetId, 2) + LittleEndian(h.totalLen, 4) + LittleEndian(h.startOffset, 4)
  }

  /** The most payload bytes a datagram can bring to the receiver: 2038. */
  const MAX_PAYLOAD: nat := MAX_PACKET_SIZE - HEADER_SIZE

  /**
   What `sock.recvfrom(MAX_PACKET_SIZE)` hands the receiver for one datagram
   on a datagram socket (as on Linux): the datagram itself when it fits the
   buffer, and otherwise its first `MAX_PACKET_SIZE` bytes, the rest being
   discarded.
   */
  function Received(datagram: seq<byte>): (data: seq<byte>)
    ensures |data| <= |datagram| && |data| <= MAX_PACKET_SIZE && data == datagram[..|data|]
    ensures |data| == |datagram| || |data| == MAX_PACKET_SIZE
  {
    if |datagram| <= MAX_PACKET_SIZE then datagram else datagram[..MAX_PACKET_SIZE]
  }

  /** The payload that survives the receiver's cut: at most `MAX_PAYLOAD` bytes, from the front. */
  function Truncated(payload: seq<byte>): (d: seq<byte>)
    ensures |d| <= |payload| && |d| <= MAX_PAYLOAD && d == payload[..|d|]
    ensures |d| == |payload| || |d| == MAX_PAYLOAD
  {
    if |payload| <= MAX_PAYLOAD then payload else payload[..MAX_PAYLOAD]
  }

  /** The header the receiver reads from its first ten bytes. */
  function HeaderOf(h: seq<byte>): Header
    requires |h| == HEADER_SIZE
  {
    Header(FromLittleEndian(h[0..2]), FromLittleEndian(h[2..6]), FromLittleEndian(h[6..10]))
  }

  /**
   The receiver's `struct.unpack('<HII', data[:HEADER_SIZE])`, with the payload
   `data[HEADER_SIZE:]`. A datagram shorter than the header makes `unpack`
   raise, and the receiver drops it: `None` here.
   */
  function UnpackHeader(data: seq<byte>): (r: Option<Fragment>)
    ensures r.None? <==> |data| < HEADER_SIZE
    ensures r.Some? ==> r.value.payload == data[HEADER_SIZE..]
  {
    var header := if |data| < HEADER_SIZE then data else data[..HEADER_SIZE];
    if |header| != HEADER_SIZE then None
    else
      Some(Fragment(HeaderOf(header), data[HEADER_SIZE..]))
  }

  /** Byte positions of the three fields: 0-1, 2-5 and 6-9, least significant byte first. */
  lemma HeaderLayout(data: seq<byte>)
    requires |data| >= HEADER_SIZE
    ensures UnpackHeader(data).Some?
    ensures UnpackHeader(data).value.header.packetId == data[0] as int + 0x100 * data[1] as int
    ensures UnpackHeader(data).value.header.totalLen
         == data[2] as int + 0x100 * data[3] as int + 0x1_0000 * data[4] as int + 0x100_0000 * data[5] as int
    ensures UnpackHeader(data).value.header.startOffset
         == data[6] as int + 0x100 * data[7] as int + 0x1_0000 * data[8] as int + 0x100_0000 * data[9] as int
  {
    var h := data[..HEADER_SIZE];
    FourBytes(h[2..6]);
    FourBytes(h[6..10]);
    assert FromLittleEndian(h[0..2]) == h[0] as int + 0x100 * FromLittleEndian(h[0..2][1..]);
    assert FromLittleEndian(h[0..2][1..]) == h[1] as int + 0x100 * FromLittleEndian(h[0..2][1..][1..]);
    assert h[0..2][1..][1..] == [];
  }

  lemma FourBytes(bs: seq<byte>)
    requires |bs| == 4
    ensures FromLittleEndian(bs)
         == bs[0] as int + 0x100 * bs[1] as int + 0x1_0000 * bs[2] as int + 0x100_0000 * bs[3] as int
  {
    assert bs[1..][1..][1..][1..] == [];
    assert FromLittleEndian(bs[1..][1..][1..]) == bs[3] as int;
    assert FromLittleEndian(bs[1..][1..]) == bs[2] as int + 0x100 * bs[3] as int;
  }

  /** Unpacking what the sender packed gives back the header and the payload. */
  lemma UnpackPackHeader(h: Header, payload: seq<byte>)
    ensures UnpackHeader(PackHeader(h) + payload) == Some(Fragment(h, payload))
  {
    var data := PackHeader(h) + payload;
    assert data[..HEADER_SIZE][0..2] == LittleEndian(h.packetId, 2);
    assert data[..HEADER_SIZE][2..6] == LittleEndian(h.totalLen, 4);
    assert data[..HEADER_SIZE][6..10] == LittleEndian(h.startOffset, 4);
    assert data[HEADER_SIZE..] == payload;
    FromToLittleEndian(h.packetId, 2);
    FromToLittleEndian(h.totalLen, 4);
    FromToLittleEndian(h.startOffset, 4);
  }

  /**
   A packed datagram passed through `recvfrom(MAX_PACKET_SIZE)` decodes to
   its header and the first `MAX_PAYLOAD` bytes of its payload; a payload
   within that bound arrives whole.
   */
  lemma ReceivePackedHeader(h: Header, payload: seq<byte>)
    ensures UnpackHeader(Received(PackHeader(h) + payload)) == Some(Fragment(h, Truncated(payload)))
    ensures |payload| <= MAX_PAYLOAD ==> Received(PackHeader(h) + payload) == PackHeader(h) + payload
  {
    var data := PackHeader(h) + payload;
    if |payload| > MAX_PAYLOAD {
      assert Received(data) == PackHeader(h) + payload[..MAX_PAYLOAD];
    }
    UnpackPackHeader(h, Truncated(payload));
  }

  /** The cut leaves the header alone and keeps the first `MAX_PAYLOAD` bytes of the payload. */
  lemma ReceivedDecodes(data: seq<byte>)
    requires |data| >= HEADER_SIZE
    ensures UnpackHeader(data).Some?
    ensures UnpackHeader(Received(data))
         == Some(Fragment(UnpackHeader(data).value.header, Truncated(UnpackHeader(data).value.payload)))
  {
    PackUnpackHeader(data);
    var f := UnpackHeader(data).value;
    ReceivePackedHeader(f.header, f.payload);
  }

  /** Every datagram the receiver accepts is the sender's packing of what it decoded to. */
  lemma PackUnpackHeader(data: seq<byte>)
    requires |data| >= HEADER_SIZE
    ensures UnpackHeader(data).Some?
    ensures PackHeader(UnpackHeader(data).value.header) + UnpackHeader(data).value.payload == data
  {
    var h := data[..HEADER_SIZE];
    var f := UnpackHeader(data).value;
    assert f.header == HeaderOf(h);
    RepackHeader(h);
    assert data == h + data[HEADER_SIZE..];
  }

  lemma RepackHeader(h: seq<byte>)
    requires |h| == HEADER_SIZE
    ensures PackHeader(HeaderOf(h)) == h
  {
    ToFromLittleEndian(h[0..2]);
    ToFromLittleEndian(h[2..6]);
    ToFromLittleEndian(h[6..10]);
    assert h == h[0..2] + h[2..6] + h[6..10];
  }
}
