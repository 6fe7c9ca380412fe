/**
 The camera side's `loop()`: a captured RGB565 frame is checked for size,
 the frame counter is advanced, and the frame is sent as a run of datagrams,
 each a packed header followed by up to `CHUNK_SIZE` bytes of the frame.
 */
module Sender {
  import opened WireFormat
  import opened Fragments

  const FRAME_WIDTH: nat := 160
  const FRAME_HEIGHT: nat := 120
  /** Payload bytes per datagram. */
  const CHUNK_SIZE: nat := 1024
  const PACKET_SIZE: nat := CHUNK_SIZE + HEADER_SIZE
  /** The only frame size the sender accepts: 38400. */
  const FRAME_BYTES: nat := FRAME_WIDTH * FRAME_HEIGHT * 2

  /** The `(uint32_t)` cast of a `size_t`. */
  function U32(x: nat): u32
  {
    x % 0x1_0000_0000
  }

  /** `std::min((size_t)CHUNK_SIZE, total_len - start_offset)`. */
  function SendLen(total: nat, start: nat): nat
    requires start < total
  {
    if CHUNK_SIZE <= total - start then CHUNK_SIZE else total - start
  }

  /** The chunks the send loop cuts `src[start..]` into, in sending order. */
  function ChunksFrom(src: seq<byte>, start: nat): seq<Piece>
    decreases |src| - start
  {
    if start >= |src| then []
    else
      var n := SendLen(|src|, start);
      [Piece(start, src[start..start + n])] + ChunksFrom(src, start + n)
  }

  /** The datagram for one chunk: the packed header, then the chunk. */
  function Datagram(id: u16, total: nat, p: Piece): seq<byte>
  {
    PackHeader(Header(id, U32(total), U32(p.offset))) + p.data
  }

  function Datagrams(id: u16, total: nat, ps: seq<Piece>): (ds: seq<seq<byte>>)
    ensures |ds| == |ps|
  {
    seq(|ps|, i requires 0 <= i < |ps| => Datagram(id, total, ps[i]))
  }

  lemma DatagramsAppend(id: u16, total: nat, a: seq<Piece>, b: seq<Piece>)
    ensures Datagrams(id, total, a + b) == Datagrams(id, total, a) + Datagrams(id, total, b)
  {
  }

  /** The datagrams from `start` on: the one for the chunk at `start`, then those after it. */
  lemma SendStep(src: seq<byte>, id: u16, start: nat)
    requires start < |src|
    ensures var n := SendLen(|src|, start);
      Datagrams(id, |src|, ChunksFrom(src, start))
      == [PackHeader(Header(id, U32(|src|), U32(start))) + src[start..start + n]]
         + Datagrams(id, |src|, ChunksFrom(src, start + n))
  {
    var n := SendLen(|src|, start);
    var p := Piece(start, src[start..start + n]);
    assert ChunksFrom(src, start) == [p] + ChunksFrom(src, start + n);
    DatagramsAppend(id, |src|, [p], ChunksFrom(src, start + n));
    assert Datagrams(id, |src|, [p]) == [Datagram(id, |src|, p)];
  }

  class CameraSender {
    /** `frame_count`, a `uint16_t`. */
    var frameCount: u16

    constructor ()
      ensures frameCount == 0
    {
      frameCount := 0;
    }

    /**
     One pass of `loop()` on the frame buffer the camera returned (`None`
     for a null `fb`). The datagrams handed to the UDP stack are returned.
     */
    method Loop(fb: Option<seq<byte>>) returns (sent: seq<seq<byte>>)
      modifies this
      ensures fb.None? || |fb.value| != FRAME_BYTES ==> sent == [] && frameCount == old(frameCount)
      ensures fb.Some? && |fb.value| == FRAME_BYTES ==>
        && frameCount == (old(frameCount) + 1) % 0x1_0000
        && sent == Datagrams(frameCount, FRAME_BYTES, ChunksFrom(fb.value, 0))
    {
      if fb.None? || |fb.value| != FRAME_BYTES {
        return [];
      }
      frameCount := (frameCount + 1) % 0x1_0000;
      var id, src := frameCount, fb.value;
      var totalLen := |src|;
      var startOffset := 0;
      sent := [];
      while startOffset < totalLen
        invariant startOffset <= totalLen
        invariant frameCount == id
        invariant sent + Datagrams(id, totalLen, ChunksFrom(src, startOffset))
               == Datagrams(id, totalLen, ChunksFrom(src, 0))
        decreases totalLen - startOffset
      {
        var sendLen := if CHUNK_SIZE <= totalLen - startOffset then CHUNK_SIZE else totalLen - startOffset;
        var currentHeader := Header(id, U32(totalLen), U32(startOffset));
        var chunk := src[startOffset..startOffset + sendLen];
        SendStep(src, id, startOffset);
        sent := sent + [PackHeader(currentHeader) + chunk];
        startOffset := startOffset + sendLen;
      }
      assert Datagrams(id, totalLen, ChunksFrom(src, startOffset)) == [];
    }
  }

  // ---------------------------------------------------------------------
  // Properties of the fragmentation

  /** The chunks cut `src[start..]` into consecutive non-empty pieces carrying the frame's bytes. */
  lemma {:induction false} ChunksTile(src: seq<byte>, start: nat)
    requires start <= |src|
    ensures Tiles(ChunksFrom(src, start), start, src)
    decreases |src| - start
  {
    if start < |src| {
      var n := SendLen(|src|, start);
      var c := ChunksFrom(src, start);
      assert c[1..] == ChunksFrom(src, start + n);
      ChunksTile(src, start + n);
    }
  }

  /**
   Chunk `i` starts at `i * CHUNK_SIZE` and holds `min(CHUNK_SIZE, total - i * CHUNK_SIZE)`
   bytes, more than zero; there are `ceil(total / CHUNK_SIZE)` of them.
   */
  lemma {:induction false} ChunkLayout(src: seq<byte>, j: nat)
    requires j * CHUNK_SIZE <= |src|
    ensures var c := ChunksFrom(src, j * CHUNK_SIZE);
      && |c| == (|src| - j * CHUNK_SIZE + CHUNK_SIZE - 1) / CHUNK_SIZE
      && forall i :: 0 <= i < |c| ==>
           && c[i].offset == (j + i) * CHUNK_SIZE
           && 0 < |c[i].data| <= CHUNK_SIZE
           && |c[i].data| == if CHUNK_SIZE <= |src| - c[i].offset then CHUNK_SIZE else |src| - c[i].offset
    decreases |src| - j * CHUNK_SIZE
  {
    var start := j * CHUNK_SIZE;
    var c := ChunksFrom(src, start);
    if start < |src| {
      var n := SendLen(|src|, start);
      if n == CHUNK_SIZE {
        assert start + n == (j + 1) * CHUNK_SIZE;
        ChunkLayout(src, j + 1);
        assert c[1..] == ChunksFrom(src, (j + 1) * CHUNK_SIZE);
        forall i | 0 < i < |c|
          ensures c[i].offset == (j + i) * CHUNK_SIZE
        {
          assert c[i] == c[1..][i - 1];
        }
      } else {
        assert ChunksFrom(src, start + n) == [];
      }
    }
  }

  /** A full 38400-byte frame goes out as 37 chunks of 1024 bytes and a last one of 512. */
  lemma FrameChunks(src: seq<byte>)
    requires |src| == FRAME_BYTES
    ensures var c := ChunksFrom(src, 0);
      && |c| == 38
      && (forall i :: 0 <= i < 37 ==> c[i].offset == i * CHUNK_SIZE && |c[i].data| == CHUNK_SIZE)
      && c[37].offset == 37 * CHUNK_SIZE && |c[37].data| == 512
  {
    ChunkLayout(src, 0);
  }

  /** Offsets strictly increase from chunk to chunk. */
  lemma ChunkOffsetsIncrease(src: seq<byte>, i: nat, k: nat)
    requires i < k < |ChunksFrom(src, 0)|
    ensures ChunksFrom(src, 0)[i].offset < ChunksFrom(src, 0)[k].offset
  {
    ChunkLayout(src, 0);
  }

  /** One datagram decodes to its header and chunk. */
  lemma DatagramDecodes(id: u16, total: nat, p: Piece)
    requires total < 0x1_0000_0000 && p.offset < 0x1_0000_0000
    ensures UnpackHeader(Datagram(id, total, p)) == Some(Fragment(Header(id, total, p.offset), p.data))
  {
    var h := Header(id, total, p.offset);
    assert U32(total) == total && U32(p.offset) == p.offset;
    assert Datagram(id, total, p) == PackHeader(h) + p.data;
    UnpackPackHeader(h, p.data);
  }

  /**
   One datagram, as `recvfrom(MAX_PACKET_SIZE)` hands it over, decodes to
   its header and the first `MAX_PAYLOAD` bytes of its chunk.
   */
  lemma DatagramReceived(id: u16, total: nat, p: Piece)
    requires total < 0x1_0000_0000 && p.offset < 0x1_0000_0000
    ensures UnpackHeader(Received(Datagram(id, total, p)))
         == Some(Fragment(Header(id, total, p.offset), Truncated(p.data)))
  {
    var h := Header(id, total, p.offset);
    assert U32(total) == total && U32(p.offset) == p.offset;
    assert Datagram(id, total, p) == PackHeader(h) + p.data;
    ReceivePackedHeader(h, p.data);
  }

  /** Every chunk the camera sends fits the receiver's buffer: at most 1024 of its 2038 payload bytes. */
  lemma ChunksFit(src: seq<byte>)
    ensures forall p :: p in ChunksFrom(src, 0) ==> |p.data| <= MAX_PAYLOAD
  {
    ChunkLayout(src, 0);
  }

  /**
   Every datagram of a frame decodes, with the receiver's unpacking, to the
   same packet id and total length and to its chunk's offset and bytes.
   */
  lemma DatagramsDecode(id: u16, total: nat, ps: seq<Piece>)
    requires total < 0x1_0000_0000
    requires forall i :: 0 <= i < |ps| ==> ps[i].offset < 0x1_0000_0000
    ensures forall i :: 0 <= i < |ps| ==>
      UnpackHeader(Datagrams(id, total, ps)[i]) == Some(Fragment(Header(id, total, ps[i].offset), ps[i].data))
  {
    forall i | 0 <= i < |ps|
      ensures UnpackHeader(Datagrams(id, total, ps)[i]) == Some(Fragment(Header(id, total, ps[i].offset), ps[i].data))
    {
      DatagramDecodes(id, total, ps[i]);
    }
  }

  /** Every datagram of a full frame is at most `PACKET_SIZE` = 1034 bytes, within the receiver's 2048. */
  lemma DatagramSizes(id: u16, src: seq<byte>)
    requires |src| == FRAME_BYTES
    ensures forall i :: 0 <= i < |ChunksFrom(src, 0)| ==>
      |Datagrams(id, FRAME_BYTES, ChunksFrom(src, 0))[i]| <= PACKET_SIZE <= MAX_PACKET_SIZE
  {
    ChunkLayout(src, 0);
  }
}
