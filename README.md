# RGB565 UDP camera stream: fragmentation and reassembly

This project is a Dafny model of the two ends of a small video link.

On the camera side, an ESP32 `loop()` takes each 160×120 RGB565 frame (38400 bytes). It cuts the frame into chunks of at most 1024 bytes. Each chunk is sent as one UDP datagram, prefixed by a packed 10-byte header: `packet_id: u16`, `total_len: u32`, `start_offset: u32`, all little-endian.

On the receiver side, a Python loop handles each datagram as follows:
- It reads the datagram with `sock.recvfrom(2048)`. On a Linux datagram socket this keeps only the first 2048 bytes of a longer datagram.
- It unpacks the header with `'<HII'`.
- It keeps a table `frame_buffer` mapping packet id to `(total_len, fragments_dict)`.
- It evicts the smallest id when more than two frames are in flight.
- It stores the payload at its offset.
- It calls `reconstruct_frame`, which copies the fragments into a zeroed buffer and accepts the frame when the count of bytes written equals `total_len`.
- It converts an accepted frame from big-endian RGB565 to 8-bit B, G, R.

Modules, one per concern:

- `WireFormat` (`wire_format.dfy`): byte and integer subset types, and the header.
  - `PackHeader` is what the sender writes.
  - `Received` is what the receiver's socket hands over: at most 2048 bytes of a datagram.
  - `UnpackHeader` is what the receiver reads.
- `Fragments` (`fragments.dfy`): the fragment dict and `reconstruct_frame`.
  - The dict is a sequence of pieces in insertion order. This is the order in which a Python dict is iterated.
  - `Filled`, `Paint` and `Reconstruct` are the specification of `reconstruct_frame`.
  - `ReconstructFrame` is the imperative version: the same loop over a byte `array` with a clipped write. It is proved equal to `Reconstruct`.
- `Rgb565` (`rgb565.dfy`): `convert_rgb565_to_bgr` as a pure function, with its three results: an odd byte count makes `np.frombuffer` raise, a wrong size gives `None`, and otherwise the image.
- `Assembly` (`assembly.dfy`): the frame table and one iteration of the receive loop.
  - `InsertFragment`, `ReceiveDatagram` and `Feed` are functions.
  - The class `FrameAssembler` holds the table in a `map` field. Its `Insert` and `Receive` methods make the same updates in place and are proved against those functions.
- `Sender` (`sender.dfy`): the camera's `loop()` as a class with the `frame_count` field and a `Loop` method whose while loop builds the datagrams. The method is proved against the cut `ChunksFrom`.
- `RoundTrip` (`round_trip.dfy`): ties the two ends together. The datagrams of any consecutive cut of a frame into pieces of at most 2038 bytes, delivered in any order to a table that does not hold the frame's id, give:
  - a pending outcome for every datagram but the last;
  - with the last, a single completion whose bytes are exactly the frame.

In five places the code does something other than what its own comments and structure suggest. The model follows the code:

- `Assembly.StoredTotalLenUnused`: each entry stores its `total_len` in the tuple `(total_len, {})` (esp32_udp_stream.py:123), as if it were the frame's length. Yet each datagram's completion test uses that datagram's own `total_len`, and the stored value is never read.
- `Assembly.InsertNewMinimumGrows`: the comments "Aggressively discard old frames" (esp32_udp_stream.py:11) and "Discard oldest frame if buffer is too full" (:125) suggest that at most two frames are kept. But eviction is skipped when the new id is itself the smallest (:128), so a run of decreasing ids grows the table past two entries.
- `Assembly.ReceiveFragmentCompletes`: the `del frame_buffer[packet_id]` after an assembled frame (:151) suggests that a completed frame always leaves the table. A completed frame with an odd byte count stays: its conversion raises before the `del`, and the loop's `except Exception: pass` swallows the error.
- `Fragments.ByteCountAcceptsGap`: "Copy fragments into the correct position" (:76) and the final `filled_bytes == total_len` test read as a coverage check. It is a byte count, so overlapping fragments that leave a gap are accepted, and the gap stays zero.
- `RoundTrip.QqvgaThreeFragments`: nothing in the header limits a fragment's size, but the receive buffer is `MAX_PACKET_SIZE = 2048` bytes (:20, :110). A fragment of more than 2038 payload bytes reaches the table cut short. A frame sent as a consecutive cut with such a piece, each byte sent once, then never completes, in any arrival order (`RoundTrip.ReassembleOversized`). A 38400-byte frame sent in three pieces cut at 16000 and 32000 stays pending for good. A later fragment that brings the lost bytes at their own offset can still complete a frame (`RoundTrip.CutFrameRefilled`). The camera's 1024-byte chunks fit (`Sender.ChunksFit`).

## Model

| member | source | states |
|---|---|---|
| WireFormat.PackHeader | python-rgb565-web-receiver/arduino_code.cpp:23-28 | the packed header struct is exactly `HEADER_SIZE` = 10 bytes |
| WireFormat.UnpackHeader | python-rgb565-web-receiver/esp32_udp_stream.py:112-119 | decoding fails (the datagram is skipped) exactly when the datagram is shorter than 10 bytes; the payload is every byte from 10 on |
| WireFormat.HeaderLayout | python-rgb565-web-receiver/esp32_udp_stream.py:117 | `'<HII'`: the id is bytes 0-1, the total length bytes 2-5 and the offset bytes 6-9, each least significant byte first |
| WireFormat.FromToLittleEndian | python-rgb565-web-receiver/arduino_code.cpp:24-27 | reading back the little-endian bytes of a field that fits its width gives the field |
| WireFormat.Received | python-rgb565-web-receiver/esp32_udp_stream.py:110 | the receiver gets at most 2048 bytes of a datagram: the whole datagram when it fits, otherwise its first 2048 bytes |
| WireFormat.ReceivePackedHeader | python-rgb565-web-receiver/esp32_udp_stream.py:110-117 | a packed header and payload, cut by the socket, decode to that header and the first 2038 bytes of the payload; a payload of at most 2038 bytes arrives whole |
| WireFormat.ReceivedDecodes | python-rgb565-web-receiver/esp32_udp_stream.py:110-117 | the socket's cut leaves the decoded header as it is and keeps the first 2038 bytes of the payload |
| WireFormat.UnpackPackHeader | python-rgb565-web-receiver/arduino_code.cpp:121-134 | the receiver's unpacking of a header the sender wrote, followed by any payload, gives back that header and that payload |
| WireFormat.PackUnpackHeader | python-rgb565-web-receiver/esp32_udp_stream.py:112-117 | conversely, every datagram the receiver decodes is the packing of its decoded header followed by its payload |
| Fragments.PutLookup | python-rgb565-web-receiver/esp32_udp_stream.py:131-132 | storing at an offset keeps keys distinct, adds that key, makes its value the new payload (last write wins), leaves every other key's value, keeps an existing key in its place in the iteration order and appends a new key last |
| Fragments.PutDuplicate | python-rgb565-web-receiver/esp32_udp_stream.py:132 | storing a payload already stored at that offset leaves the dict unchanged |
| Fragments.Put | python-rgb565-web-receiver/esp32_udp_stream.py:132 | no contract of its own; `fragments_dict[start_offset] = fragment_data` is stated by `Fragments.PutLookup` |
| Fragments.Write | python-rgb565-web-receiver/esp32_udp_stream.py:78-80 | after a clipped copy, each byte in `[offset, offset + write_len)` is the payload's byte and every other byte is unchanged |
| Fragments.Filled | python-rgb565-web-receiver/esp32_udp_stream.py:77-81 | no contract of its own; the count `filled_bytes` is the full payload length for in-range pieces (`FilledInRange`), never more than it (`FilledAtMost`), and ignores far pieces (`FarPieceIgnored`) |
| Fragments.Paint | python-rgb565-web-receiver/esp32_udp_stream.py:73-81 | the painted buffer has exactly `total_len` bytes; its bytes are given by `PaintUnwritten`, `PaintWrittenOnce` and `PaintLastWriter` |
| Fragments.Reconstruct | python-rgb565-web-receiver/esp32_udp_stream.py:68-87 | an empty dict gives `None`; an accepted frame has exactly `total_len` bytes |
| Fragments.ReconstructFrame | python-rgb565-web-receiver/esp32_udp_stream.py:68-87 | the array loop returns a frame exactly when the dict is non-empty and the clipped byte count equals `total_len`; the frame is the buffer after every copy, in dict order |
| Fragments.FarPieceIgnored | python-rgb565-web-receiver/esp32_udp_stream.py:78-81 | a fragment at or past the end of the buffer adds no bytes, writes nothing and does not change the result |
| Fragments.ByteCountAcceptsGap | python-rgb565-web-receiver/esp32_udp_stream.py:81-85 | overlapping fragments `(0,[1,2])` and `(1,[3,4])` with total 4 are accepted as the frame `[1,3,4,0]`, though byte 3 was never written |
| Fragments.FilledAtMost | python-rgb565-web-receiver/esp32_udp_stream.py:77-81 | the byte count never exceeds the total length of the stored payloads |
| Fragments.PaintUnwritten | python-rgb565-web-receiver/esp32_udp_stream.py:73 | a byte no fragment writes stays zero |
| Fragments.PaintWrittenOnce | python-rgb565-web-receiver/esp32_udp_stream.py:77-80 | a byte written by exactly one fragment holds that fragment's byte, whatever the order of the others |
| Fragments.PaintLastWriter | python-rgb565-web-receiver/esp32_udp_stream.py:77-80 | where fragments overlap, a byte holds the byte of the last fragment in the dict's order that writes it |
| Fragments.PaintOverlapExample | python-rgb565-web-receiver/esp32_udp_stream.py:73-80 | re-sending offset 0 replaces its entry in place, so `{0:[1,2]}`, then `{1:[3]}`, then `{0:[5,6]}` leave `[(0,[5,6]), (1,[3])]`, and a 3-byte frame paints `[5,3,0]`: offset 1's byte overwrites the re-sent one |
| Fragments.SumLenPermutation | python-rgb565-web-receiver/esp32_udp_stream.py:77-81 | the total payload length does not depend on the order of the fragments |
| Fragments.TiledArrivals | python-rgb565-web-receiver/esp32_udp_stream.py:77-81 | in any arrival order of a consecutive cut of a frame, every piece lies inside the frame and carries its bytes, offsets are distinct, and the lengths sum to the frame length |
| Fragments.ReconstructTiling | python-rgb565-web-receiver/esp32_udp_stream.py:68-87 | for any arrival order of a consecutive cut: offsets are distinct, no proper prefix of the arrivals is accepted, and all of them reconstruct exactly the frame |
| Rgb565.ConvertRgb565ToBgr | python-rgb565-web-receiver/esp32_udp_stream.py:24-33 | the conversion raises exactly on an odd byte count, returns `None` exactly on an even count other than 38400, and otherwise gives 160×120 pixels |
| Rgb565.FieldBounds | python-rgb565-web-receiver/esp32_udp_stream.py:36-38 | the R, G and B fields are at most 31, 63 and 31 |
| Rgb565.ScaleNoWrap | python-rgb565-web-receiver/esp32_udp_stream.py:41-46 | for a field within its range, the uint16 product does not wrap and the uint8 cast keeps `field * 255 // max`, at most 255 |
| Rgb565.PixelOf | python-rgb565-web-receiver/esp32_udp_stream.py:36-46 | no contract of its own; its channels are stated by `Rgb565.PixelChannels` and its injectivity by `Rgb565.PackPixelOf` |
| Rgb565.PixelChannels | python-rgb565-web-receiver/esp32_udp_stream.py:36-46 | each channel of a pixel is its field scaled by `* 255 // max`, in B, G, R order |
| Rgb565.PixelExtremes | python-rgb565-web-receiver/esp32_udp_stream.py:36-46 | the word 0x0000 becomes black (0,0,0) and 0xFFFF becomes white (255,255,255) |
| Rgb565.UnscaleScale | python-rgb565-web-receiver/esp32_udp_stream.py:41-43 | the scaling of a field is undone by `Unscale`, so no two field values share a channel value |
| Rgb565.PackPixelOf | python-rgb565-web-receiver/esp32_udp_stream.py:36-46 | the word can be recovered from its pixel |
| Rgb565.BigEndianWordBytes | python-rgb565-web-receiver/esp32_udp_stream.py:29 | a `>u2` word's high byte is the first byte and its low byte the second |
| Rgb565.ConvertedPixel | python-rgb565-web-receiver/esp32_udp_stream.py:29-46 | pixel `i` of an image is the pixel of the big-endian word at bytes `2i` and `2i+1` |
| Rgb565.ConvertLossless | python-rgb565-web-receiver/esp32_udp_stream.py:24-49 | every byte of the frame can be recovered from the converted image |
| Rgb565.ConvertUniformFrames | python-rgb565-web-receiver/esp32_udp_stream.py:24-49 | an all-zero frame converts to an all-black image and an all-0xFF frame to an all-white one |
| Assembly.MinKey | python-rgb565-web-receiver/esp32_udp_stream.py:127 | the result is a key of the table and no key is smaller |
| Assembly.Evict | python-rgb565-web-receiver/esp32_udp_stream.py:125-129 | no contract of its own; its effect on a table with a new id is stated by `Assembly.EvictNew` |
| Assembly.InsertFragment | python-rgb565-web-receiver/esp32_udp_stream.py:122-132 | after the assembly block, the datagram's id is in the table |
| Assembly.Feed | python-rgb565-web-receiver/esp32_udp_stream.py:108-156 | the receive loop yields one outcome per datagram |
| Assembly.FeedRun | python-rgb565-web-receiver/esp32_udp_stream.py:108-156 | the loop over a run of datagrams is the composition of its single steps |
| Assembly.FrameAssembler.constructor | python-rgb565-web-receiver/esp32_udp_stream.py:18 | the table starts empty and well formed |
| Assembly.FrameAssembler.Insert | python-rgb565-web-receiver/esp32_udp_stream.py:122-132 | the in-place create/evict/store leaves the table equal to `InsertFragment` of the old table, with every dict's keys distinct |
| Assembly.FrameAssembler.Receive | python-rgb565-web-receiver/esp32_udp_stream.py:110-151 | one loop iteration in place, on the bytes the socket hands over: the new table and the outcome are those of `ReceiveDatagram` on the old table |
| Assembly.InsertWellFormed | python-rgb565-web-receiver/esp32_udp_stream.py:122-132 | storing a fragment keeps every frame's offsets distinct |
| Assembly.ReceiveWellFormed | python-rgb565-web-receiver/esp32_udp_stream.py:112-151 | a whole loop iteration keeps every frame's offsets distinct |
| Assembly.InsertKnownFrame | python-rgb565-web-receiver/esp32_udp_stream.py:131-132 | a fragment of a frame already present creates and evicts nothing, keeps that frame's stored length, and changes only the value at its own offset: a known offset's entry is replaced where it stands, a new one is appended at the end |
| Assembly.InsertDuplicate | python-rgb565-web-receiver/esp32_udp_stream.py:131-132 | a re-delivered fragment with the same payload leaves the table unchanged |
| Assembly.MinKeyInsert | python-rgb565-web-receiver/esp32_udp_stream.py:127 | the smallest key after adding a new id is the old smallest key or the new id, whichever is lower |
| Assembly.EvictNew | python-rgb565-web-receiver/esp32_udp_stream.py:122-129 | creating an entry keeps it and every other entry, except that the smallest old id is dropped exactly when the table already held two or more entries and that id is below the new one |
| Assembly.InsertNewFrame | python-rgb565-web-receiver/esp32_udp_stream.py:122-132 | a fragment of an unseen frame makes an entry holding just that fragment; the key set gains the id and loses the smallest old id exactly in the eviction case; no surviving entry changes |
| Assembly.InsertKeepsCapacity | python-rgb565-web-receiver/esp32_udp_stream.py:125-129 | a new id that is not the smallest, arriving at a table of at most two entries, leaves at most two |
| Assembly.InsertNewMinimumGrows | python-rgb565-web-receiver/esp32_udp_stream.py:126-129 | a new id below every id in the table evicts nothing, so the table grows by one even past capacity |
| Assembly.ReceiveDatagram | python-rgb565-web-receiver/esp32_udp_stream.py:110-151 | one loop iteration drops a datagram, leaving the table unchanged, exactly when it is shorter than the header; what it does otherwise is stated by `ReceiveStoresAndCompletes` |
| Assembly.ReceiveFragment | python-rgb565-web-receiver/esp32_udp_stream.py:122-151 | after a decode the outcome is pending or a completion, which carries the datagram's id and exactly `total_len` bytes; the tables are given by `ReceiveFragmentPending` and `ReceiveFragmentCompletes` |
| Assembly.ReceiveShortDatagram | python-rgb565-web-receiver/esp32_udp_stream.py:116-119 | a datagram shorter than the header is dropped and the table is unchanged |
| Assembly.ReceiveStoresAndCompletes | python-rgb565-web-receiver/esp32_udp_stream.py:110-151 | a datagram of at least 10 bytes is stored with its header and the first 2038 bytes of its payload; it completes its frame exactly when the clipped byte count equals the datagram's `total_len`; the frame is then the painted buffer of that length and its conversion; the entry stays exactly when the length is odd; otherwise the outcome is pending and the table is the stored one |
| Assembly.StoredTotalLenUnused | python-rgb565-web-receiver/esp32_udp_stream.py:123-135 | the stored `total_len` of an entry never changes what a datagram's outcome is |
| Assembly.ReceiveDecoded | python-rgb565-web-receiver/esp32_udp_stream.py:110-119 | a datagram whose received bytes decode to a header and payload is handled as that fragment |
| Assembly.ReceiveFragmentPending | python-rgb565-web-receiver/esp32_udp_stream.py:135-137 | a fragment whose frame is not yet complete leaves the stored table and the outcome pending |
| Assembly.ReceiveFragmentCompletes | python-rgb565-web-receiver/esp32_udp_stream.py:135-151 | a completing fragment hands over the frame and its conversion, and deletes the entry unless the length is odd |
| Sender.CameraSender.constructor | python-rgb565-web-receiver/arduino_code.cpp:31 | the frame counter starts at 0 |
| Sender.CameraSender.Loop | python-rgb565-web-receiver/arduino_code.cpp:102-146 | a missing or wrong-size frame sends nothing and leaves the counter; otherwise the counter advances modulo 2^16 and the datagrams sent are, in order, the packed header and chunk of each chunk of `ChunksFrom(frame, 0)` |
| Sender.SendStep | python-rgb565-web-receiver/arduino_code.cpp:117-139 | one pass of the send loop: the datagram for the chunk at the current offset, then those after it |
| Sender.ChunksFrom | python-rgb565-web-receiver/arduino_code.cpp:117-140 | no contract of its own; the cut is stated by `Sender.ChunksTile` and `Sender.ChunkLayout` |
| Sender.Datagrams | python-rgb565-web-receiver/arduino_code.cpp:121-134 | one datagram per chunk, in sending order; what each decodes to is stated by `Sender.DatagramsDecode` |
| Sender.ChunksTile | python-rgb565-web-receiver/arduino_code.cpp:117-140 | the chunks are non-empty, consecutive, start at the given offset, end at the frame's end and carry the frame's bytes |
| Sender.ChunkLayout | python-rgb565-web-receiver/arduino_code.cpp:117-140 | chunk `i` starts at `i * 1024` and holds `min(1024, total - offset)` bytes; there are `ceil(remaining / 1024)` chunks |
| Sender.FrameChunks | python-rgb565-web-receiver/arduino_code.cpp:104-140 | a 38400-byte frame goes out as 37 chunks of 1024 bytes and a last chunk of 512 |
| Sender.ChunkOffsetsIncrease | python-rgb565-web-receiver/arduino_code.cpp:117-139 | chunk offsets strictly increase in sending order |
| Sender.DatagramDecodes | python-rgb565-web-receiver/arduino_code.cpp:121-134 | one datagram decodes at the receiver to its id, total, offset and chunk |
| Sender.DatagramsDecode | python-rgb565-web-receiver/arduino_code.cpp:121-134 | every datagram of a frame decodes at the receiver to its id, total, offset and chunk |
| Sender.DatagramReceived | python-rgb565-web-receiver/arduino_code.cpp:121-134 | one datagram, as the receiver's socket hands it over, decodes to its id, total and offset and the first 2038 bytes of its chunk |
| Sender.ChunksFit | python-rgb565-web-receiver/arduino_code.cpp:117-134 | every chunk is at most 1024 bytes, within the 2038 payload bytes the receiver takes whole |
| Sender.DatagramSizes | python-rgb565-web-receiver/arduino_code.cpp:118-134 | each datagram of a full frame is at most 1034 bytes, within the receiver's 2048 |
| RoundTrip.TiledStep | python-rgb565-web-receiver/esp32_udp_stream.py:122-151 | arrival `k` of a consecutive cut appends its piece to the frame's dict; it is pending, except the last arrival, which completes with the frame |
| RoundTrip.FeedTiled | python-rgb565-web-receiver/esp32_udp_stream.py:108-151 | the loop over the frame's datagrams ends in the completed table, with pendings then one completion |
| RoundTrip.PermutedDatagrams | python-rgb565-web-receiver/arduino_code.cpp:117-140 | any reordering of a frame's datagrams is the datagrams of some reordering of its chunks |
| RoundTrip.ReassembleAnyOrder | python-rgb565-web-receiver/esp32_udp_stream.py:122-151 | any consecutive cut of a frame into pieces of at most 2038 bytes, delivered in any order to a table without its id: every datagram but the last is pending; the last completes with exactly the frame and its conversion; the id remains exactly when the length is odd |
| RoundTrip.ReassembleKeepsOthers | python-rgb565-web-receiver/esp32_udp_stream.py:122-129 | for the same cuts, the other frames are untouched, except that the smallest id is evicted exactly when the table held two or more entries and that id is below the frame's |
| RoundTrip.CameraToReceiver | python-rgb565-web-receiver/arduino_code.cpp:102-140 | the camera's datagrams for one frame, in any order: 37 pendings, then the single completion carrying the camera's frame buffer, which converts to an image; the id leaves the table |
| RoundTrip.ThreeFragmentScenario | python-rgb565-web-receiver/esp32_udp_stream.py:122-151 | a frame cut at any `0 < a < b < len` into pieces of at most 2038 bytes and delivered second, first, third: pending, pending, then completion with the frame; the id leaves the table exactly when the length is even |
| RoundTrip.ShortRun | python-rgb565-web-receiver/esp32_udp_stream.py:122-137 | arrivals of one frame at distinct offsets whose payloads total less than its `total_len` are all pending, and the frame's entry ends up holding every one of them |
| RoundTrip.CutSumLen | python-rgb565-web-receiver/esp32_udp_stream.py:110 | the socket's cut never adds payload bytes |
| RoundTrip.CutSumLenDrops | python-rgb565-web-receiver/esp32_udp_stream.py:110 | a piece of more than 2038 bytes makes the cut pieces total strictly less than the pieces sent |
| RoundTrip.CutTilingShort | python-rgb565-web-receiver/esp32_udp_stream.py:110 | any arrival order of a consecutive cut of a frame with a piece of more than 2038 bytes reaches the receiver short of the frame's length |
| RoundTrip.ReassembleOversized | python-rgb565-web-receiver/esp32_udp_stream.py:110-137 | the datagrams of a consecutive cut with a piece of more than 2038 bytes, delivered in any order to a table without its id: all pending; the frame's entry holds the cut pieces |
| RoundTrip.CutShort | python-rgb565-web-receiver/esp32_udp_stream.py:110-137 | the datagrams of pieces at distinct offsets whose payloads, once cut to 2038 bytes, total less than `total_len`: all pending; the frame's entry holds the cut pieces |
| RoundTrip.CutFrameRefilled | python-rgb565-web-receiver/esp32_udp_stream.py:110-137 | a 3000-byte frame sent whole is cut by the socket and pending; a second datagram carrying bytes 2038 on then completes it with exactly the frame |
| RoundTrip.QqvgaThreeFragments | python-rgb565-web-receiver/esp32_udp_stream.py:110-137 | the 38400-byte frame of id 7, cut at 16000 and 32000 and delivered second, first, third, is sent as datagrams of 16010, 16010 and 6410 bytes, each of which the socket cuts to 2048 bytes; all three are pending and id 7 stays in the table holding the three 2038-byte pieces (6114 bytes of 38400) |

## Left out

- The socket: `bind` and `SO_RCVBUF` are not modelled. A datagram is a byte sequence given to `Receive`. `WireFormat.Received` models `recvfrom(2048)` the way Linux does it, keeping the first 2048 bytes of a longer datagram. On Windows the call raises for such a datagram instead, and the catch-all drops it; that variant is not modelled.
- RoundTrip.ReassembleAnyOrder, RoundTrip.ReassembleKeepsOthers and RoundTrip.ThreeFragmentScenario hold only for cuts whose pieces are at most 2038 bytes. A larger piece reaches the table cut short, and the frame does not complete, in any arrival order (`RoundTrip.ReassembleOversized`, `RoundTrip.QqvgaThreeFragments`).
- Display (`display_frame_opencv`, OpenCV windows, ESC ending the loop), the FPS counter and every `print`: these are I/O only.
- `KeyboardInterrupt` is not modelled. Neither are exceptions other than the odd-length one that the catch-all swallows, such as a `MemoryError` from `bytearray(total_len)` for a huge `total_len`.
- `Rgb565.ConvertRgb565ToBgr`: the image is a flat row-major sequence of 19200 pixels. The `reshape` to 120×160×3 is not modelled.
- `Fragments.ReconstructFrame`: the `packet_id` parameter is accepted and unused, as in the source.
- Camera and network setup on the sender (`setup`, `setup_camera`, WiFi, `udp.beginPacket`/`endPacket`, `esp_camera_fb_return`, `delay`): I/O. `Sender.CameraSender.Loop` takes the captured frame buffer as a parameter and returns the datagrams it would send.
- `Sender.U32`: the `(uint32_t)` casts are modelled as reduction modulo 2^32. The round-trip lemmas assume lengths below 2^32.
- The round-trip lemmas cover only the case where every datagram of a frame arrives exactly once, in any order. Loss, duplication and interleaving with other frames' datagrams are covered only one datagram at a time (`Assembly.InsertDuplicate`, `Assembly.InsertKnownFrame`, `Assembly.EvictNew`). No lemma covers them over a whole stream.
- `udp_header_debug.py`, `udp_sniff_test.py` and the `usb-to-gsm` directory are not part of this model.
