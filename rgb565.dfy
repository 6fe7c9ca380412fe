/**
 The receiver's `convert_rgb565_to_bgr`: a reassembled frame of big-endian
 16-bit words, each packing 5-bit, 6-bit and 5-bit colour fields, becomes
 one (B, G, R) triple of 8-bit channels per pixel.
 */
module Rgb565 {
  import opened WireFormat

  const FRAME_WIDTH: nat := 160
  const FRAME_HEIGHT: nat := 120
  /** Bytes in one QQVGA RGB565 frame: 38400. */
  const EXPECTED_SIZE: nat := FRAME_WIDTH * FRAME_HEIGHT * 2

  datatype Bgr = Bgr(b: byte, g: byte, r: byte)

  datatype Conversion =
    | NotWordAligned          // np.frombuffer(..., '>u2') raises on an odd byte count
    | SizeMismatch            // word count * 2 != EXPECTED_SIZE: the function returns None
    | Image(pixels: seq<Bgr>) // row-major, FRAME_HEIGHT rows of FRAME_WIDTH pixels

  /** One `>u2` element: the first byte is the high-order one. */
  function BigEndianWord(hi: byte, lo: byte): u16
  {
    hi * 0x100 + lo
  }

  /** `(field * 255) // max` in numpy uint16 arithmetic (the product wraps modulo 2^16). */
  function ScaleU16(field: nat, max: nat): nat
    requires max > 0
  {
    ((field * 255) % 0x1_0000) / max
  }

  /** `astype(np.uint8)`: keeps the low 8 bits. */
  function ToU8(v: nat): byte
  {
    v % 0x100
  }

  /**
   The three fields of a word: R in bits 0-4 (`w & 0x1F`), G in bits 5-10
   (`(w >> 5) & 0x3F`), B in bits 11-15 (`(w >> 11) & 0x1F`). On a
   non-negative word a right shift by k is division by 2^k and a mask of k
   low bits is the remainder modulo 2^k.
   */
  function RedField(w: u16): nat { w % 0x20 }
  function GreenField(w: u16): nat { (w / 0x20) % 0x40 }
  function BlueField(w: u16): nat { (w / 0x800) % 0x20 }

  function PixelOf(w: u16): Bgr
  {
    Bgr(ToU8(ScaleU16(BlueField(w), 31)), ToU8(ScaleU16(GreenField(w), 63)), ToU8(ScaleU16(RedField(w), 31)))
  }

  function ConvertRgb565ToBgr(data: seq<byte>): (c: Conversion)
    ensures c.NotWordAligned? <==> |data| % 2 == 1
    ensures c.SizeMismatch? <==> |data| % 2 == 0 && |data| != EXPECTED_SIZE
    ensures c.Image? ==> |data| == EXPECTED_SIZE && |c.pixels| == FRAME_WIDTH * FRAME_HEIGHT
  {
    if |data| % 2 != 0 then NotWordAligned
    else
      var words := |data| / 2;
      if words * 2 != EXPECTED_SIZE then SizeMismatch
      else Image(seq(words, i requires 0 <= i < words => PixelOf(BigEndianWord(data[2 * i], data[2 * i + 1]))))
  }

  /** Scaling a field of at most `max` to 8 bits: no uint16 wrap-around, and the uint8 cast keeps the value. */
  lemma ScaleNoWrap(field: nat, max: nat)
    requires 0 < max < 0x100 && field <= max
    ensures ToU8(ScaleU16(field, max)) == field * 255 / max <= 255
  {
    assert field * 255 <= max * 255 < 0x1_0000;
    assert field * 255 / max <= max * 255 / max == 255;
  }

  lemma FieldBounds(w: u16)
    ensures RedField(w) <= 31 && GreenField(w) <= 63 && BlueField(w) <= 31
  {
  }

  /** Each channel is the field scaled to 0..255 by `v * 255 // max`, in B, G, R order. */
  lemma PixelChannels(w: u16)
    ensures PixelOf(w).b == BlueField(w) * 255 / 31
    ensures PixelOf(w).g == GreenField(w) * 255 / 63
    ensures PixelOf(w).r == RedField(w) * 255 / 31
  {
    FieldBounds(w);
    ScaleNoWrap(BlueField(w), 31);
    ScaleNoWrap(GreenField(w), 63);
    ScaleNoWrap(RedField(w), 31);
  }

  /** A zero word is black and an all-ones word is white. */
  lemma PixelExtremes()
    ensures PixelOf(0x0000) == Bgr(0, 0, 0)
    ensures PixelOf(0xFFFF) == Bgr(255, 255, 255)
  {
    assert RedField(0x0000) == 0 && GreenField(0x0000) == 0 && BlueField(0x0000) == 0;
    assert ScaleU16(0, 31) == 0 && ScaleU16(0, 63) == 0;
    assert RedField(0xFFFF) == 31 && GreenField(0xFFFF) == 63 && BlueField(0xFFFF) == 31;
    assert ScaleU16(31, 31) == 255 && ScaleU16(63, 63) == 255;
  }

  /** The smallest field value whose scaled channel is `c`: the inverse of `v * 255 // max`. */
  function Unscale(c: byte, max: nat): nat
    requires 0 < max < 0x100
  {
    (c * max + 254) / 255
  }

  lemma UnscaleScale(v: nat, max: nat)
    requires 0 < max < 0x100 && v <= max
    ensures v * 255 / max <= 255 && Unscale(v * 255 / max, max) == v
  {
    var c := v * 255 / max;
    assert c <= 255 by { assert v * 255 <= max * 255; }
    assert c * max <= v * 255 < c * max + max;
    assert v * 255 <= c * max + 254 < v * 255 + 255;
  }

  /** The RGB565 word a (B, G, R) triple came from. */
  function PackPixel(p: Bgr): nat
  {
    var b := Unscale(p.b, 31);
    var g := Unscale(p.g, 63);
    var r := Unscale(p.r, 31);
    b * 0x800 + g * 0x20 + r
  }

  lemma WordFromFields(w: u16)
    ensures w == BlueField(w) * 0x800 + GreenField(w) * 0x20 + RedField(w)
  {
  }

  /** The conversion of a single word loses nothing: the word can be recovered from its pixel. */
  lemma PackPixelOf(w: u16)
    ensures PackPixel(PixelOf(w)) == w
  {
    PixelChannels(w);
    FieldBounds(w);
    UnscaleScale(BlueField(w), 31);
    UnscaleScale(GreenField(w), 63);
    UnscaleScale(RedField(w), 31);
    WordFromFields(w);
  }

  lemma BigEndianWordBytes(hi: byte, lo: byte)
    ensures BigEndianWord(hi, lo) / 0x100 == hi && BigEndianWord(hi, lo) % 0x100 == lo
  {
  }

  /** Pixel `i` of a converted frame is the pixel of the word at bytes `2i` and `2i + 1`. */
  lemma ConvertedPixel(data: seq<byte>, i: nat)
    requires ConvertRgb565ToBgr(data).Image? && i < |data| / 2
    ensures ConvertRgb565ToBgr(data).pixels[i] == PixelOf(BigEndianWord(data[2 * i], data[2 * i + 1]))
  {
  }

  /**
   A converted frame determines the bytes it came from: pixel `i` packs back
   to the word at bytes `2i` (high) and `2i + 1` (low).
   */
  lemma ConvertLossless(data: seq<byte>)
    requires ConvertRgb565ToBgr(data).Image?
    ensures forall i :: 0 <= i < |data| / 2 ==>
      var w := PackPixel(ConvertRgb565ToBgr(data).pixels[i]);
      w / 0x100 == data[2 * i] && w % 0x100 == data[2 * i + 1]
  {
    forall i | 0 <= i < |data| / 2
      ensures var w := PackPixel(ConvertRgb565ToBgr(data).pixels[i]);
        w / 0x100 == data[2 * i] && w % 0x100 == data[2 * i + 1]
    {
      ConvertedPixel(data, i);
      PackPixelOf(BigEndianWord(data[2 * i], data[2 * i + 1]));
      BigEndianWordBytes(data[2 * i], data[2 * i + 1]);
    }
  }

  /** An all-zero frame converts to a black image and an all-0xFF frame to a white one. */
  lemma ConvertUniformFrames(data: seq<byte>, v: byte)
    requires |data| == EXPECTED_SIZE && (v == 0 || v == 0xFF)
    requires forall i :: 0 <= i < |data| ==> data[i] == v
    ensures ConvertRgb565ToBgr(data).Image?
    ensures forall i :: 0 <= i < FRAME_WIDTH * FRAME_HEIGHT ==>
      ConvertRgb565ToBgr(data).pixels[i] == Bgr(v, v, v)
  {
    var w: u16 := if v == 0 then 0x0000 else 0xFFFF;
    assert BigEndianWord(v, v) == w;
    PixelExtremes();
    assert PixelOf(w) == Bgr(v, v, v);
    forall i | 0 <= i < FRAME_WIDTH * FRAME_HEIGHT
      ensures ConvertRgb565ToBgr(data).pixels[i] == Bgr(v, v, v)
    {
      ConvertedPixel(data, i);
      assert data[2 * i] == v && data[2 * i + 1] == v;
    }
  }
}
