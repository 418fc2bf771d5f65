/**
 * The 16-bit colour encoder: each pixel becomes an RGB565 word (5 bits of
 * red, 6 of green, 5 of blue, red in the top bits), written to the buffer
 * high byte first.
 */
module Rgb565 {
  import opened Pixels

  /** The RGB565 word for a pixel: each channel keeps its top 5, 6 or 5 bits. */
  function Pack565(p: Rgb): (w: bv16)
    ensures w >> 11 == (p.r >> 3) as bv16
    ensures (w >> 5) & 0x3F == (p.g >> 2) as bv16
    ensures w & 0x1F == (p.b >> 3) as bv16
  {
    // Dafny's `|` binds tighter than `<<` and `>>`, hence the parentheses.
    (((p.r & 0xF8) as bv16) << 8) | (((p.g & 0xFC) as bv16) << 3) | ((p.b as bv16) >> 3)
  }

  /** The byte pushed first: the top eight bits of the word. */
  function HighByte(w: bv16): bv8
  {
    (w >> 8) as bv8
  }

  /** The byte pushed second: the word truncated to its low eight bits. */
  function LowByte(w: bv16): bv8
  {
    (w & 0xFF) as bv8
  }

  /** The two bytes, read back high byte first, give the word again. */
  lemma JoinBytes(w: bv16)
    ensures ((HighByte(w) as bv16) << 8) | (LowByte(w) as bv16) == w
  {
  }

  /**
   * The colour a pixel keeps through the encoding: the low three bits of
   * red and blue and the low two bits of green are dropped.
   */
  function Quantize(p: Rgb): (q: Rgb)
    ensures q.r <= p.r && p.r - q.r < 8 && q.r & 0x07 == 0
    ensures q.g <= p.g && p.g - q.g < 4 && q.g & 0x03 == 0
    ensures q.b <= p.b && p.b - q.b < 8 && q.b & 0x07 == 0
  {
    Rgb(p.r & 0xF8, p.g & 0xFC, p.b & 0xF8)
  }

  /** The pixel a word stands for, with the dropped low bits of each channel as zero. */
  function Unpack565(w: bv16): Rgb
  {
    Rgb(((w >> 8) & 0xF8) as bv8, ((w >> 3) & 0xFC) as bv8, ((w << 3) & 0xF8) as bv8)
  }

  /** Decoding an encoded pixel gives the pixel with its dropped bits cleared. */
  lemma UnpackPack(p: Rgb)
    ensures Unpack565(Pack565(p)) == Quantize(p)
  {
  }

  /** Every 16-bit word is the encoding of some pixel: the one it decodes to. */
  lemma PackUnpack(w: bv16)
    ensures Pack565(Unpack565(w)) == w
  {
  }

  /** Two pixels get the same word exactly when they agree after quantisation. */
  lemma SameWord(p: Rgb, q: Rgb)
    ensures Pack565(p) == Pack565(q) <==> Quantize(p) == Quantize(q)
  {
    UnpackPack(p);
    UnpackPack(q);
  }

  /** The encoded buffer for a row-major pixel sequence: two bytes per pixel, in pixel order. */
  function Bytes(s: seq<Rgb>): (out: seq<bv8>)
    ensures |out| == 2 * |s|
  {
    if s == [] then []
    else
      var w := Pack565(s[|s| - 1]);
      Bytes(s[..|s| - 1]) + [HighByte(w), LowByte(w)]
  }

  /** Encoding one more pixel appends its two bytes. */
  lemma BytesSnoc(s: seq<Rgb>, i: nat)
    requires i < |s|
    ensures Bytes(s[..i + 1]) == Bytes(s[..i]) + [HighByte(Pack565(s[i])), LowByte(Pack565(s[i]))]
  {
    assert s[..i + 1][..i] == s[..i];
  }

  /** Pixel `i` goes to bytes `2 * i` (high) and `2 * i + 1` (low). */
  lemma {:induction false} BytesAt(s: seq<Rgb>, i: nat)
    requires i < |s|
    ensures Bytes(s)[2 * i] == HighByte(Pack565(s[i]))
    ensures Bytes(s)[2 * i + 1] == LowByte(Pack565(s[i]))
  {
    var n := |s| - 1;
    if i < n {
      BytesAt(s[..n], i);
      assert s[..n][i] == s[i];
    }
  }

  /** A white pixel is encoded as `0xff, 0xff`. */
  lemma WhiteBytes()
    ensures Bytes([Rgb(0xFF, 0xFF, 0xFF)]) == [0xFF, 0xFF]
  {
    assert Pack565(Rgb(0xFF, 0xFF, 0xFF)) == 0xFFFF;
  }

  /** A black pixel is encoded as `0x00, 0x00`. */
  lemma BlackBytes()
    ensures Bytes([Rgb(0, 0, 0)]) == [0, 0]
  {
    assert Pack565(Rgb(0, 0, 0)) == 0;
  }

  /**
   * The Rgb565 arm of the encoder: walks the pixels in row-major order,
   * builds each pixel's word from its three channels and pushes the high
   * byte, then the low byte.
   */
  method Encode(img: Image) returns (outPixels: seq<bv8>)
    requires img.Valid()
    ensures outPixels == Bytes(PixelsOf(img))
    ensures |outPixels| == 2 * (img.width * img.height)
    ensures forall i :: 0 <= i < |PixelsOf(img)| ==>
      outPixels[2 * i] == HighByte(Pack565(PixelsOf(img)[i])) &&
      outPixels[2 * i + 1] == LowByte(Pack565(PixelsOf(img)[i]))
  {
    var pixels := PixelsOf(img);
    outPixels := [];
    for i := 0 to |pixels|
      invariant outPixels == Bytes(pixels[..i])
    {
      var pixel := pixels[i];
      var red, green, blue := pixel.r, pixel.g, pixel.b;
      var byte16: bv16 := (((red & 0xF8) as bv16) << 8) | (((green & 0xFC) as bv16) << 3) | ((blue as bv16) >> 3);
      outPixels := outPixels + [HighByte(byte16)];
      outPixels := outPixels + [LowByte(byte16)];
      BytesSnoc(pixels, i);
    }
    assert pixels[..|pixels|] == pixels;
    forall i | 0 <= i < |pixels|
      ensures outPixels[2 * i] == HighByte(Pack565(pixels[i]))
      ensures outPixels[2 * i + 1] == LowByte(Pack565(pixels[i]))
    {
      BytesAt(pixels, i);
    }
    FlattenLength(img.rows, img.width);
  }
}
