/**
 * The visibility mask of the app module (createMask): the RGBA bytes of a canvas of
 * the view's size, row-major, four bytes per pixel. A pixel is visible when its alpha
 * byte is non-zero; the field builder also paints the overlay colour into it.
 */
module Masks {
  import opened Values

  /** An [r, g, b, a] colour as stored in a Uint8ClampedArray. */
  datatype Rgba = Rgba(r: byte, g: byte, b: byte, a: byte)

  /** TRANSPARENT_BLACK. */
  const TransparentBlack: Rgba := Rgba(0, 0, 0, 0)

  /** The offset of pixel (x, y)'s red byte: (y * width + x) * 4. */
  function PixelOffset(width: int, x: int, y: int): int
  {
    (y * width + x) * 4
  }

  /**
   * isVisible: the alpha byte is non-zero. A read outside the buffer yields undefined,
   * and undefined > 0 is false.
   */
  predicate Visible(data: seq<byte>, width: int, x: int, y: int)
  {
    var i := PixelOffset(width, x, y) + 3;
    0 <= i < |data| && data[i] > 0
  }

  /** A typed-array store: ignored outside the buffer. */
  function WriteByte(data: seq<byte>, i: int, b: byte): (r: seq<byte>)
    ensures |r| == |data|
    ensures forall k :: 0 <= k < |data| ==> r[k] == (if k == i then b else data[k])
  {
    if 0 <= i < |data| then data[i := b] else data
  }

  /** set: the four bytes of pixel (x, y) become r, g, b, a. */
  function SetPixel(data: seq<byte>, width: int, x: int, y: int, c: Rgba): (r: seq<byte>)
    ensures |r| == |data|
  {
    var i := PixelOffset(width, x, y);
    WriteByte(WriteByte(WriteByte(WriteByte(data, i, c.r), i + 1, c.g), i + 2, c.b), i + 3, c.a)
  }

  /** set overwrites exactly the four bytes of the pixel and keeps every other byte. */
  lemma SetPixelWrites(data: seq<byte>, width: int, x: int, y: int, c: Rgba)
    ensures var i, r := PixelOffset(width, x, y), SetPixel(data, width, x, y, c);
            forall k :: 0 <= k < |data| ==>
              r[k] == (if k == i then c.r else if k == i + 1 then c.g else if k == i + 2 then c.b
                       else if k == i + 3 then c.a else data[k])
  {
  }

  /** After set, the pixel is visible exactly when the colour's alpha is non-zero. */
  lemma VisibleAfterSet(data: seq<byte>, width: int, x: int, y: int, c: Rgba)
    requires 0 <= PixelOffset(width, x, y) && PixelOffset(width, x, y) + 3 < |data|
    ensures Visible(SetPixel(data, width, x, y, c), width, x, y) <==> c.a > 0
  {
  }

  /** A positive multiple of a positive width is at least the width. */
  lemma MultipleAtLeast(k: int, width: int)
    requires k >= 1 && width > 0
    ensures k * width >= width
  {
  }

  /** Row-major indexing is injective on pixels whose column lies in [0, width). */
  lemma FlatIndexInjective(width: int, px: int, py: int, qx: int, qy: int)
    requires 0 <= px < width && 0 <= qx < width
    requires py * width + px == qy * width + qx
    ensures px == qx && py == qy
  {
    if py > qy {
      MultipleAtLeast(py - qy, width);
    } else if py < qy {
      MultipleAtLeast(qy - py, width);
    }
  }

  /** The byte ranges of two different pixels do not overlap. */
  lemma PixelsDisjoint(width: int, px: int, py: int, qx: int, qy: int)
    requires 0 <= px < width && 0 <= qx < width && (px, py) != (qx, qy)
    ensures PixelOffset(width, px, py) + 4 <= PixelOffset(width, qx, qy)
         || PixelOffset(width, qx, qy) + 4 <= PixelOffset(width, px, py)
  {
    if py * width + px == qy * width + qx {
      FlatIndexInjective(width, px, py, qx, qy);
    }
  }

  /** set on one pixel does not change whether another pixel is visible. */
  lemma SetPixelFrame(data: seq<byte>, width: int, px: int, py: int, qx: int, qy: int, c: Rgba)
    requires 0 <= px < width && 0 <= qx < width && (px, py) != (qx, qy)
    ensures Visible(SetPixel(data, width, px, py, c), width, qx, qy) == Visible(data, width, qx, qy)
  {
    PixelsDisjoint(width, px, py, qx, qy);
    SetPixelWrites(data, width, px, py, c);
  }

  /** A typed-array read: the byte at i, or undefined outside the buffer. */
  function ByteAt(data: seq<byte>, i: int): Option<byte>
  {
    if 0 <= i < |data| then Some(data[i]) else None
  }

  /** The four bytes that pixel (x, y) reads as. */
  function PixelRead(data: seq<byte>, width: int, x: int, y: int): (Option<byte>, Option<byte>, Option<byte>, Option<byte>)
  {
    var i := PixelOffset(width, x, y);
    (ByteAt(data, i), ByteAt(data, i + 1), ByteAt(data, i + 2), ByteAt(data, i + 3))
  }

  /** Component j (0 red, 1 green, 2 blue, 3 alpha) of a colour. */
  function Channel(c: Rgba, j: int): byte
  {
    if j == 0 then c.r else if j == 1 then c.g else if j == 2 then c.b else c.a
  }

  /** Every byte of pixel (x, y) that lies inside the buffer holds the matching component of c. */
  predicate HasColor(data: seq<byte>, width: int, x: int, y: int, c: Rgba)
  {
    var p := PixelRead(data, width, x, y);
    && (p.0.Some? ==> p.0.value == c.r) && (p.1.Some? ==> p.1.value == c.g)
    && (p.2.Some? ==> p.2.value == c.b) && (p.3.Some? ==> p.3.value == c.a)
  }

  /** Byte k is one of the four bytes of pixel (x, y). */
  predicate InPixel(width: int, x: int, y: int, k: int)
  {
    PixelOffset(width, x, y) <= k < PixelOffset(width, x, y) + 4
  }

  /** set, byte by byte: a byte of the pixel gets its component, and every other byte stays. */
  lemma SetPixelBytes(data: seq<byte>, width: int, x: int, y: int, c: Rgba)
    ensures var r := SetPixel(data, width, x, y, c);
            forall k :: 0 <= k < |data| ==> r[k] == (if InPixel(width, x, y, k) then Channel(c, k % 4) else data[k])
  {
    SetPixelWrites(data, width, x, y, c);
  }

  /** Pixels read the same wherever the bytes agree, and so are equally visible. */
  lemma ReadSameVisible(data: seq<byte>, data': seq<byte>, width: int, x: int, y: int)
    requires PixelRead(data', width, x, y) == PixelRead(data, width, x, y)
    ensures Visible(data', width, x, y) == Visible(data, width, x, y)
  {
    var i := PixelOffset(width, x, y) + 3;
    assert ByteAt(data', i) == ByteAt(data, i);
  }

  /** The mask object: a canvas's RGBA bytes and its width. */
  class Mask {
    const width: int
    const height: int
    const data: array<byte>

    /** The bytes the canvas holds once the mask polygon has been filled in. */
    constructor (width: nat, height: nat, pixels: seq<byte>)
      requires |pixels| == width * height * 4
      ensures this.width == width && this.height == height
      ensures fresh(data) && data[..] == pixels
    {
      this.width := width;
      this.height := height;
      data := new byte[|pixels|] (i requires 0 <= i < |pixels| => pixels[i]);
    }

    /** isVisible. */
    function IsVisible(x: int, y: int): (b: bool)
      reads data
      ensures b == Visible(data[..], width, x, y)
    {
      var i := (y * width + x) * 4 + 3;
      0 <= i < data.Length && data[i] > 0
    }

    /** set: store the four components of c at pixel (x, y). */
    method Set(x: int, y: int, c: Rgba)
      modifies data
      ensures data[..] == SetPixel(old(data[..]), width, x, y, c)
    {
      var i := (y * width + x) * 4;
      ghost var bytes := data[..];
      if 0 <= i < data.Length { data[i] := c.r; }
      bytes := WriteByte(bytes, i, c.r);
      assert data[..] == bytes;
      if 0 <= i + 1 < data.Length { data[i + 1] := c.g; }
      bytes := WriteByte(bytes, i + 1, c.g);
      assert data[..] == bytes;
      if 0 <= i + 2 < data.Length { data[i + 2] := c.b; }
      bytes := WriteByte(bytes, i + 2, c.b);
      assert data[..] == bytes;
      if 0 <= i + 3 < data.Length { data[i + 3] := c.a; }
      bytes := WriteByte(bytes, i + 3, c.a);
      assert data[..] == bytes;
    }
  }
}
