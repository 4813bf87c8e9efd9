/**
  The pixel write (`assign_color` in ray_tracer.js). The buffer is the
  canvas's `ImageData.data`, a `Uint8ClampedArray`: every stored value is
  first converted by ECMAScript's ToUint8Clamp (clamp to 0..255, round to
  nearest, ties to even), and a store to an index outside the array does
  nothing.
*/
module Pixels {
  import opened Vectors

  type Byte = x: int | 0 <= x < 256

  /** The alpha channel is always written as fully opaque. */
  const Opaque: Byte := 255

  /**
    ECMAScript ToUint8Clamp on a finite number: 0 at or below 0, 255 at or
    above 255, otherwise the nearest integer, an exact half going to the
    even neighbour.
  */
  function ToUint8Clamp(v: real): (b: Byte)
    ensures v <= 0.0 ==> b == 0
    ensures v >= 255.0 ==> b == 255
    ensures 0.0 < v < 255.0 ==> -0.5 <= b as real - v <= 0.5
    ensures 0.0 < v < 255.0 && (b as real - v == 0.5 || v - b as real == 0.5) ==> b % 2 == 0
  {
    if v <= 0.0 then 0
    else if v >= 255.0 then 255
    else
      var f := v.Floor;
      var frac := v - f as real;
      if frac < 0.5 then f
      else if frac > 0.5 then f + 1
      else if f % 2 == 0 then f
      else f + 1
  }

  /** Index of the red channel of pixel (r, c) in a row-major RGBA buffer of the given width. */
  function PixelOffset(r: int, c: int, width: int): int {
    r * width * 4 + c * 4
  }

  /** A store into a typed array: ignored when the index is out of range. */
  function Store(data: seq<Byte>, i: int, b: Byte): (out: seq<Byte>)
    ensures |out| == |data|
    ensures forall j :: 0 <= j < |data| ==> out[j] == if j == i then b else data[j]
  {
    if 0 <= i < |data| then data[i := b] else data
  }

  /**
    The buffer after `assign_color(raw_data, r, c, width, color)`: the
    three colour channels and an opaque alpha at the pixel's four slots
    (where they exist), every other element as it was.
  */
  function WritePixel(data: seq<Byte>, r: int, c: int, width: int, color: Vec3): (out: seq<Byte>)
    ensures |out| == |data|
    ensures var o := PixelOffset(r, c, width);
      forall j :: 0 <= j < |data| ==>
        out[j] == if j == o then ToUint8Clamp(color.x)
                  else if j == o + 1 then ToUint8Clamp(color.y)
                  else if j == o + 2 then ToUint8Clamp(color.z)
                  else if j == o + 3 then Opaque
                  else data[j]
  {
    var o := PixelOffset(r, c, width);
    var d1 := Store(data, o, ToUint8Clamp(color.x));
    var d2 := Store(d1, o + 1, ToUint8Clamp(color.y));
    var d3 := Store(d2, o + 2, ToUint8Clamp(color.z));
    Store(d3, o + 3, Opaque)
  }

  /** `assign_color`: four stores into the buffer, in channel order. */
  method AssignColor(rawData: array<Byte>, r: int, c: int, width: int, color: Vec3)
    modifies rawData
    ensures rawData[..] == WritePixel(old(rawData[..]), r, c, width, color)
  {
    var o := PixelOffset(r, c, width);
    if 0 <= o < rawData.Length {
      rawData[o] := ToUint8Clamp(color.x);
    }
    if 0 <= o + 1 < rawData.Length {
      rawData[o + 1] := ToUint8Clamp(color.y);
    }
    if 0 <= o + 2 < rawData.Length {
      rawData[o + 2] := ToUint8Clamp(color.z);
    }
    if 0 <= o + 3 < rawData.Length {
      rawData[o + 3] := Opaque;
    }
  }

  /** Writing the same pixel twice with the same colour is the same as writing it once. */
  lemma WritePixelIdempotent(data: seq<Byte>, r: int, c: int, width: int, color: Vec3)
    ensures WritePixel(WritePixel(data, r, c, width, color), r, c, width, color)
         == WritePixel(data, r, c, width, color)
  {
    var once := WritePixel(data, r, c, width, color);
    var twice := WritePixel(once, r, c, width, color);
    assert forall j :: 0 <= j < |data| ==> twice[j] == once[j];
  }

  /**
    Distinct pixels of a row whose column lies in 0..width-1 own disjoint
    groups of four slots.
  */
  lemma PixelSlotsDisjoint(r1: int, c1: int, r2: int, c2: int, width: int)
    requires 0 <= c1 < width && 0 <= c2 < width
    requires r1 != r2 || c1 != c2
    ensures PixelOffset(r1, c1, width) + 4 <= PixelOffset(r2, c2, width)
         || PixelOffset(r2, c2, width) + 4 <= PixelOffset(r1, c1, width)
  {
    if r1 < r2 {
      RowsApart(r1, c1, r2, c2, width);
    } else if r2 < r1 {
      RowsApart(r2, c2, r1, c1, width);
    }
  }

  lemma RowsApart(r1: int, c1: int, r2: int, c2: int, width: int)
    requires 0 <= c1 < width && 0 <= c2 < width && r1 < r2
    ensures PixelOffset(r1, c1, width) + 4 <= PixelOffset(r2, c2, width)
  {
    var k := r2 - r1;
    assert k * width >= width by {
      assert k * width == (k - 1) * width + width;
      NonNegativeIntProduct(k - 1, width);
    }
    calc {
      PixelOffset(r2, c2, width) - PixelOffset(r1, c1, width);
      4 * (r2 * width - r1 * width) + 4 * (c2 - c1);
      4 * (k * width) + 4 * (c2 - c1);
    >=
      4 * width + 4 * (c2 - c1);
    >=
      4;
    }
  }

  lemma NonNegativeIntProduct(x: int, y: int)
    requires x >= 0 && y >= 0
    ensures x * y >= 0
  {
  }

  /** Writes to two different pixels of the image do not interfere: their order does not matter. */
  lemma WritesCommute(data: seq<Byte>, r1: int, c1: int, color1: Vec3, r2: int, c2: int, color2: Vec3, width: int)
    requires 0 <= c1 < width && 0 <= c2 < width
    requires r1 != r2 || c1 != c2
    ensures WritePixel(WritePixel(data, r1, c1, width, color1), r2, c2, width, color2)
         == WritePixel(WritePixel(data, r2, c2, width, color2), r1, c1, width, color1)
  {
    PixelSlotsDisjoint(r1, c1, r2, c2, width);
    var a := WritePixel(WritePixel(data, r1, c1, width, color1), r2, c2, width, color2);
    var b := WritePixel(WritePixel(data, r2, c2, width, color2), r1, c1, width, color1);
    assert forall j :: 0 <= j < |data| ==> a[j] == b[j];
  }
}
