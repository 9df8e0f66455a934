/** The linear framebuffer: geometry checks, single pixels, rectangles and scrolling over one byte array. */
module Framebuffers {
  import opened Machine

  type Byte = x: int | 0 <= x < 256

  datatype Color = Color(r: Byte, g: Byte, b: Byte)

  const BLACK := Color(0, 0, 0)
  const WHITE := Color(255, 255, 255)

  datatype PixelFormat = Rgb | Bgr | Unsupported

  datatype Geometry = Geometry(width: U64, height: U64, stride: U64, format: PixelFormat, byteLen: U64)

  datatype FramebufferError = UnsupportedPixelFormat | InvalidGeometry | FramebufferTooSmall(required: U64, actual: U64)

  function RequiredByteLen(width: U64, height: U64, stride: U64): Option<U64> {
    if width > stride then None
    else if stride * height > U64_MAX then None
    else if stride * height * 4 > U64_MAX then None
    else Some(stride * height * 4)
  }

  predicate IsDrawable(g: Geometry) {
    var required := RequiredByteLen(g.width, g.height, g.stride);
    g.format != Unsupported && required.Some? && required.value <= g.byteLen
  }

  // ------------------------------------------------------------------- one pixel

  /** Which pixel a byte belongs to, and which of the pixel's four bytes it is. */
  function PixelOf(b: nat): nat { b / 4 }

  function ChannelOf(b: nat): nat { b % 4 }

  lemma ByteOfPixel(b: nat, p: nat, c: nat)
    requires c < 4
    ensures b == 4 * p + c <==> PixelOf(b) == p && ChannelOf(b) == c
  {
  }

  /** The value of a colour's byte `c` in this format. */
  function Channel(format: PixelFormat, color: Color, c: nat): Byte
    requires format != Unsupported && c < 3
  {
    if c == 1 then color.g
    else if (c == 0) == (format == Rgb) then color.r
    else color.b
  }

  /** Writing the three colour bytes of pixel `p`; the fourth is never touched. */
  function PixelWritten(s: seq<Byte>, format: PixelFormat, p: nat, color: Color): seq<Byte>
    requires format != Unsupported && 4 * p + 4 <= |s|
  {
    s[4 * p := Channel(format, color, 0)][4 * p + 1 := Channel(format, color, 1)][4 * p + 2 := Channel(format, color, 2)]
  }

  /** The colour read back from pixel `p`. */
  function PixelRead(s: seq<Byte>, format: PixelFormat, p: nat): Color
    requires format != Unsupported && 4 * p + 4 <= |s|
  {
    if format == Rgb then Color(s[4 * p], s[4 * p + 1], s[4 * p + 2]) else Color(s[4 * p + 2], s[4 * p + 1], s[4 * p])
  }

  lemma WrittenByte(s: seq<Byte>, format: PixelFormat, p: nat, color: Color, b: nat)
    requires format != Unsupported && 4 * p + 4 <= |s| && b < |s|
    ensures PixelWritten(s, format, p, color)[b] ==
            if PixelOf(b) == p && ChannelOf(b) < 3 then Channel(format, color, ChannelOf(b)) else s[b]
  {
    ByteOfPixel(b, p, 0);
    ByteOfPixel(b, p, 1);
    ByteOfPixel(b, p, 2);
  }

  /** What was read from a pixel, written back anywhere, reproduces that pixel's colour bytes. */
  lemma ReadChannel(s: seq<Byte>, format: PixelFormat, b: nat)
    requires format != Unsupported && b < |s| && ChannelOf(b) < 3 && 4 * PixelOf(b) + 4 <= |s|
    ensures Channel(format, PixelRead(s, format, PixelOf(b)), ChannelOf(b)) == s[b]
  {
  }

  /** The pixel in column `x` of row `y` has this colour, in the byte order of the format. */
  predicate Shows(s: seq<Byte>, g: Geometry, x: nat, y: nat, color: Color) {
    var at := 4 * (y * g.stride + x);
    && at + 4 <= |s| && s[at + 1] == color.g
    && s[at] == (if g.format == Rgb then color.r else color.b)
    && s[at + 2] == (if g.format == Rgb then color.b else color.r)
  }

  /** Byte `b` is one of the three colour bytes of the pixel in column `x` of row `y`. */
  predicate ColorByte(g: Geometry, b: nat, x: int, y: int) { b % 4 < 3 && b / 4 == y * g.stride + x }

  /** A pixel all of whose colour bytes are the colour's shows it. */
  lemma ColorBytesShow(s: seq<Byte>, g: Geometry, x: nat, y: nat, color: Color)
    requires g.format != Unsupported && 4 * (y * g.stride + x) + 4 <= |s|
    requires forall b :: 0 <= b < |s| && ColorByte(g, b, x, y) ==> s[b] == Channel(g.format, color, b % 4)
    ensures Shows(s, g, x, y, color)
  {
    var p := y * g.stride + x;
    assert ColorByte(g, 4 * p, x, y) && ColorByte(g, 4 * p + 1, x, y) && ColorByte(g, 4 * p + 2, x, y);
  }

  // --------------------------------------------------------------- sets of pixels

  /** `s` with every pixel of `area` given the colour, byte by byte. */
  ghost function Painted(s: seq<Byte>, format: PixelFormat, color: Color, area: set<nat>): seq<Byte>
    requires format != Unsupported
  {
    seq(|s|, b requires 0 <= b < |s| =>
      if PixelOf(b) in area && ChannelOf(b) < 3 then Channel(format, color, ChannelOf(b)) else s[b])
  }

  /** One more pixel written is one more pixel painted. */
  lemma PaintOne(s: seq<Byte>, format: PixelFormat, color: Color, area: set<nat>, p: nat)
    requires format != Unsupported && 4 * p + 4 <= |s|
    ensures PixelWritten(Painted(s, format, color, area), format, p, color) == Painted(s, format, color, area + {p})
  {
    var before, after := Painted(s, format, color, area), Painted(s, format, color, area + {p});
    forall b: nat | b < |s| ensures PixelWritten(before, format, p, color)[b] == after[b] {
      WrittenByte(before, format, p, color, b);
    }
  }

  lemma PaintNone(s: seq<Byte>, format: PixelFormat, color: Color)
    requires format != Unsupported
    ensures Painted(s, format, color, {}) == s
  {
  }

  /** The index of the first pixel of a row. */
  function RowStart(row: nat, stride: nat): nat { row * stride }

  /** The `w` pixels from `first` on. */
  function RowPixels(first: nat, w: nat): (area: set<nat>)
    ensures forall p: nat :: p in area <==> first <= p < first + w
  {
    if w == 0 then {} else RowPixels(first, w - 1) + {first + w - 1}
  }

  /** The rectangle of `w` by `h` pixels at (`x`, `y`). */
  function RectPixels(stride: nat, x: nat, y: nat, w: nat, h: nat): (area: set<nat>)
  {
    if h == 0 then {} else RectPixels(stride, x, y, w, h - 1) + RowPixels(RowStart(y + h - 1, stride) + x, w)
  }

  lemma {:induction false} InRect(stride: nat, x: nat, y: nat, w: nat, h: nat, p: nat)
    ensures p in RectPixels(stride, x, y, w, h) <==>
            exists r: nat :: y <= r < y + h && RowStart(r, stride) + x <= p < RowStart(r, stride) + x + w
  {
    if h > 0 {
      InRect(stride, x, y, w, h - 1, p);
      var last := y + h - 1;
      if p in RowPixels(RowStart(last, stride) + x, w) {
        assert RowStart(last, stride) + x <= p < RowStart(last, stride) + x + w;
      }
    }
  }

  /** Column `x` of row `y` lies in the rectangle at (`left`, `top`). */
  predicate InBox(x: nat, y: nat, left: nat, top: nat, w: nat, h: nat) { left <= x < left + w && top <= y < top + h }

  /** Painting a rectangle, byte by byte: the colour bytes of its pixels change and no others. */
  lemma RectPainted(s: seq<Byte>, g: Geometry, color: Color, left: nat, top: nat, w: nat, h: nat, b: nat)
    requires g.format != Unsupported && b < |s|
    ensures Painted(s, g.format, color, RectPixels(g.stride, left, top, w, h))[b] ==
            if exists x: nat, y: nat :: InBox(x, y, left, top, w, h) && ColorByte(g, b, x, y)
            then Channel(g.format, color, b % 4) else s[b]
  {
    InRect(g.stride, left, top, w, h, PixelOf(b));
    if x: nat, y: nat :| InBox(x, y, left, top, w, h) && ColorByte(g, b, x, y) {
      assert RowStart(y, g.stride) + left <= PixelOf(b) < RowStart(y, g.stride) + left + w;
    } else if PixelOf(b) in RectPixels(g.stride, left, top, w, h) && b % 4 < 3 {
      var y: nat :| top <= y < top + h && RowStart(y, g.stride) + left <= PixelOf(b) < RowStart(y, g.stride) + left + w;
      assert InBox(PixelOf(b) - RowStart(y, g.stride), y, left, top, w, h);
    }
  }

  lemma ProductGrows(a: nat, b: nat, c: nat)
    requires a <= b
    ensures 0 <= a * c <= b * c
  {
  }

  /** A pixel on the screen is a whole pixel of the buffer. */
  lemma OnScreenFits(g: Geometry, x: nat, y: nat)
    requires IsDrawable(g) && x < g.width && y < g.height
    ensures 4 * (RowStart(y, g.stride) + x) + 4 <= g.byteLen
  {
    ProductGrows(y + 1, g.height, g.stride);
    assert (y + 1) * g.stride == RowStart(y, g.stride) + g.stride;
    assert g.height * g.stride == g.stride * g.height;
  }

  // -------------------------------------------------------------------- scrolling

  /** The visible rows moved up by `rows`, with black rows moving in. */
  function Scrolled(s: seq<Byte>, g: Geometry, rows: nat): seq<Byte>
    requires IsDrawable(g) && |s| == g.byteLen && rows <= g.height
  {
    RowsFit(g, rows);
    var rowBytes := g.stride * 4;
    s[rows * rowBytes..g.height * rowBytes] + seq(rows * rowBytes, _ => 0) + s[g.height * rowBytes..]
  }

  lemma RowsFit(g: Geometry, rows: nat)
    requires IsDrawable(g) && rows <= g.height
    ensures 0 <= rows * (g.stride * 4) <= g.height * (g.stride * 4) <= g.byteLen
    ensures (g.height - rows) * (g.stride * 4) == g.height * (g.stride * 4) - rows * (g.stride * 4)
  {
    ProductGrows(rows, g.height, g.stride * 4);
    Rearranged(g.height, rows, g.stride);
  }

  lemma Rearranged(h: nat, r: nat, s: nat)
    ensures h * (s * 4) == s * h * 4 && (h - r) * (s * 4) == h * (s * 4) - r * (s * 4)
  {
  }

  /** Byte `b` is byte `c` of visible row `r`. */
  predicate RowByte(g: Geometry, b: int, r: int, c: int) {
    0 <= r < g.height && 0 <= c < g.stride * 4 && b == r * (g.stride * 4) + c
  }

  lemma ScrolledByte(s: seq<Byte>, g: Geometry, rows: nat, b: nat)
    requires IsDrawable(g) && |s| == g.byteLen && rows <= g.height && b < |s|
    ensures var shift, end := rows * (g.stride * 4), g.height * (g.stride * 4);
      && 0 <= shift <= end <= |s|
      && Scrolled(s, g, rows)[b] == if b >= end then s[b] else if b + shift < end then s[b + shift] else 0
  {
    RowsFit(g, rows);
  }

  lemma ShiftedRow(width: nat, h: nat, r: nat, rows: nat, c: nat)
    requires c < width
    ensures (r * width + c) + rows * width == (r + rows) * width + c
    ensures r + rows < h <==> (r + rows) * width + c < h * width
  {
    ProductOrder(r + rows, h, width);
    ProductOrder(h, r + rows, width);
  }

  /** Row `r` gets what was `rows` further down; the rows that have nothing below them turn black. */
  lemma ScrolledRow(s: seq<Byte>, g: Geometry, rows: nat, b: nat, r: nat, c: nat)
    requires IsDrawable(g) && |s| == g.byteLen && rows <= g.height && RowByte(g, b, r, c) && b < |s|
    ensures r + rows < g.height ==> TakenFrom(s, Scrolled(s, g, rows)[b], g, r + rows, c)
    ensures r + rows >= g.height ==> Scrolled(s, g, rows)[b] == 0
  {
    var width := g.stride * 4;
    ScrolledByte(s, g, rows, b);
    ShiftedRow(width, g.height, r, 0, c);
    ShiftedRow(width, g.height, r, rows, c);
  }

  /** Row by row, the image `t` is the image `s` scrolled: each row holds what was `rows` below it, and rows that had
      nothing below them are black; bytes past the last row stay. */
  ghost predicate RowsMovedUp(s: seq<Byte>, t: seq<Byte>, g: Geometry, rows: int) {
    && |t| == |s| && (forall b :: g.height * (g.stride * 4) <= b < |s| ==> t[b] == s[b])
    && (forall b, r, c :: 0 <= b < |t| && RowByte(g, b, r, c) ==>
          if r + rows >= g.height then t[b] == 0 else TakenFrom(s, t[b], g, r + rows, c))
  }

  ghost predicate TakenFrom(s: seq<Byte>, v: Byte, g: Geometry, r: int, c: int) {
    forall b :: 0 <= b < |s| && RowByte(g, b, r, c) ==> v == s[b]
  }

  lemma ScrolledIsMovedUp(s: seq<Byte>, g: Geometry, rows: nat)
    requires IsDrawable(g) && |s| == g.byteLen
    ensures RowsMovedUp(s, Scrolled(s, g, Min(rows, g.height)), g, rows)
  {
    var k := Min(rows, g.height);
    RowsFit(g, k);
    var t := Scrolled(s, g, k);
    forall b, r, c | 0 <= b < |t| && RowByte(g, b, r, c)
      ensures if r + rows >= g.height then t[b] == 0 else TakenFrom(s, t[b], g, r + rows, c)
    {
      ScrolledRow(s, g, k, b, r, c);
    }
    forall b | g.height * (g.stride * 4) <= b < |s| ensures t[b] == s[b] {
      ScrolledByte(s, g, k, b);
    }
  }

  lemma RectPixelsNext(stride: nat, x: nat, y: nat, w: nat, row: nat)
    requires y <= row
    ensures RectPixels(stride, x, y, w, row + 1 - y)
         == RectPixels(stride, x, y, w, row - y) + RowPixels(RowStart(row, stride) + x, w)
  {
  }

  class Framebuffer {
    const g: Geometry
    const bytes: array<Byte>

    ghost predicate Valid() { bytes.Length == g.byteLen }

    constructor (g: Geometry, bytes: array<Byte>)
      requires bytes.Length == g.byteLen
      ensures Valid() && this.g == g && this.bytes == bytes
    {
      this.g, this.bytes := g, bytes;
    }

    /** A framebuffer is made exactly for a drawable geometry, and the error says what is missing. */
    static method FromRawParts(bytes: array<Byte>, width: U64, height: U64, stride: U64, format: PixelFormat)
      returns (r: Result<Framebuffer, FramebufferError>)
      requires bytes.Length <= U64_MAX
      ensures r.Ok? <==> IsDrawable(Geometry(width, height, stride, format, bytes.Length))
      ensures r.Ok? <==> format != Unsupported && width <= stride && 4 * (stride * height) <= bytes.Length
      ensures r.Ok? ==> fresh(r.value) && r.value.Valid() && r.value.bytes == bytes
                        && r.value.g == Geometry(width, height, stride, format, bytes.Length)
      ensures format == Unsupported ==> r == Err(UnsupportedPixelFormat)
      ensures r.Err? && format != Unsupported ==>
        r.error == if width > stride || 4 * (stride * height) > U64_MAX then InvalidGeometry
                   else FramebufferTooSmall(4 * (stride * height), bytes.Length)
    {
      if format == Unsupported {
        return Err(UnsupportedPixelFormat);
      }
      var required := RequiredByteLen(width, height, stride);
      if required.None? {
        return Err(InvalidGeometry);
      }
      if bytes.Length < required.value {
        return Err(FramebufferTooSmall(required.value, bytes.Length));
      }
      var fb := new Framebuffer(Geometry(width, height, stride, format, bytes.Length), bytes);
      return Ok(fb);
    }

    /** Black outside the screen; none of the overflow checks can fail on it. */
    method ReadPixel(x: U64, y: U64) returns (c: Color)
      requires Valid()
      ensures IsDrawable(g) && x < g.width && y < g.height ==>
        && 4 * (RowStart(y, g.stride) + x) + 4 <= bytes.Length
        && c == PixelRead(bytes[..], g.format, RowStart(y, g.stride) + x) && Shows(bytes[..], g, x, y, c)
      ensures !(IsDrawable(g) && x < g.width && y < g.height) ==> c == BLACK
    {
      if !IsDrawable(g) || x >= g.width || y >= g.height {
        return BLACK;
      }
      OnScreenFits(g, x, y);
      var row := RowStart(y, g.stride);
      if row > U64_MAX || row + x > U64_MAX || (row + x) * 4 > U64_MAX {
        return BLACK;
      }
      var offset := (row + x) * 4;
      if offset + 4 > bytes.Length {
        return BLACK;
      }
      var first, second, third := bytes[offset], bytes[offset + 1], bytes[offset + 2];
      return if g.format == Rgb then Color(first, second, third) else Color(third, second, first);
    }

    /** Writes exactly when the whole pixel lies in the buffer. */
    method WritePixel(index: U64, color: Color) returns (ok: bool)
      requires Valid()
      modifies bytes
      ensures ok <==> g.format != Unsupported && 4 * index + 4 <= bytes.Length
      ensures bytes[..] == if ok then PixelWritten(old(bytes[..]), g.format, index, color) else old(bytes[..])
      ensures ok ==>
        && bytes[4 * index] == (if g.format == Rgb then color.r else color.b)
        && bytes[4 * index + 1] == color.g
        && bytes[4 * index + 2] == (if g.format == Rgb then color.b else color.r)
      ensures forall b :: 0 <= b < bytes.Length && !(ok && 4 * index <= b < 4 * index + 3) ==> bytes[b] == old(bytes[b])
    {
      if g.format == Unsupported || index * 4 > U64_MAX {
        return false;
      }
      var offset := index * 4;
      if offset + 4 > U64_MAX || offset + 4 > bytes.Length {
        return false;
      }
      var first, third := if g.format == Rgb then color.r else color.b, if g.format == Rgb then color.b else color.r;
      bytes[offset], bytes[offset + 1], bytes[offset + 2] := first, color.g, third;
      return true;
    }

    predicate RectFits(x: nat, y: nat, w: nat, h: nat) {
      IsDrawable(g) && x + w <= g.width && y + h <= g.height
    }

    /** Paints exactly the rectangle if all of it is on the screen, and otherwise nothing. */
    method DrawRec(x: U64, y: U64, w: U64, h: U64, color: Color)
      requires Valid()
      modifies bytes
      ensures bytes[..] ==
        if RectFits(x, y, w, h) then Painted(old(bytes[..]), g.format, color, RectPixels(g.stride, x, y, w, h))
        else old(bytes[..])
      ensures forall b :: 0 <= b < bytes.Length ==>
        bytes[b] == if IsDrawable(g) && x + w <= g.width && y + h <= g.height
                       && exists col: nat, row: nat :: InBox(col, row, x, y, w, h) && ColorByte(g, b, col, row)
                    then Channel(g.format, color, b % 4) else old(bytes[b])
    {
      if !IsDrawable(g) || x + w > U64_MAX || y + h > U64_MAX || x + w > g.width || y + h > g.height {
        return;
      }
      ghost var was := bytes[..];
      DrawRows(x, y, w, h, color);
      forall b: nat | b < bytes.Length ensures bytes[b] ==
        if exists col: nat, row: nat :: InBox(col, row, x, y, w, h) && ColorByte(g, b, col, row)
        then Channel(g.format, color, b % 4) else was[b]
      {
        RectPainted(was, g, color, x, y, w, h, b);
      }
    }

    method DrawRows(x: nat, y: nat, w: nat, h: nat, color: Color)
      requires Valid() && IsDrawable(g) && x + w <= g.width && y + h <= g.height
      modifies bytes
      ensures bytes[..] == Painted(old(bytes[..]), g.format, color, RectPixels(g.stride, x, y, w, h))
    {
      ghost var start := bytes[..];
      PaintNone(start, g.format, color);
      for row := y to y + h
        invariant bytes[..] == Painted(start, g.format, color, RectPixels(g.stride, x, y, w, row - y))
      {
        DrawRow(start, RectPixels(g.stride, x, y, w, row - y), x, row, w, color);
        RectPixelsNext(g.stride, x, y, w, row);
      }
    }

    /** Writes one more pixel of an image that is painted up to here. */
    method PaintPixel(ghost start: seq<Byte>, ghost area: set<nat>, x: nat, y: nat, color: Color)
      requires Valid() && IsDrawable(g) && x < g.width && y < g.height && |start| == bytes.Length
      requires bytes[..] == Painted(start, g.format, color, area)
      modifies bytes
      ensures bytes[..] == Painted(start, g.format, color, area + {RowStart(y, g.stride) + x})
    {
      OnScreenFits(g, x, y);
      PaintOne(start, g.format, color, area, RowStart(y, g.stride) + x);
      var _ := WritePixel(RowStart(y, g.stride) + x, color);
    }

    method DrawRow(ghost start: seq<Byte>, ghost area: set<nat>, x: nat, row: nat, w: nat, color: Color)
      requires Valid() && IsDrawable(g) && x + w <= g.width && row < g.height && |start| == bytes.Length
      requires bytes[..] == Painted(start, g.format, color, area)
      modifies bytes
      ensures bytes[..] == Painted(start, g.format, color, area + RowPixels(RowStart(row, g.stride) + x, w))
    {
      assert area + RowPixels(RowStart(row, g.stride) + x, 0) == area;
      for col := x to x + w
        invariant bytes[..] == Painted(start, g.format, color, area + RowPixels(RowStart(row, g.stride) + x, col - x))
      {
        ghost var done := area + RowPixels(RowStart(row, g.stride) + x, col - x);
        PaintPixel(start, done, col, row, color);
        assert area + RowPixels(RowStart(row, g.stride) + x, col + 1 - x) == done + {RowStart(row, g.stride) + col};
      }
    }

    method Clear(n: nat)
      requires n <= bytes.Length
      modifies bytes
      ensures bytes[..] == seq(n, _ => 0) + old(bytes[n..])
    {
      forall i | 0 <= i < n { bytes[i] := 0; }
    }

    /** The bytes from `cleared` on move to the front, and zeroes take the place of the last of them. */
    method MoveUp(moved: nat, cleared: nat)
      requires moved + cleared <= bytes.Length
      modifies bytes
      ensures bytes[..] == old(bytes[cleared..moved + cleared]) + seq(cleared, _ => 0) + old(bytes[moved + cleared..])
    {
      forall i | 0 <= i < moved { bytes[i] := bytes[cleared + i]; }
      forall i | moved <= i < moved + cleared { bytes[i] := 0; }
    }

    method ScrollRows(rows: U64)
      requires Valid()
      modifies bytes
      ensures bytes[..] == if IsDrawable(g) then Scrolled(old(bytes[..]), g, Min(rows, g.height)) else old(bytes[..])
      ensures IsDrawable(g) ==> RowsMovedUp(old(bytes[..]), bytes[..], g, rows)
    {
      ghost var was := bytes[..];
      if !IsDrawable(g) {
        return;
      }
      ScrolledIsMovedUp(was, g, rows);
      if rows == 0 {
        RowsFit(g, 0);
        return;
      }
      var rowBytes := g.stride * 4;
      RowsFit(g, Min(rows, g.height));
      if rows >= g.height {
        Clear(g.height * rowBytes);
        assert was[g.height * rowBytes..g.height * rowBytes] == [];
        return;
      }
      var moved, cleared := (g.height - rows) * rowBytes, rows * rowBytes;
      assert moved + cleared == g.height * rowBytes;
      MoveUp(moved, cleared);
    }
  }
}
