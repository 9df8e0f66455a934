/** The software mouse cursor: saving what it covers, drawing it, and putting the covered pixels back. */
module MouseCursor {
  import opened Machine
  import opened Framebuffers

  const CURSOR_SIZE: nat := 5
  const CURSOR_PIXELS: nat := 25

  predicate CursorFits(g: Geometry, x: nat, y: nat) {
    IsDrawable(g) && x + CURSOR_SIZE <= g.width && y + CURSOR_SIZE <= g.height
  }

  /** The pixel under cell `i` of the cursor, cells counted row by row. */
  function CellPixel(stride: nat, x: nat, y: nat, i: nat): nat {
    RowStart(y + i / CURSOR_SIZE, stride) + (x + i % CURSOR_SIZE)
  }

  lemma CellFits(g: Geometry, x: nat, y: nat, i: nat)
    requires CursorFits(g, x, y) && i < CURSOR_PIXELS
    ensures 4 * CellPixel(g.stride, x, y, i) + 4 <= g.byteLen
  {
    OnScreenFits(g, x + i % CURSOR_SIZE, y + i / CURSOR_SIZE);
  }

  /** The colour under a cell. */
  function CellColor(s: seq<Byte>, g: Geometry, x: nat, y: nat, i: nat): Color
    requires CursorFits(g, x, y) && |s| == g.byteLen && i < CURSOR_PIXELS
  {
    CellFits(g, x, y, i);
    PixelRead(s, g.format, CellPixel(g.stride, x, y, i))
  }

  /** The cells below `n` hold the colours under them. */
  ghost predicate Saved(saved: seq<Color>, s: seq<Byte>, g: Geometry, x: nat, y: nat, n: nat)
    requires CursorFits(g, x, y) && |s| == g.byteLen && n <= CURSOR_PIXELS == |saved|
  {
    forall i :: 0 <= i < n ==> saved[i] == CellColor(s, g, x, y, i)
  }

  /** `s` with the cells below `n` written back. */
  function WrittenBack(s: seq<Byte>, g: Geometry, saved: seq<Color>, x: nat, y: nat, n: nat): (t: seq<Byte>)
    requires CursorFits(g, x, y) && |s| == g.byteLen && n <= CURSOR_PIXELS == |saved|
    ensures |t| == |s|
  {
    if n == 0 then s
    else
      CellFits(g, x, y, n - 1);
      PixelWritten(WrittenBack(s, g, saved, x, y, n - 1), g.format, CellPixel(g.stride, x, y, n - 1), saved[n - 1])
  }

  /** What drawing the cursor makes of the bytes. */
  ghost function WithCursor(s: seq<Byte>, g: Geometry, x: nat, y: nat): seq<Byte>
    requires CursorFits(g, x, y)
  {
    Painted(s, g.format, WHITE, RectPixels(g.stride, x, y, CURSOR_SIZE, CURSOR_SIZE))
  }

  // ------------------------------------------------------- erasing undoes drawing

  /** The pixels of `area` from one image, the others from another. */
  ghost function Mixed(s: seq<Byte>, t: seq<Byte>, area: set<nat>): seq<Byte>
    requires |s| == |t|
  {
    seq(|s|, b requires 0 <= b < |s| => if PixelOf(b) in area then s[b] else t[b])
  }

  /** The two images agree on every byte that is no colour. */
  ghost predicate SamePadding(s: seq<Byte>, t: seq<Byte>) {
    |s| == |t| && forall b: nat :: b < |s| && ChannelOf(b) >= 3 ==> s[b] == t[b]
  }

  lemma MixOne(s: seq<Byte>, t: seq<Byte>, format: PixelFormat, area: set<nat>, p: nat)
    requires format != Unsupported && SamePadding(s, t) && 4 * p + 4 <= |s|
    ensures PixelWritten(Mixed(s, t, area), format, p, PixelRead(s, format, p)) == Mixed(s, t, area + {p})
  {
    var before, after := Mixed(s, t, area), Mixed(s, t, area + {p});
    forall b: nat | b < |s| ensures PixelWritten(before, format, p, PixelRead(s, format, p))[b] == after[b] {
      WrittenByte(before, format, p, PixelRead(s, format, p), b);
      if PixelOf(b) == p && ChannelOf(b) < 3 { ReadChannel(s, format, b); }
    }
  }

  function CellArea(stride: nat, x: nat, y: nat, n: nat): (area: set<nat>)
    ensures forall i: nat :: i < n ==> CellPixel(stride, x, y, i) in area
  {
    if n == 0 then {} else CellArea(stride, x, y, n - 1) + {CellPixel(stride, x, y, n - 1)}
  }

  lemma RectIsCells(stride: nat, x: nat, y: nat, p: nat)
    requires p in RectPixels(stride, x, y, CURSOR_SIZE, CURSOR_SIZE)
    ensures p in CellArea(stride, x, y, CURSOR_PIXELS)
  {
    InRect(stride, x, y, CURSOR_SIZE, CURSOR_SIZE, p);
    var r: nat :| y <= r < y + CURSOR_SIZE && RowStart(r, stride) + x <= p < RowStart(r, stride) + x + CURSOR_SIZE;
    var i := (r - y) * CURSOR_SIZE + (p - RowStart(r, stride) - x);
    assert i / CURSOR_SIZE == r - y && i % CURSOR_SIZE == p - RowStart(r, stride) - x;
    assert p == CellPixel(stride, x, y, i);
  }

  lemma {:induction false} WritingBackMixes(s: seq<Byte>, t: seq<Byte>, g: Geometry, saved: seq<Color>,
                                            x: nat, y: nat, n: nat)
    requires CursorFits(g, x, y) && |s| == g.byteLen && SamePadding(s, t) && n <= CURSOR_PIXELS == |saved|
    requires Saved(saved, s, g, x, y, CURSOR_PIXELS)
    ensures WrittenBack(t, g, saved, x, y, n) == Mixed(s, t, CellArea(g.stride, x, y, n))
  {
    if n > 0 {
      WritingBackMixes(s, t, g, saved, x, y, n - 1);
      CellFits(g, x, y, n - 1);
      MixOne(s, t, g.format, CellArea(g.stride, x, y, n - 1), CellPixel(g.stride, x, y, n - 1));
      assert saved[n - 1] == CellColor(s, g, x, y, n - 1);
    }
  }

  /** Writing back what was saved under a drawn cursor gives the image without it, byte for byte. */
  lemma EraseUndoesDraw(s: seq<Byte>, g: Geometry, saved: seq<Color>, x: nat, y: nat)
    requires CursorFits(g, x, y) && |s| == g.byteLen && |saved| == CURSOR_PIXELS
    requires Saved(saved, s, g, x, y, CURSOR_PIXELS)
    ensures WrittenBack(WithCursor(s, g, x, y), g, saved, x, y, CURSOR_PIXELS) == s
  {
    var t, cells := WithCursor(s, g, x, y), CellArea(g.stride, x, y, CURSOR_PIXELS);
    WritingBackMixes(s, t, g, saved, x, y, CURSOR_PIXELS);
    forall b: nat | b < |s| ensures Mixed(s, t, cells)[b] == s[b] {
      if PixelOf(b) in RectPixels(g.stride, x, y, CURSOR_SIZE, CURSOR_SIZE) { RectIsCells(g.stride, x, y, PixelOf(b)); }
    }
  }

  class MouseCursor {
    var position: Option<(nat, nat)>
    const savedUnder: array<Color>

    ghost predicate Valid() { savedUnder.Length == CURSOR_PIXELS }

    /** The cursor is drawn over `background`, or nothing is. */
    ghost predicate Over(fb: Framebuffer, background: seq<Byte>)
      reads this, savedUnder, fb.bytes
    {
      && Valid() && fb.Valid() && |background| == fb.g.byteLen
      && match position
         case None => fb.bytes[..] == background
         case Some((x, y)) =>
           && CursorFits(fb.g, x, y) && fb.bytes[..] == WithCursor(background, fb.g, x, y)
           && Saved(savedUnder[..], background, fb.g, x, y, CURSOR_PIXELS)
    }

    constructor ()
      ensures Valid() && position == None && fresh(savedUnder)
    {
      savedUnder := new Color[CURSOR_PIXELS](_ => BLACK);
      position := None;
    }

    method SaveUnder(fb: Framebuffer, x: nat, y: nat)
      requires Valid() && fb.Valid() && CursorFits(fb.g, x, y)
      modifies savedUnder
      ensures Saved(savedUnder[..], fb.bytes[..], fb.g, x, y, CURSOR_PIXELS)
    {
      for row := 0 to CURSOR_SIZE
        invariant Saved(savedUnder[..], fb.bytes[..], fb.g, x, y, row * CURSOR_SIZE)
      {
        for col := 0 to CURSOR_SIZE
          invariant Saved(savedUnder[..], fb.bytes[..], fb.g, x, y, row * CURSOR_SIZE + col)
        {
          var c := fb.ReadPixel(x + col, y + row);
          var i := row * CURSOR_SIZE + col;
          assert i / CURSOR_SIZE == row && i % CURSOR_SIZE == col;
          savedUnder[i] := c;
        }
      }
    }

    /** Draws the cursor where all of it fits, over what it has just saved; elsewhere nothing changes. */
    method Draw(fb: Framebuffer, x: U64, y: U64)
      requires Valid() && fb.Valid()
      modifies this`position, savedUnder, fb.bytes
      ensures position == if CursorFits(fb.g, x, y) then Some((x, y)) else old(position)
      ensures CursorFits(fb.g, x, y) ==> Over(fb, old(fb.bytes[..]))
      ensures !CursorFits(fb.g, x, y) ==> fb.bytes[..] == old(fb.bytes[..]) && savedUnder[..] == old(savedUnder[..])
      ensures forall b :: 0 <= b < fb.bytes.Length ==>
        fb.bytes[b] == if IsDrawable(fb.g) && x + CURSOR_SIZE <= fb.g.width && y + CURSOR_SIZE <= fb.g.height
                          && exists col: nat, row: nat ::
                               InBox(col, row, x, y, CURSOR_SIZE, CURSOR_SIZE) && ColorByte(fb.g, b, col, row)
                       then 0xFF else old(fb.bytes[b])
    {
      if x + CURSOR_SIZE > U64_MAX || y + CURSOR_SIZE > U64_MAX {
        return;
      }
      if !IsDrawable(fb.g) || x + CURSOR_SIZE > fb.g.width || y + CURSOR_SIZE > fb.g.height {
        return;
      }
      SaveUnder(fb, x, y);
      position := Some((x, y));
      fb.DrawRec(x, y, CURSOR_SIZE, CURSOR_SIZE, WHITE);
    }

    method WriteCell(fb: Framebuffer, x: nat, y: nat, row: nat, col: nat, ghost start: seq<Byte>)
      requires Valid() && fb.Valid() && CursorFits(fb.g, x, y) && row < CURSOR_SIZE && col < CURSOR_SIZE
      requires |start| == fb.g.byteLen
      requires fb.bytes[..] == WrittenBack(start, fb.g, savedUnder[..], x, y, row * CURSOR_SIZE + col)
      modifies fb.bytes
      ensures fb.bytes[..] == WrittenBack(start, fb.g, savedUnder[..], x, y, row * CURSOR_SIZE + col + 1)
    {
      var i := row * CURSOR_SIZE + col;
      assert i / CURSOR_SIZE == row && i % CURSOR_SIZE == col;
      CellFits(fb.g, x, y, i);
      var _ := fb.WritePixel(RowStart(y + row, fb.g.stride) + (x + col), savedUnder[i]);
    }

    method WriteBack(fb: Framebuffer, x: nat, y: nat)
      requires Valid() && fb.Valid() && CursorFits(fb.g, x, y)
      modifies fb.bytes
      ensures fb.bytes[..] == WrittenBack(old(fb.bytes[..]), fb.g, savedUnder[..], x, y, CURSOR_PIXELS)
    {
      ghost var start := fb.bytes[..];
      for row := 0 to CURSOR_SIZE
        invariant fb.bytes[..] == WrittenBack(start, fb.g, savedUnder[..], x, y, row * CURSOR_SIZE)
      {
        for col := 0 to CURSOR_SIZE
          invariant fb.bytes[..] == WrittenBack(start, fb.g, savedUnder[..], x, y, row * CURSOR_SIZE + col)
        {
          WriteCell(fb, x, y, row, col, start);
        }
      }
    }

    /** Takes the cursor away: the saved colours are written back, which gives back the whole background if the cursor
        was drawn over it and nothing else has been drawn since. */
    method Erase(fb: Framebuffer, ghost background: seq<Byte>)
      requires Valid() && fb.Valid()
      requires position.Some? ==> CursorFits(fb.g, position.value.0, position.value.1)
      modifies this`position, fb.bytes
      ensures position == None
      ensures fb.bytes[..] ==
        match old(position)
        case None => old(fb.bytes[..])
        case Some((x, y)) => WrittenBack(old(fb.bytes[..]), fb.g, savedUnder[..], x, y, CURSOR_PIXELS)
      ensures old(Over(fb, background)) ==> fb.bytes[..] == background && Over(fb, background)
    {
      if position.Some? {
        var (x, y) := position.value;
        if Over(fb, background) { EraseUndoesDraw(background, fb.g, savedUnder[..], x, y); }
        position := None;
        WriteBack(fb, x, y);
      }
    }
  }
}
