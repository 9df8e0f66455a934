/** The shell's mouse handling: clamped erase-then-draw moves. */
module MouseMoves {
  import opened Machine
  import opened Framebuffers
  import opened MousePackets
  import C = MouseCursor

  const CURSOR_W: int := 20
  const CURSOR_H: int := 20
  const I32_MAX: int := 0x7FFF_FFFF

  function Clamp(v: int, lo: int, hi: int): int { if v < lo then lo else if v > hi then hi else v }

  /** `v` is the target itself if that lies between 0 and `hi`, and the bound next to it otherwise. */
  predicate Nearest(v: int, target: int, hi: int) {
    0 <= v <= hi && (0 <= target <= hi ==> v == target) && (target < 0 ==> v == 0) && (target > hi ==> v == hi)
  }

  /** A screen the clamp is made for, with room for signed 32-bit sums. */
  predicate Roomy(g: Geometry) {
    && IsDrawable(g)
    && CURSOR_W <= g.width <= I32_MAX - 256 + CURSOR_W
    && CURSOR_H <= g.height <= I32_MAX - 256 + CURSOR_H
  }

  predicate Inside(g: Geometry, x: int, y: int) { 0 <= x <= g.width - CURSOR_W && 0 <= y <= g.height - CURSOR_H }

  /** Where the pointer is after the moves. */
  function Moved(g: Geometry, at: (int, int), events: seq<MouseEvent>): (int, int) {
    if events == [] then at
    else
      var p, e := Moved(g, at, events[..|events| - 1]), events[|events| - 1];
      (Clamp(p.0 + e.dx, 0, g.width - CURSOR_W), Clamp(p.1 + e.dy, 0, g.height - CURSOR_H))
  }

  class Pointer {
    var x: int
    var y: int
    const cursor: C.MouseCursor

    ghost predicate Showing(fb: Framebuffer, background: seq<Byte>)
      reads this, cursor, cursor.savedUnder, fb.bytes
    {
      && cursor.Over(fb, background) && Inside(fb.g, x, y)
      && (cursor.position == None || cursor.position == Some((x, y)))
    }

    constructor ()
      ensures x == 0 && y == 0 && cursor.Valid() && cursor.position == None && fresh(cursor) && fresh(cursor.savedUnder)
    {
      x, y := 0, 0;
      cursor := new C.MouseCursor();
    }

    /** Moves the cursor; it is always drawn at the new place, over the same background. */
    method Move(fb: Framebuffer, e: MouseEvent, ghost background: seq<Byte>)
      requires Showing(fb, background) && Roomy(fb.g) && Sendable(e)
      modifies this, cursor, cursor.savedUnder, fb.bytes
      ensures Showing(fb, background) && cursor.position == Some((x, y))
      ensures x == Clamp(old(x) + e.dx, 0, fb.g.width - CURSOR_W)
      ensures y == Clamp(old(y) + e.dy, 0, fb.g.height - CURSOR_H)
      ensures Nearest(x, old(x) + e.dx, fb.g.width - CURSOR_W) && Nearest(y, old(y) + e.dy, fb.g.height - CURSOR_H)
    {
      cursor.Erase(fb, background);
      assert -I32_MAX <= x + e.dx <= I32_MAX && -I32_MAX <= y + e.dy <= I32_MAX;
      x := Clamp(x + e.dx, 0, fb.g.width - CURSOR_W);
      y := Clamp(y + e.dy, 0, fb.g.height - CURSOR_H);
      cursor.Draw(fb, x, y);
    }

    /** However the mouse moves, the cursor ends where the clamped sum of the moves leads, no move fails to show it, and
        erasing it brings back exactly the image it was moved over. */
    method MoveAll(fb: Framebuffer, events: seq<MouseEvent>, ghost background: seq<Byte>)
      requires Showing(fb, background) && Roomy(fb.g)
      requires forall i :: 0 <= i < |events| ==> Sendable(events[i])
      modifies this, cursor, cursor.savedUnder, fb.bytes
      ensures (x, y) == Moved(fb.g, (old(x), old(y)), events)
      ensures fb.bytes[..] == background && cursor.position == None
    {
      ghost var start := (x, y);
      assert events[..0] == [];
      for i := 0 to |events|
        invariant Showing(fb, background) && (i > 0 ==> cursor.position == Some((x, y)))
        invariant (x, y) == Moved(fb.g, start, events[..i])
      {
        Move(fb, events[i], background);
        assert events[..i + 1][..i] == events[..i];
      }
      assert events[..|events|] == events;
      cursor.Erase(fb, background);
    }
  }
}
