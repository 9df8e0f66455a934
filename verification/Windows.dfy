/** Marking windows of memory as taken: what stays usable, and when the frame allocator can still be built on the map. */
module Windows {
  import opened Machine
  import opened MemoryMap
  import opened Frames

  /** Where a window starts and how long it is. */
  type Window = (U64, U64)

  function EndOf(w: Window): int { w.0 + w.1 }

  predicate ProperWindow(w: Window) { 0 < w.1 && EndOf(w) <= U64_MAX }

  predicate Inside(a: int, w: Window) { w.0 <= a < EndOf(w) }

  predicate Outside(a: int, ws: seq<Window>) { forall i :: 0 <= i < |ws| ==> !Inside(a, ws[i]) }

  /** The window meets the `n` bytes from `a` on. */
  predicate Meets(a: int, n: int, w: Window) { w.0 < a + n && a < EndOf(w) }

  predicate Clear(a: int, n: int, ws: seq<Window>) { forall i :: 0 <= i < |ws| ==> !Meets(a, n, ws[i]) }

  predicate EndsAt(a: int, ws: seq<Window>) { exists i :: 0 <= i < |ws| && EndOf(ws[i]) == a }

  ghost predicate StartsAligned(rs: Ranges) {
    forall i :: 0 <= i < |rs| && rs[i].kind == Usable ==> rs[i].start % PAGE_SIZE == 0
  }

  /** The window is taken out of the ranges it overlaps, or appended when it overlaps none. */
  ghost predicate Marks(m: Ranges, w: Window, kind: MemoryKind, m': Ranges) {
    && kind != Usable && ProperWindow(w)
    && (m' == Reserve(m, w.0, EndOf(w), kind)
        || (!AnyOverlap(m, w.0, EndOf(w)) && m' == m + [MemoryRange(w.0, w.1, MMIO, kind)]))
  }

  // -------------------------------------------------------------------- shape

  lemma MarksKeepsProper(m: Ranges, w: Window, kind: MemoryKind, m': Ranges)
    requires AllProper(m) && Marks(m, w, kind, m')
    ensures AllProper(m') && (UsableAscending(m) ==> UsableAscending(m'))
  {
    if m' == Reserve(m, w.0, EndOf(w), kind) {
      ReserveKeepsShape(m, w.0, EndOf(w), kind);
      if UsableAscending(m) { ReserveKeepsUsableOrder(m, w.0, EndOf(w), kind); }
    }
  }

  lemma AppendKeepsApart(m: Ranges, w: Window, kind: MemoryKind)
    requires AllProper(m) && PairwiseApart(m) && ProperWindow(w) && !AnyOverlap(m, w.0, EndOf(w))
    ensures PairwiseApart(m + [MemoryRange(w.0, w.1, MMIO, kind)])
  {
    var t := m + [MemoryRange(w.0, w.1, MMIO, kind)];
    forall i, j | 0 <= i < j < |t| ensures MemoryMap.Apart(t[i], t[j]) {
      if j == |m| { assert !Overlaps(m[i], w.0, EndOf(w)); }
    }
  }

  lemma MarksKeepsApart(m: Ranges, w: Window, kind: MemoryKind, m': Ranges)
    requires AllProper(m) && PairwiseApart(m) && Marks(m, w, kind, m')
    ensures PairwiseApart(m')
  {
    if m' == Reserve(m, w.0, EndOf(w), kind) {
      ReserveKeepsShape(m, w.0, EndOf(w), kind);
    } else {
      AppendKeepsApart(m, w, kind);
    }
  }

  // -------------------------------------------------------------- what stays usable

  lemma AppendedIsNotUsable(m: Ranges, w: Window, kind: MemoryKind, a: int)
    requires AllProper(m) && ProperWindow(w) && kind != Usable && !AnyOverlap(m, w.0, EndOf(w))
    ensures KindAt(m + [MemoryRange(w.0, w.1, MMIO, kind)], a) == Some(Usable)
       <==> KindAt(m, a) == Some(Usable) && !Inside(a, w)
  {
    var external := MemoryRange(w.0, w.1, MMIO, kind);
    RangeAtConcat(m, [external], a);
    assert [external][1..] == [];
    forall i | 0 <= i < |m| && m[i].Contains(a) ensures !Inside(a, w) { assert !Overlaps(m[i], w.0, EndOf(w)); }
    if RangeAt(m, a).Some? { var i := RangeAtIndex(m, a); }
  }

  lemma UsableAfterMark(m: Ranges, w: Window, kind: MemoryKind, m': Ranges, a: int)
    requires AllProper(m) && Marks(m, w, kind, m')
    ensures KindAt(m', a) == Some(Usable) <==> KindAt(m, a) == Some(Usable) && !Inside(a, w)
  {
    if m' == Reserve(m, w.0, EndOf(w), kind) {
      ReserveReclassifies(m, w.0, EndOf(w), kind, a);
    } else {
      AppendedIsNotUsable(m, w, kind, a);
    }
  }

  // ------------------------------------------------------- where usable ranges start

  /** The range starts at `a` and holds at least `n` bytes from there. */
  predicate UsableFrom(r: MemoryRange, a: int, n: int) { r.kind == Usable && r.start == a && a + n <= r.End() }

  /** It starts before `a` and holds the `n` bytes from there. */
  predicate UsableAround(r: MemoryRange, a: int, n: int) { r.kind == Usable && r.start < a && a + n <= r.End() }

  predicate UsableStart(rs: Ranges, a: int, n: int) { exists i :: 0 <= i < |rs| && UsableFrom(rs[i], a, n) }

  predicate UsableInterior(rs: Ranges, a: int, n: int) { exists i :: 0 <= i < |rs| && UsableAround(rs[i], a, n) }

  lemma EdgesConcat(xs: Ranges, ys: Ranges, a: int, n: int)
    ensures UsableStart(xs + ys, a, n) <==> UsableStart(xs, a, n) || UsableStart(ys, a, n)
    ensures UsableInterior(xs + ys, a, n) <==> UsableInterior(xs, a, n) || UsableInterior(ys, a, n)
  {
    var zs := xs + ys;
    forall i | 0 <= i < |xs| ensures zs[i] == xs[i] { }
    forall i | 0 <= i < |ys| ensures zs[|xs| + i] == ys[i] { }
    if i :| 0 <= i < |ys| && UsableFrom(ys[i], a, n) { assert UsableFrom(zs[|xs| + i], a, n); }
    if i :| 0 <= i < |ys| && UsableAround(ys[i], a, n) { assert UsableAround(zs[|xs| + i], a, n); }
  }

  lemma EdgesOfOne(r: MemoryRange, a: int, n: int)
    ensures UsableStart([r], a, n) <==> UsableFrom(r, a, n)
    ensures UsableInterior([r], a, n) <==> UsableAround(r, a, n)
  {
    assert [r][0] == r;
  }

  lemma EdgesOfPart(r: MemoryRange, from: U64, to: U64, kind: MemoryKind, a: int, n: int)
    requires to <= U64_MAX && n > 0
    ensures UsableStart(Part(r, from, to, kind), a, n) <==> kind == Usable && a == from && a + n <= to
    ensures UsableInterior(Part(r, from, to, kind), a, n) <==> kind == Usable && from < a && a + n <= to
  {
    if from < to { EdgesOfOne(MemoryRange(from, to - from, r.uefiType, kind), a, n); }
  }

  lemma PieceEdges(r: MemoryRange, w: Window, kind: MemoryKind, a: int, n: int)
    requires Proper(r) && ProperWindow(w) && kind != Usable && n > 0
    ensures var ps := Pieces(r, w.0, EndOf(w), kind);
      && (UsableStart(ps, a, n) <==> (UsableFrom(r, a, n) && !Meets(a, n, w)) || (a == EndOf(w) && UsableAround(r, a, n)))
      && (UsableInterior(ps, a, n) <==> UsableAround(r, a, n) && !Meets(a, n, w) && a != EndOf(w))
  {
    var from, to := Max(w.0, r.start), Min(EndOf(w), r.End());
    if from < to {
      var left, mid, right := Part(r, r.start, from, r.kind), Part(r, from, to, kind), Part(r, to, r.End(), r.kind);
      EdgesConcat(left + mid, right, a, n);
      EdgesConcat(left, mid, a, n);
      EdgesOfPart(r, r.start, from, r.kind, a, n);
      EdgesOfPart(r, from, to, kind, a, n);
      EdgesOfPart(r, to, r.End(), r.kind, a, n);
    } else {
      EdgesOfOne(r, a, n);
    }
  }

  /** A reservation removes the starts whose `n` bytes it meets and makes one new one: at its end, if that lies inside a
      usable range that goes on for `n` bytes. */
  lemma {:induction false} ReserveEdges(rs: Ranges, w: Window, kind: MemoryKind, a: int, n: int)
    requires AllProper(rs) && ProperWindow(w) && kind != Usable && n > 0
    ensures var t := Reserve(rs, w.0, EndOf(w), kind);
      && (UsableStart(t, a, n) <==>
            (UsableStart(rs, a, n) && !Meets(a, n, w)) || (a == EndOf(w) && UsableInterior(rs, a, n)))
      && (UsableInterior(t, a, n) <==> UsableInterior(rs, a, n) && !Meets(a, n, w) && a != EndOf(w))
  {
    if rs != [] {
      PieceEdges(rs[0], w, kind, a, n);
      ReserveEdges(rs[1..], w, kind, a, n);
      EdgesConcat(Pieces(rs[0], w.0, EndOf(w), kind), Reserve(rs[1..], w.0, EndOf(w), kind), a, n);
      EdgesConcat([rs[0]], rs[1..], a, n);
      EdgesOfOne(rs[0], a, n);
      assert rs == [rs[0]] + rs[1..];
    }
  }

  lemma EdgesAfterMark(m: Ranges, w: Window, kind: MemoryKind, m': Ranges, a: int, n: int)
    requires AllProper(m) && Marks(m, w, kind, m') && n > 0
    ensures UsableStart(m', a, n) <==>
      (UsableStart(m, a, n) && !Meets(a, n, w)) || (a == EndOf(w) && UsableInterior(m, a, n))
    ensures UsableInterior(m', a, n) <==> UsableInterior(m, a, n) && !Meets(a, n, w) && a != EndOf(w)
  {
    if m' == Reserve(m, w.0, EndOf(w), kind) {
      ReserveEdges(m, w, kind, a, n);
    } else {
      var external := MemoryRange(w.0, w.1, MMIO, kind);
      EdgesConcat(m, [external], a, n);
      EdgesOfOne(external, a, n);
      NothingCut(m, w, a, n);
    }
  }

  lemma NothingCut(m: Ranges, w: Window, a: int, n: int)
    requires AllProper(m) && ProperWindow(w) && !AnyOverlap(m, w.0, EndOf(w)) && n > 0
    ensures UsableStart(m, a, n) ==> !Meets(a, n, w)
    ensures UsableInterior(m, a, n) ==> !Meets(a, n, w) && a != EndOf(w)
  {
    if i :| 0 <= i < |m| && UsableFrom(m[i], a, n) { assert !Overlaps(m[i], w.0, EndOf(w)); }
    if i :| 0 <= i < |m| && UsableAround(m[i], a, n) { assert !Overlaps(m[i], w.0, EndOf(w)); }
  }

  // --------------------------------------------------------------- several windows

  /** At `a` some window ends inside a usable range of `rs` that goes on for `n` bytes, and no window meets those. */
  predicate Follows(rs: Ranges, ws: seq<Window>, a: int, n: int) {
    EndsAt(a, ws) && UsableInterior(rs, a, n) && Clear(a, n, ws)
  }

  ghost predicate EdgesMarked(rs: Ranges, ws: seq<Window>, m: Ranges, a: int, n: int) {
    && (UsableStart(m, a, n) <==> (UsableStart(rs, a, n) && Clear(a, n, ws)) || Follows(rs, ws, a, n))
    && (UsableInterior(m, a, n) <==> UsableInterior(rs, a, n) && Clear(a, n, ws) && !EndsAt(a, ws))
  }

  ghost predicate UsableMarked(rs: Ranges, ws: seq<Window>, m: Ranges, a: int) {
    KindAt(m, a) == Some(Usable) <==> KindAt(rs, a) == Some(Usable) && Outside(a, ws)
  }

  /** `m` is `rs` with all the windows marked: what is usable, and where the usable ranges start. */
  ghost predicate Marked(rs: Ranges, ws: seq<Window>, m: Ranges) {
    && AllProper(m)
    && (forall a, n :: n > 0 ==> EdgesMarked(rs, ws, m, a, n))
    && (forall a :: UsableMarked(rs, ws, m, a))
  }

  lemma NothingMarked(rs: Ranges)
    requires AllProper(rs)
    ensures Marked(rs, [], rs)
  {
  }

  lemma OneMore(ws: seq<Window>, w: Window, a: int, n: int)
    requires n > 0
    ensures Outside(a, ws + [w]) <==> Outside(a, ws) && !Inside(a, w)
    ensures Clear(a, n, ws + [w]) <==> Clear(a, n, ws) && !Meets(a, n, w)
    ensures EndsAt(a, ws + [w]) <==> EndsAt(a, ws) || a == EndOf(w)
    ensures !Meets(EndOf(w), n, w)
  {
    var vs := ws + [w];
    assert vs[|ws|] == w && forall i :: 0 <= i < |ws| ==> vs[i] == ws[i];
    if EndsAt(a, ws) {
      var i :| 0 <= i < |ws| && EndOf(ws[i]) == a;
      assert EndOf(vs[i]) == a;
    }
  }

  lemma MarkOneMore(rs: Ranges, ws: seq<Window>, m: Ranges, w: Window, kind: MemoryKind, m': Ranges)
    requires Marked(rs, ws, m) && Marks(m, w, kind, m')
    ensures Marked(rs, ws + [w], m')
  {
    MarksKeepsProper(m, w, kind, m');
    forall a, n | n > 0 ensures EdgesMarked(rs, ws + [w], m', a, n) {
      assert EdgesMarked(rs, ws, m, a, n);
      EdgesAfterMark(m, w, kind, m', a, n);
      OneMore(ws, w, a, n);
    }
    forall a ensures UsableMarked(rs, ws + [w], m', a) {
      assert UsableMarked(rs, ws, m, a);
      UsableAfterMark(m, w, kind, m', a);
      OneMore(ws, w, a, 1);
    }
  }

  // ------------------------------------------------------------------- alignment

  /** Every window ends on a page, or where no whole frame of usable memory follows. */
  predicate NeatEnds(rs: Ranges, ws: seq<Window>) {
    forall i :: 0 <= i < |ws| ==> EndOf(ws[i]) % PAGE_SIZE == 0 || !Follows(rs, ws, EndOf(ws[i]), PAGE_SIZE)
  }

  /** The runs of the frame table start where usable ranges with a whole frame do. */
  lemma {:induction false} UsableRangeHasRun(rs: Ranges, i: nat) returns (j: nat)
    requires i < |rs| && HasFrames(rs[i])
    ensures j < |UsableRanges(rs)| && UsableRanges(rs)[j] == FreeRange(rs[i].start, rs[i].length / PAGE_SIZE)
  {
    var rest := rs[..|rs| - 1];
    if i < |rest| { j := UsableRangeHasRun(rest, i); } else { j := |UsableRanges(rest)|; }
  }

  ghost predicate FramesStartAligned(rs: Ranges) {
    forall a :: UsableStart(rs, a, PAGE_SIZE) ==> a % PAGE_SIZE == 0
  }

  lemma PagedIsPointwise(rs: Ranges)
    requires AllProper(rs)
    ensures AllPaged(UsableRanges(rs)) <==> FramesStartAligned(rs)
  {
    var fs := UsableRanges(rs);
    UsableRangesSpacious(rs);
    if AllPaged(fs) {
      forall a | UsableStart(rs, a, PAGE_SIZE) ensures a % PAGE_SIZE == 0 {
        var i :| 0 <= i < |rs| && UsableFrom(rs[i], a, PAGE_SIZE);
        var j := UsableRangeHasRun(rs, i);
      }
    }
    if FramesStartAligned(rs) {
      forall j | 0 <= j < |fs| ensures Paged(fs[j]) {
        var o := UsableRangeOrigin(rs, j);
        assert UsableFrom(rs[o], rs[o].start, PAGE_SIZE) && UsableStart(rs, rs[o].start, PAGE_SIZE);
      }
    }
  }

  /** The frame table of the marked map is page-aligned exactly when the windows end neatly. */
  lemma PagedIffNeat(rs: Ranges, ws: seq<Window>, m: Ranges)
    requires StartsAligned(rs) && Marked(rs, ws, m)
    ensures AllPaged(UsableRanges(m)) <==> NeatEnds(rs, ws)
  {
    PagedIsPointwise(m);
    if FramesStartAligned(m) {
      forall i | 0 <= i < |ws| && Follows(rs, ws, EndOf(ws[i]), PAGE_SIZE) ensures EndOf(ws[i]) % PAGE_SIZE == 0 {
        assert EdgesMarked(rs, ws, m, EndOf(ws[i]), PAGE_SIZE);
      }
    }
    if NeatEnds(rs, ws) {
      forall a | UsableStart(m, a, PAGE_SIZE) ensures a % PAGE_SIZE == 0 { assert EdgesMarked(rs, ws, m, a, PAGE_SIZE); }
    }
  }

  // ------------------------------------------------------------- what is still there

  /** One usable range holds all of `a..b`. */
  predicate UsableStretch(rs: Ranges, a: int, b: int) {
    exists i :: 0 <= i < |rs| && rs[i].kind == Usable && rs[i].start <= a && b <= rs[i].End()
  }

  lemma PieceKeepsStretch(r: MemoryRange, start: U64, end: U64, kind: MemoryKind, a: int, b: int)
    requires Proper(r) && start < end && a < b && r.kind == Usable && r.start <= a && b <= r.End()
    requires b <= start || end <= a
    ensures UsableStretch(Pieces(r, start, end, kind), a, b)
  {
    var ps := Pieces(r, start, end, kind);
    var j := if b <= start then 0 else |ps| - 1;
    assert ps[j].kind == Usable && ps[j].start <= a && b <= ps[j].End();
  }

  lemma StretchConcat(xs: Ranges, ys: Ranges, a: int, b: int)
    requires UsableStretch(xs, a, b) || UsableStretch(ys, a, b)
    ensures UsableStretch(xs + ys, a, b)
  {
    var zs := xs + ys;
    if i :| 0 <= i < |xs| && xs[i].kind == Usable && xs[i].start <= a && b <= xs[i].End() {
      assert zs[i] == xs[i];
    } else {
      var i :| 0 <= i < |ys| && ys[i].kind == Usable && ys[i].start <= a && b <= ys[i].End();
      assert zs[|xs| + i] == ys[i];
    }
  }

  lemma {:induction false} StretchSurvives(rs: Ranges, start: U64, end: U64, kind: MemoryKind, a: int, b: int)
    requires AllProper(rs) && start < end && a < b && UsableStretch(rs, a, b) && (b <= start || end <= a)
    ensures UsableStretch(Reserve(rs, start, end, kind), a, b)
  {
    var i :| 0 <= i < |rs| && rs[i].kind == Usable && rs[i].start <= a && b <= rs[i].End();
    if i == 0 {
      PieceKeepsStretch(rs[0], start, end, kind, a, b);
    } else {
      assert rs[1..][i - 1] == rs[i];
      StretchSurvives(rs[1..], start, end, kind, a, b);
    }
    StretchConcat(Pieces(rs[0], start, end, kind), Reserve(rs[1..], start, end, kind), a, b);
  }

  /** A known address stays known: a window that met the map before a reservation still meets it afterwards. */
  lemma OverlapSurvives(rs: Ranges, start: U64, end: U64, kind: MemoryKind, w: Window)
    requires AllProper(rs) && start < end && ProperWindow(w) && AnyOverlap(rs, w.0, EndOf(w))
    ensures AnyOverlap(Reserve(rs, start, end, kind), w.0, EndOf(w))
  {
    var i :| 0 <= i < |rs| && Overlaps(rs[i], w.0, EndOf(w));
    var a := Max(w.0, rs[i].start);
    assert rs[i].Contains(a);
    RangeAtSome(rs, i, a);
    ReserveReclassifies(rs, start, end, kind, a);
    var j := RangeAtIndex(Reserve(rs, start, end, kind), a);
    assert Overlaps(Reserve(rs, start, end, kind)[j], w.0, EndOf(w));
  }

  lemma {:induction false} RangeAtSome(rs: Ranges, i: nat, a: int)
    requires i < |rs| && rs[i].Contains(a)
    ensures RangeAt(rs, a).Some?
  {
    if i > 0 { RangeAtSome(rs[1..], i - 1, a); }
  }
}
