/** Lists of half-open integer intervals: what the frame table and the heap's free list both hold. */
module Spans {
  datatype Span = Span(start: int, length: int) {
    function End(): int { start + length }

    predicate Has(p: int) { start <= p < End() }
  }

  /** Non-empty, in address order and disjoint; neighbours may touch. */
  ghost predicate Ascending(s: seq<Span>) {
    && (forall i :: 0 <= i < |s| ==> s[i].length > 0)
    && (forall i, j :: 0 <= i < j < |s| ==> s[i].End() <= s[j].start)
  }

  /** Ascending with a gap between any two neighbours: nothing is left to coalesce. */
  ghost predicate Canonical(s: seq<Span>) {
    && Ascending(s)
    && (forall i, j :: 0 <= i < j < |s| ==> s[i].End() < s[j].start)
  }

  ghost predicate Covers(s: seq<Span>, p: int) {
    exists i :: 0 <= i < |s| && s[i].Has(p)
  }

  /** No point of `b` is covered by `s`. */
  ghost predicate Apart(s: seq<Span>, b: Span) {
    forall i :: 0 <= i < |s| ==> s[i].End() <= b.start || b.End() <= s[i].start
  }

  function Total(s: seq<Span>): int {
    if s == [] then 0 else s[0].length + Total(s[1..])
  }

  /** The `n` integers from `lo` on. */
  ghost function Interval(lo: int, n: nat): (r: set<int>)
    ensures forall p :: p in r <==> lo <= p < lo + n
    ensures |r| == n
  {
    if n == 0 then {} else Interval(lo, n - 1) + {lo + n - 1}
  }

  /** The covered points as a finite set. */
  ghost function Points(s: seq<Span>): set<int>
    requires Ascending(s)
  {
    if s == [] then {} else Interval(s[0].start, s[0].length) + Points(s[1..])
  }

  /** Index of the first span that starts at or after `a`. */
  function Position(s: seq<Span>, a: int): (k: nat)
    ensures k <= |s|
    ensures forall i :: 0 <= i < k ==> s[i].start < a
    ensures k < |s| ==> a <= s[k].start
  {
    if s == [] || a <= s[0].start then 0 else 1 + Position(s[1..], a)
  }

  /** Replaces the spans from index `lo` up to `hi` by `m`. */
  function Splice(s: seq<Span>, lo: nat, hi: nat, m: Span): seq<Span>
    requires lo <= hi <= |s|
  {
    s[..lo] + [m] + s[hi..]
  }

  predicate JoinsLeft(s: seq<Span>, b: Span) {
    var k := Position(s, b.start);
    k > 0 && s[k - 1].End() == b.start
  }

  predicate JoinsRight(s: seq<Span>, b: Span) {
    var k := Position(s, b.start);
    k < |s| && b.End() == s[k].start
  }

  function JoinLow(s: seq<Span>, b: Span): (k: nat)
    ensures k <= Position(s, b.start)
  {
    if JoinsLeft(s, b) then Position(s, b.start) - 1 else Position(s, b.start)
  }

  function JoinHigh(s: seq<Span>, b: Span): (k: nat)
    ensures Position(s, b.start) <= k <= |s|
  {
    if JoinsRight(s, b) then Position(s, b.start) + 1 else Position(s, b.start)
  }

  /** `b` together with the neighbours it touches. */
  function Joined(s: seq<Span>, b: Span): Span {
    var k := Position(s, b.start);
    Span(if JoinsLeft(s, b) then s[k - 1].start else b.start,
         (if JoinsLeft(s, b) then s[k - 1].length else 0) + b.length
         + (if JoinsRight(s, b) then s[k].length else 0))
  }

  /** Adds `b`, coalescing it with the neighbours it touches. */
  function Insert(s: seq<Span>, b: Span): seq<Span> {
    Splice(s, JoinLow(s, b), JoinHigh(s, b), Joined(s, b))
  }

  /** Removes the first `n` points of span `k`. */
  function TakeFront(s: seq<Span>, k: nat, n: int): seq<Span>
    requires k < |s|
  {
    if s[k].length == n then Without(s, k)
    else s[k := Span(s[k].start + n, s[k].length - n)]
  }

  // ---------------------------------------------------------------- insertion

  lemma InsertPosition(s: seq<Span>, b: Span)
    requires Ascending(s) && Apart(s, b) && b.length > 0
    ensures var k := Position(s, b.start);
      && (forall i :: 0 <= i < k ==> s[i].End() <= b.start)
      && (forall i :: k <= i < |s| ==> b.End() <= s[i].start)
  {
    var k := Position(s, b.start);
    forall i | k <= i < |s| ensures b.End() <= s[i].start {
      assert s[k].start <= s[i].start by {
        if k < i { assert s[k].End() <= s[i].start; }
      }
      assert s[i].length > 0;
    }
  }

  lemma SpliceKeepsOrder(s: seq<Span>, lo: nat, hi: nat, m: Span)
    requires Ascending(s) && lo <= hi <= |s| && m.length > 0
    requires forall i :: 0 <= i < lo ==> s[i].End() <= m.start
    requires forall i :: hi <= i < |s| ==> m.End() <= s[i].start
    ensures Ascending(Splice(s, lo, hi, m))
  {
    var t, d := Splice(s, lo, hi, m), hi - lo - 1;
    assert forall i :: 0 <= i < lo ==> t[i] == s[i];
    assert forall i :: lo < i < |t| ==> t[i] == s[i + d];
  }

  lemma SpliceKeepsGaps(s: seq<Span>, lo: nat, hi: nat, m: Span)
    requires Canonical(s) && lo <= hi <= |s| && m.length > 0
    requires forall i :: 0 <= i < lo ==> s[i].End() < m.start
    requires forall i :: hi <= i < |s| ==> m.End() < s[i].start
    ensures Canonical(Splice(s, lo, hi, m))
  {
    SpliceKeepsOrder(s, lo, hi, m);
    var t, d := Splice(s, lo, hi, m), hi - lo - 1;
    assert forall i :: 0 <= i < lo ==> t[i] == s[i];
    assert forall i :: lo < i < |t| ==> t[i] == s[i + d];
  }

  lemma SpliceCovers(s: seq<Span>, lo: nat, hi: nat, m: Span, p: int)
    requires lo <= hi <= |s|
    ensures Covers(Splice(s, lo, hi, m), p)
       <==> m.Has(p) || exists i :: (0 <= i < lo || hi <= i < |s|) && s[i].Has(p)
  {
    var t, d := Splice(s, lo, hi, m), hi - lo - 1;
    if i :| 0 <= i < lo && s[i].Has(p) { assert t[i].Has(p); }
    if i :| hi <= i < |s| && s[i].Has(p) { assert t[i - d].Has(p); }
    if m.Has(p) { assert t[lo].Has(p); }
    if i :| 0 <= i < |t| && t[i].Has(p) {
      if i < lo { assert s[i].Has(p); } else if i > lo { assert s[i + d].Has(p); }
    }
  }

  /** Where the coalesced span lies between what stays on either side. */
  lemma JoinedFits(s: seq<Span>, b: Span)
    requires Ascending(s) && Apart(s, b) && b.length > 0
    ensures Joined(s, b).length > 0
    ensures forall i :: 0 <= i < JoinLow(s, b) ==> s[i].End() <= Joined(s, b).start
    ensures forall i :: JoinHigh(s, b) <= i < |s| ==> Joined(s, b).End() <= s[i].start
  {
    InsertPosition(s, b);
  }

  lemma InsertKeepsOrder(s: seq<Span>, b: Span)
    requires Ascending(s) && Apart(s, b) && b.length > 0
    ensures Ascending(Insert(s, b))
  {
    JoinedFits(s, b);
    SpliceKeepsOrder(s, JoinLow(s, b), JoinHigh(s, b), Joined(s, b));
  }

  lemma GapOnTheLeft(s: seq<Span>, b: Span, i: nat)
    requires Canonical(s) && Apart(s, b) && b.length > 0 && i < JoinLow(s, b)
    ensures s[i].End() < Joined(s, b).start
  {
    InsertPosition(s, b);
    var k := Position(s, b.start);
    if i < k - 1 { assert s[i].End() < s[k - 1].start; }
  }

  lemma GapOnTheRight(s: seq<Span>, b: Span, i: nat)
    requires Canonical(s) && Apart(s, b) && b.length > 0 && JoinHigh(s, b) <= i < |s|
    ensures Joined(s, b).End() < s[i].start
  {
    InsertPosition(s, b);
    var k := Position(s, b.start);
    if k < i { assert s[k].End() < s[i].start; }
  }

  lemma InsertKeepsGaps(s: seq<Span>, b: Span)
    requires Canonical(s) && Apart(s, b) && b.length > 0
    ensures Canonical(Insert(s, b))
  {
    JoinedFits(s, b);
    var m, lo, hi := Joined(s, b), JoinLow(s, b), JoinHigh(s, b);
    forall i | 0 <= i < lo ensures s[i].End() < m.start { GapOnTheLeft(s, b, i); }
    forall i | hi <= i < |s| ensures m.End() < s[i].start { GapOnTheRight(s, b, i); }
    SpliceKeepsGaps(s, lo, hi, m);
  }

  /** What `b` brings in besides its own points is the two neighbours it joins. */
  lemma JoinedCovers(s: seq<Span>, b: Span, p: int)
    requires Ascending(s) && Apart(s, b) && b.length > 0
    ensures Joined(s, b).Has(p)
       <==> b.Has(p) || exists i :: JoinLow(s, b) <= i < JoinHigh(s, b) && s[i].Has(p)
  {
    var k := Position(s, b.start);
    if JoinsLeft(s, b) && p < b.start && Joined(s, b).Has(p) { assert s[k - 1].Has(p); }
    if JoinsRight(s, b) && b.End() <= p && Joined(s, b).Has(p) { assert s[k].Has(p); }
  }

  lemma InsertCoversPoint(s: seq<Span>, b: Span, p: int)
    requires Ascending(s) && Apart(s, b) && b.length > 0
    ensures Covers(Insert(s, b), p) <==> Covers(s, p) || b.Has(p)
  {
    SpliceCovers(s, JoinLow(s, b), JoinHigh(s, b), Joined(s, b), p);
    JoinedCovers(s, b, p);
  }

  lemma InsertCovers(s: seq<Span>, b: Span)
    requires Ascending(s) && Apart(s, b) && b.length > 0
    ensures forall p :: Covers(Insert(s, b), p) <==> Covers(s, p) || b.Has(p)
  {
    forall p ensures Covers(Insert(s, b), p) <==> Covers(s, p) || b.Has(p) {
      InsertCoversPoint(s, b, p);
    }
  }

  lemma {:induction false} TotalConcat(a: seq<Span>, b: seq<Span>)
    ensures Total(a + b) == Total(a) + Total(b)
  {
    if a == [] {
      assert a + b == b;
    } else {
      TotalConcat(a[1..], b);
      assert (a + b)[1..] == a[1..] + b;
    }
  }

  lemma SpliceTotal(s: seq<Span>, lo: nat, hi: nat, m: Span)
    requires lo <= hi <= |s|
    ensures Total(Splice(s, lo, hi, m)) == Total(s) - Total(s[lo..hi]) + m.length
  {
    TotalConcat(s[..lo] + [m], s[hi..]);
    TotalConcat(s[..lo], [m]);
    TotalConcat(s[..lo], s[lo..hi]);
    TotalConcat(s[..lo] + s[lo..hi], s[hi..]);
    assert s == s[..lo] + s[lo..hi] + s[hi..];
  }

  lemma InsertTotal(s: seq<Span>, b: Span)
    ensures Total(Insert(s, b)) == Total(s) + b.length
  {
    var lo, hi, k := JoinLow(s, b), JoinHigh(s, b), Position(s, b.start);
    SpliceTotal(s, lo, hi, Joined(s, b));
    assert s[lo..hi] == s[lo..k] + s[k..hi];
    TotalConcat(s[lo..k], s[k..hi]);
  }

  // ------------------------------------------------------------------ removal

  function Without(s: seq<Span>, k: nat): seq<Span>
    requires k < |s|
  {
    s[..k] + s[k + 1..]
  }

  lemma WithoutKeepsOrder(s: seq<Span>, k: nat)
    requires Ascending(s) && k < |s|
    ensures Ascending(Without(s, k)) && (Canonical(s) ==> Canonical(Without(s, k)))
  {
    var t := Without(s, k);
    assert forall i :: 0 <= i < k ==> t[i] == s[i];
    assert forall i :: k <= i < |t| ==> t[i] == s[i + 1];
  }

  lemma WithoutCovers(s: seq<Span>, k: nat, p: int)
    requires Ascending(s) && k < |s|
    ensures Covers(Without(s, k), p) <==> Covers(s, p) && !s[k].Has(p)
  {
    var t := Without(s, k);
    if i :| 0 <= i < |t| && t[i].Has(p) { assert s[if i < k then i else i + 1].Has(p); }
    if i :| 0 <= i < |s| && s[i].Has(p) && i != k { assert t[if i < k then i else i - 1].Has(p); }
  }

  lemma WithoutTotal(s: seq<Span>, k: nat)
    requires k < |s|
    ensures Total(Without(s, k)) == Total(s) - s[k].length
  {
    TotalConcat(s[..k], s[k + 1..]);
    TotalConcat(s[..k], s[k..]);
    assert s == s[..k] + s[k..];
  }

  lemma ShrinkKeepsOrder(s: seq<Span>, k: nat, n: int)
    requires Ascending(s) && k < |s| && 0 < n < s[k].length
    ensures var t := s[k := Span(s[k].start + n, s[k].length - n)];
      Ascending(t) && (Canonical(s) ==> Canonical(t))
  {
  }

  lemma ShrinkTotal(s: seq<Span>, k: nat, n: int)
    requires k < |s|
    ensures Total(s[k := Span(s[k].start + n, s[k].length - n)]) == Total(s) - n
  {
    var m := Span(s[k].start + n, s[k].length - n);
    assert s[k := m] == Splice(s, k, k + 1, m);
    SpliceTotal(s, k, k + 1, m);
    assert s[k..k + 1] == [s[k]];
  }

  lemma ShrinkCovers(s: seq<Span>, k: nat, n: int, p: int)
    requires Ascending(s) && k < |s| && 0 < n < s[k].length
    ensures Covers(s[k := Span(s[k].start + n, s[k].length - n)], p)
       <==> Covers(s, p) && !Span(s[k].start, n).Has(p)
  {
    var t := s[k := Span(s[k].start + n, s[k].length - n)];
    if i :| 0 <= i < |t| && t[i].Has(p) { assert s[i].Has(p); }
    if i :| 0 <= i < |s| && s[i].Has(p) && !Span(s[k].start, n).Has(p) { assert t[i].Has(p); }
  }

  lemma TakeFrontEffect(s: seq<Span>, k: nat, n: int)
    requires Ascending(s) && k < |s| && 0 < n <= s[k].length
    ensures var t := TakeFront(s, k, n);
      && Ascending(t) && (Canonical(s) ==> Canonical(t)) && Total(t) == Total(s) - n
      && forall p :: Covers(t, p) <==> Covers(s, p) && !Span(s[k].start, n).Has(p)
  {
    if s[k].length == n {
      WithoutKeepsOrder(s, k);
      WithoutTotal(s, k);
      assert s[k] == Span(s[k].start, n);
      forall p ensures Covers(TakeFront(s, k, n), p) <==> Covers(s, p) && !Span(s[k].start, n).Has(p) {
        WithoutCovers(s, k, p);
      }
    } else {
      ShrinkKeepsOrder(s, k, n);
      ShrinkTotal(s, k, n);
      forall p ensures Covers(TakeFront(s, k, n), p) <==> Covers(s, p) && !Span(s[k].start, n).Has(p) {
        ShrinkCovers(s, k, n, p);
      }
    }
  }

  lemma UncoveredIsApart(s: seq<Span>, b: Span)
    requires Ascending(s) && b.length > 0 && forall p :: b.Has(p) ==> !Covers(s, p)
    ensures Apart(s, b)
  {
    forall i | 0 <= i < |s| ensures s[i].End() <= b.start || b.End() <= s[i].start {
      var p := if b.start <= s[i].start then s[i].start else b.start;
      if s[i].Has(p) { assert Covers(s, p); }
    }
  }

  // ------------------------------------------------- the canonical form is unique

  lemma CoversTail(s: seq<Span>, p: int)
    requires Ascending(s) && s != []
    ensures Covers(s[1..], p) <==> Covers(s, p) && s[0].End() <= p
  {
    if Covers(s[1..], p) {
      var i :| 0 <= i < |s[1..]| && s[1..][i].Has(p);
      assert s[i + 1].Has(p);
    }
    if Covers(s, p) && s[0].End() <= p {
      var i :| 0 <= i < |s| && s[i].Has(p);
      assert s[1..][i - 1].Has(p);
    }
  }

  lemma CoveredFromFirst(s: seq<Span>, p: int)
    requires Ascending(s) && Covers(s, p)
    ensures s != [] && s[0].start <= p
  {
    var i :| 0 <= i < |s| && s[i].Has(p);
    if i > 0 { assert s[0].End() <= s[i].start; }
  }

  lemma FirstSpanAgrees(a: seq<Span>, b: seq<Span>)
    requires Canonical(a) && Canonical(b) && a != [] && b != []
    requires forall p :: Covers(a, p) <==> Covers(b, p)
    ensures a[0].start == b[0].start && a[0].End() <= b[0].End()
  {
    assert a[0].Has(a[0].start) && b[0].Has(b[0].start);
    CoveredFromFirst(b, a[0].start);
    CoveredFromFirst(a, b[0].start);
    if b[0].End() < a[0].End() {
      assert a[0].Has(b[0].End());
      assert Covers(b, b[0].End());
      var i :| 0 <= i < |b| && b[i].Has(b[0].End());
    }
  }

  /** Two coalesced lists that cover the same points are the same list. */
  lemma {:induction false} CanonicalUnique(a: seq<Span>, b: seq<Span>)
    requires Canonical(a) && Canonical(b)
    requires forall p :: Covers(a, p) <==> Covers(b, p)
    ensures a == b
  {
    if a == [] || b == [] {
      if a != [] { assert a[0].Has(a[0].start); assert Covers(a, a[0].start); }
      if b != [] { assert b[0].Has(b[0].start); assert Covers(b, b[0].start); }
    } else {
      FirstSpanAgrees(a, b);
      FirstSpanAgrees(b, a);
      forall p ensures Covers(a[1..], p) <==> Covers(b[1..], p) {
        CoversTail(a, p);
        CoversTail(b, p);
      }
      CanonicalUnique(a[1..], b[1..]);
    }
  }

  ghost predicate Disjoint(a: Span, b: Span) { a.End() <= b.start || b.End() <= a.start }

  lemma ApartAfterInsert(s: seq<Span>, x: Span, y: Span)
    requires Ascending(s) && Apart(s, x) && Apart(s, y) && Disjoint(x, y)
    requires x.length > 0 && y.length > 0
    ensures Apart(Insert(s, x), y)
  {
    InsertKeepsOrder(s, x);
    forall p | y.Has(p) ensures !Covers(Insert(s, x), p) {
      InsertCoversPoint(s, x, p);
    }
    UncoveredIsApart(Insert(s, x), y);
  }

  lemma PositionIs(s: seq<Span>, a: int, k: nat)
    requires k <= |s| && (forall i :: 0 <= i < k ==> s[i].start < a) && (k < |s| ==> a <= s[k].start)
    ensures k == Position(s, a)
  {
    var p := Position(s, a);
  }

  lemma RemovedPosition(s: seq<Span>, k: nat)
    requires Canonical(s) && k < |s|
    ensures Position(Without(s, k), s[k].start) == k
  {
    PositionIs(Without(s, k), s[k].start, k);
  }

  lemma InsertAlone(t: seq<Span>, b: Span, k: nat)
    requires k == Position(t, b.start) && !JoinsLeft(t, b) && !JoinsRight(t, b)
    ensures Insert(t, b) == t[..k] + [b] + t[k..]
  {
  }

  lemma RemoveThenInsert(s: seq<Span>, k: nat)
    requires Canonical(s) && k < |s|
    ensures Insert(Without(s, k), s[k]) == s
  {
    RemovedPosition(s, k);
    InsertAlone(Without(s, k), s[k], k);
    assert Without(s, k)[..k] == s[..k] && Without(s, k)[k..] == s[k + 1..];
  }

  lemma ShrinkThenInsert(s: seq<Span>, k: nat, n: int)
    requires Canonical(s) && k < |s| && 0 < n < s[k].length
    ensures Insert(s[k := Span(s[k].start + n, s[k].length - n)], Span(s[k].start, n)) == s
  {
    PositionIs(s[k := Span(s[k].start + n, s[k].length - n)], s[k].start, k);
  }

  /** Giving back exactly what was taken from the front of a span restores a coalesced list. */
  lemma TakeThenInsert(s: seq<Span>, k: nat, n: int)
    requires Canonical(s) && k < |s| && 0 < n <= s[k].length
    ensures Insert(TakeFront(s, k, n), Span(s[k].start, n)) == s
  {
    if s[k].length == n { RemoveThenInsert(s, k); } else { ShrinkThenInsert(s, k, n); }
  }

  /** Gives back the blocks of `bs` one after the other. */
  function InsertAll(s: seq<Span>, bs: seq<Span>): seq<Span>
    decreases |bs|
  {
    if bs == [] then s else InsertAll(Insert(s, bs[0]), bs[1..])
  }

  /** Non-empty blocks, apart from each other and from everything in `s`. */
  ghost predicate CanInsertAll(s: seq<Span>, bs: seq<Span>) {
    && (forall i :: 0 <= i < |bs| ==> bs[i].length > 0 && Apart(s, bs[i]))
    && (forall i, j :: 0 <= i < j < |bs| ==> Disjoint(bs[i], bs[j]))
  }

  lemma InsertFirst(s: seq<Span>, bs: seq<Span>)
    requires Canonical(s) && CanInsertAll(s, bs) && bs != []
    ensures Canonical(Insert(s, bs[0])) && CanInsertAll(Insert(s, bs[0]), bs[1..])
  {
    InsertKeepsGaps(s, bs[0]);
    forall i | 0 <= i < |bs[1..]| ensures Apart(Insert(s, bs[0]), bs[1..][i]) {
      ApartAfterInsert(s, bs[0], bs[i + 1]);
    }
  }

  lemma CoversFirstOrRest(s: seq<Span>, p: int)
    requires s != []
    ensures Covers(s, p) <==> s[0].Has(p) || Covers(s[1..], p)
  {
    if i :| 0 <= i < |s| && s[i].Has(p) && i > 0 { assert s[1..][i - 1].Has(p); }
    if i :| 0 <= i < |s[1..]| && s[1..][i].Has(p) { assert s[i + 1].Has(p); }
  }

  lemma {:induction false} InsertAllCovers(s: seq<Span>, bs: seq<Span>, p: int)
    requires Canonical(s) && CanInsertAll(s, bs)
    ensures Canonical(InsertAll(s, bs))
    ensures Covers(InsertAll(s, bs), p) <==> Covers(s, p) || Covers(bs, p)
    decreases |bs|
  {
    if bs != [] {
      InsertFirst(s, bs);
      InsertAllCovers(Insert(s, bs[0]), bs[1..], p);
      InsertCoversPoint(s, bs[0], p);
      CoversFirstOrRest(bs, p);
    }
  }

  /** Giving the same blocks back in any two orders leaves the same list. */
  lemma InsertOrderIsInvisible(s: seq<Span>, xs: seq<Span>, ys: seq<Span>)
    requires Canonical(s) && CanInsertAll(s, xs) && CanInsertAll(s, ys)
    requires forall b :: b in xs <==> b in ys
    ensures InsertAll(s, xs) == InsertAll(s, ys)
  {
    forall p ensures Covers(InsertAll(s, xs), p) <==> Covers(InsertAll(s, ys), p) {
      InsertAllCovers(s, xs, p);
      InsertAllCovers(s, ys, p);
      if i :| 0 <= i < |xs| && xs[i].Has(p) { assert xs[i] in ys; }
      if i :| 0 <= i < |ys| && ys[i].Has(p) { assert ys[i] in xs; }
    }
    InsertAllCovers(s, xs, 0);
    InsertAllCovers(s, ys, 0);
    CanonicalUnique(InsertAll(s, xs), InsertAll(s, ys));
  }

  /** A coalesced list that leaves nothing of `lo..hi` out is one span. */
  lemma FullCoverIsOneSpan(s: seq<Span>, lo: int, hi: int)
    requires Canonical(s) && lo < hi && Total(s) == hi - lo
    requires forall i :: 0 <= i < |s| ==> lo <= s[i].start && s[i].End() <= hi
    ensures s == [Span(lo, hi - lo)]
  {
    TotalBound(s, hi);
    if |s| > 1 {
      TotalBound(s[1..], hi);
    }
  }

  // -------------------------------------------------------------- cardinality

  lemma {:induction false} PointsAreCovered(s: seq<Span>, p: int)
    requires Ascending(s)
    ensures p in Points(s) <==> Covers(s, p)
  {
    if s != [] {
      PointsAreCovered(s[1..], p);
      if Covers(s[1..], p) {
        var i :| 0 <= i < |s[1..]| && s[1..][i].Has(p);
        assert s[i + 1].Has(p);
      }
      if Covers(s, p) && !s[0].Has(p) {
        var i :| 0 <= i < |s| && s[i].Has(p);
        assert s[1..][i - 1].Has(p);
      }
      if s[0].Has(p) { assert Covers(s, p); }
    }
  }

  /** Disjoint spans cover exactly as many points as their lengths add up to. */
  lemma {:induction false} PointsSize(s: seq<Span>)
    requires Ascending(s)
    ensures |Points(s)| == Total(s)
  {
    if s != [] {
      PointsSize(s[1..]);
      var first := Interval(s[0].start, s[0].length);
      forall p | p in first ensures p !in Points(s[1..]) {
        PointsAreCovered(s[1..], p);
        CoversTail(s, p);
      }
      assert first !! Points(s[1..]);
    }
  }

  lemma {:induction false} TotalBound(s: seq<Span>, hi: int)
    requires Ascending(s) && forall i :: 0 <= i < |s| ==> s[i].End() <= hi
    ensures 0 <= Total(s)
    ensures s != [] ==> Total(s) <= hi - s[0].start
  {
    if s != [] {
      TotalBound(s[1..], hi);
    }
  }
}
