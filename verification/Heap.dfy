/** The kernel's own heap: first fit over an address-ordered free list, merging on release. */
module Heap {
  import opened Machine
  import opened Spans
  import opened HeapList

  datatype HeapError =
    | AlreadyInitialized | NoConventionalMemory | TooSmall | Misaligned
    | MemoryMapUnavailable | FrameAllocatorUnavailable | MemoryReservationFailed

  // ----------------------------------------------------------------- alignment

  ghost predicate IsPowerOfTwo(n: int) {
    n == 1 || (n > 1 && n % 2 == 0 && IsPowerOfTwo(n / 2))
  }

  /** For a power of two, what masking `a` with `!(n - 1)` yields. */
  function RoundDown(a: int, n: int): int
    requires n > 0
  {
    a - a % n
  }

  /** The least multiple of `n` at or above `a`. */
  function AlignUp(a: int, n: int): int
    requires n > 0
  {
    RoundDown(a + n - 1, n)
  }

  lemma DivModUnique(x: int, n: int, q: int, r: int)
    requires n > 0 && x == q * n + r && 0 <= r < n
    ensures x / n == q && x % n == r
  {
    var d := x / n - q;
    assert d * n == r - x % n by {
      assert x == x / n * n + x % n;
      assert d * n == x / n * n - q * n;
    }
    assert d > 0 ==> d * n >= n;
    assert d < 0 ==> d * n <= -n;
  }

  lemma MultipleModZero(q: int, n: int)
    requires n > 0
    ensures q * n % n == 0
  {
    DivModUnique(q * n, n, q, 0);
  }

  lemma AlignUpIsLeast(a: int, n: int)
    requires n > 0
    ensures a <= AlignUp(a, n) < a + n && AlignUp(a, n) % n == 0
    ensures a % n == 0 ==> AlignUp(a, n) == a
  {
    var x := a + n - 1;
    assert RoundDown(x, n) == x / n * n;
    MultipleModZero(x / n, n);
    if a % n == 0 {
      assert x == a / n * n + (n - 1);
      DivModUnique(x, n, a / n, n - 1);
    }
  }

  /** Of two powers of two the smaller divides the larger. */
  lemma {:induction false} PowersDivide(n: int, m: int)
    requires IsPowerOfTwo(n) && IsPowerOfTwo(m) && n <= m
    ensures m % n == 0
  {
    if n > 1 {
      PowersDivide(n / 2, m / 2);
      var q := m / 2 / (n / 2);
      assert m / 2 == q * (n / 2);
      assert m == q * n;
      MultipleModZero(q, n);
    }
  }

  lemma DividesTrans(a: int, b: int, c: int)
    requires b > 0 && c > 0 && a % b == 0 && b % c == 0
    ensures a % c == 0
  {
    assert a == a / b * b && b == b / c * c;
    assert a == (a / b * (b / c)) * c;
    MultipleModZero(a / b * (b / c), c);
  }

  lemma {:induction false} ProductOfPowers(a: int, b: int)
    requires IsPowerOfTwo(a) && IsPowerOfTwo(b)
    ensures IsPowerOfTwo(a * b)
  {
    if a > 1 {
      ProductOfPowers(a / 2, b);
      assert a * b == 2 * (a / 2 * b);
    }
  }

  lemma WordSizeIsPowerOfTwo()
    ensures IsPowerOfTwo(U64_MAX + 1) && IsPowerOfTwo(HEADER_ALIGN)
  {
    ProductOfPowers(2, 2);
    ProductOfPowers(4, 2);
    ProductOfPowers(4, 4);
    ProductOfPowers(16, 16);
    ProductOfPowers(0x100, 0x100);
    ProductOfPowers(0x1_0000, 0x1_0000);
    ProductOfPowers(0x1_0000_0000, 0x1_0000_0000);
  }

  // ------------------------------------------------------------ specification

  function Need(size: int): int { Max(size, HEADER) }

  function Bound(align: int): int { Max(align, HEADER_ALIGN) }

  lemma BoundDivides(align: int)
    requires IsPowerOfTwo(align)
    ensures IsPowerOfTwo(Bound(align)) && Bound(align) % align == 0 && Bound(align) % HEADER_ALIGN == 0
  {
    WordSizeIsPowerOfTwo();
    PowersDivide(align, Bound(align));
    PowersDivide(HEADER_ALIGN, Bound(align));
  }

  predicate Fits(c: Span, need: int, bound: int)
    requires bound > 0
  {
    AlignUp(c.start, bound) + need <= c.End()
  }

  /** The lowest chunk that can hold the aligned request; `|s|` when none can. */
  function FirstFit(s: seq<Span>, need: int, bound: int): (k: nat)
    requires bound > 0
    ensures k <= |s|
    ensures forall i :: 0 <= i < k ==> !Fits(s[i], need, bound)
    ensures k < |s| ==> Fits(s[k], need, bound)
  {
    if s == [] || Fits(s[0], need, bound) then 0 else 1 + FirstFit(s[1..], need, bound)
  }

  /** An aligned block of `need` bytes at `p` lies in the chunk. */
  predicate Placed(c: Span, need: int, bound: int, p: int)
    requires bound > 0
  {
    p % bound == 0 && c.start <= p && p + need <= c.End()
  }

  lemma AlignUpBelow(a: int, n: int, p: int)
    requires n > 0 && p % n == 0 && a <= p
    ensures AlignUp(a, n) <= p
  {
    var x := a + n - 1;
    assert x == x / n * n + x % n && p == p / n * n;
    if x / n > p / n { MultiplesApart(p / n, x / n, n); }
  }

  /** Trying only the first aligned address in a chunk misses no placement. */
  lemma FitsIffPlaced(c: Span, need: int, bound: int)
    requires bound > 0
    ensures Fits(c, need, bound) <==> exists p :: Placed(c, need, bound, p)
  {
    AlignUpIsLeast(c.start, bound);
    if Fits(c, need, bound) { assert Placed(c, need, bound, AlignUp(c.start, bound)); }
    if p :| Placed(c, need, bound, p) { AlignUpBelow(c.start, bound, p); }
  }

  /** The search comes back empty exactly when no chunk has room for the request anywhere in it, and otherwise
      finds the lowest aligned address of all. */
  lemma FirstFitIsLowest(s: seq<Span>, need: int, bound: int)
    requires bound > 0 && Ascending(s)
    ensures FirstFit(s, need, bound) == |s| <==> forall i, p :: 0 <= i < |s| ==> !Placed(s[i], need, bound, p)
    ensures var k := FirstFit(s, need, bound); k < |s| ==> Placed(s[k], need, bound, AlignUp(s[k].start, bound))
    ensures var k := FirstFit(s, need, bound);
      forall i, p :: k < |s| && 0 <= i < |s| && Placed(s[i], need, bound, p) ==> AlignUp(s[k].start, bound) <= p
  {
    var k := FirstFit(s, need, bound);
    forall i | 0 <= i < |s| ensures Fits(s[i], need, bound) <==> exists p :: Placed(s[i], need, bound, p) {
      FitsIffPlaced(s[i], need, bound);
    }
    if k < |s| {
      AlignUpIsLeast(s[k].start, bound);
      forall i, p | 0 <= i < |s| && Placed(s[i], need, bound, p) ensures AlignUp(s[k].start, bound) <= p {
        AlignUpBelow(s[k].start, bound, p);
      }
    }
  }

  /** At `p` in the chunk the caller's `size` bytes fit, aligned as asked, and so does the header that the bytes will
      carry once they are given back. */
  predicate CanHold(c: Span, size: int, align: int, p: int)
    requires align > 0
  {
    && c.start <= p && p % align == 0 && p % HEADER_ALIGN == 0
    && p + size <= c.End() && p + HEADER <= c.End()
  }

  lemma BlockAligned(p: int, bound: int, align: U64)
    requires IsPowerOfTwo(align) && bound == Bound(align) && p % bound == 0
    ensures p % HEADER_ALIGN == 0 && p % align == 0
  {
    BoundDivides(align);
    DividesTrans(p, bound, HEADER_ALIGN);
    DividesTrans(p, bound, align);
  }

  /** No chunk has room for the request anywhere in it. */
  ghost predicate NoRoom(s: seq<Span>, size: int, align: int)
    requires align > 0
  {
    forall i, p :: 0 <= i < |s| ==> !CanHold(s[i], size, align, p)
  }

  /** `p` is the lowest address at which some chunk has room for the request. */
  ghost predicate LowestRoom(s: seq<Span>, size: int, align: int, p: int)
    requires align > 0
  {
    && (exists i :: 0 <= i < |s| && CanHold(s[i], size, align, p))
    && (forall i, q :: 0 <= i < |s| && CanHold(s[i], size, align, q) ==> p <= q)
  }

  lemma PlacedIffCanHold(c: Span, size: U64, align: U64, p: int)
    requires IsPowerOfTwo(align)
    ensures Placed(c, Need(size), Bound(align), p) <==> CanHold(c, size, align, p)
  {
    if Placed(c, Need(size), Bound(align), p) { BlockAligned(p, Bound(align), align); }
  }

  /** In the caller's terms: no chunk is found exactly when none has an aligned place for `size` bytes and a header,
      and the place found is the lowest there is. */
  lemma FirstFitAnswers(s: seq<Span>, size: U64, align: U64)
    requires Ascending(s) && IsPowerOfTwo(align)
    ensures FirstFit(s, Need(size), Bound(align)) == |s| <==> NoRoom(s, size, align)
    ensures var k := FirstFit(s, Need(size), Bound(align));
      k < |s| ==> LowestRoom(s, size, align, AlignUp(s[k].start, Bound(align)))
  {
    var need, bound := Need(size), Bound(align);
    FirstFitIsLowest(s, need, bound);
    forall i, q | 0 <= i < |s| ensures CanHold(s[i], size, align, q) <==> Placed(s[i], need, bound, q) {
      PlacedIffCanHold(s[i], size, align, q);
    }
  }

  /** What is left of chunk `k` beyond `end`, kept only when it can hold a header. */
  function Carve(s: seq<Span>, k: nat, end: int): seq<Span>
    requires k < |s|
  {
    if s[k].End() - end >= HEADER then Splice(s, k, k + 1, Span(end, s[k].End() - end)) else Without(s, k)
  }

  /** The bytes of chunk `k` that end up in neither the block nor the free list. */
  function Waste(c: Span, p: int, end: int): int {
    (p - c.start) + if c.End() - end >= HEADER then 0 else c.End() - end
  }

  // ------------------------------------------------------------ the invariant

  ghost predicate Within(s: seq<Span>, lo: int, hi: int) {
    forall i :: 0 <= i < |s| ==> lo <= s[i].start && s[i].length >= HEADER && s[i].End() <= hi
  }

  ghost predicate PairwiseDisjoint(s: seq<Span>) {
    forall i, j :: 0 <= i < j < |s| ==> Disjoint(s[i], s[j])
  }

  /** Every block of `live` is apart from every chunk of `free`. */
  ghost predicate NoOverlap(free: seq<Span>, live: seq<Span>) {
    forall j :: 0 <= j < |live| ==> Apart(free, live[j])
  }

  ghost predicate AllKept(m: Words, m': Words, live: seq<Span>) {
    forall j :: 0 <= j < |live| ==> Kept(m, m', live[j])
  }

  /** Memory, the bounds of the heap, the chunks of the free list in order, and the blocks handed out. */
  datatype HeapState = HeapState(words: Words, lo: int, hi: int, free: seq<Span>, live: seq<Span>) {
    /** The bytes of the heap that are neither free nor part of a live block. */
    function Lost(): int { hi - lo - Total(free) - Total(live) }
  }

  /** The free list in memory: coalesced, inside the heap, every chunk with room for its header. */
  ghost predicate ListSound(h: HeapState) {
    ReadsAs(h.words, h.free) && Canonical(h.free) && Roomy(h.free) && Within(h.free, h.lo, h.hi)
  }

  /** The blocks: aligned, inside the heap, apart from each other and from every free chunk. */
  ghost predicate BlocksSound(h: HeapState) {
    && Within(h.live, h.lo, h.hi) && Roomy(h.live) && PairwiseDisjoint(h.live) && NoOverlap(h.free, h.live)
    && (forall j :: 0 <= j < |h.live| ==> h.live[j].start % HEADER_ALIGN == 0)
  }

  ghost predicate Sound(h: HeapState) {
    0 <= h.lo <= h.hi <= U64_MAX && ListSound(h) && BlocksSound(h) && h.Lost() >= 0
  }

  /** No word of the header at `a` lies in a live block. */
  ghost predicate HeaderAvoids(live: seq<Span>, a: int) {
    forall j :: 0 <= j < |live| ==> a + HEADER <= live[j].start || live[j].End() <= a
  }

  lemma ChunkAvoids(free: seq<Span>, live: seq<Span>, k: nat)
    requires NoOverlap(free, live) && k < |free| && free[k].length >= HEADER
    ensures HeaderAvoids(live, free[k].start)
  {
    forall j | 0 <= j < |live| ensures free[k].start + HEADER <= live[j].start || live[j].End() <= free[k].start {
      assert Apart(free, live[j]);
    }
  }

  lemma AllKeptTrans(m0: Words, m1: Words, m2: Words, live: seq<Span>)
    requires AllKept(m0, m1, live) && AllKept(m1, m2, live)
    ensures AllKept(m0, m2, live)
  {
    forall j | 0 <= j < |live| ensures Kept(m0, m2, live[j]) {
      KeptTrans(m0, m1, m2, live[j]);
    }
  }

  lemma HeaderStoreKeepsAll(m0: Words, m: Words, live: seq<Span>, h: int, a: int, v: int)
    requires AllKept(m0, m, live) && HeaderAvoids(live, h) && h <= a <= h + WORD
    ensures AllKept(m0, Store(m, a, v), live)
  {
    forall j | 0 <= j < |live| ensures Kept(m0, Store(m, a, v), live[j]) {
      StoreKeeps(m, a, v, live[j]);
      KeptTrans(m0, m, Store(m, a, v), live[j]);
    }
  }

  /** Every link of the list is in the head cell or in the header of a free chunk. */
  lemma LinkStoreKeepsAll(m0: Words, m: Words, live: seq<Span>, free: seq<Span>, i: nat, v: int, lo: int, hi: int)
    requires AllKept(m0, m, live) && NoOverlap(free, live) && i <= |free|
    requires Within(free, lo, hi) && Within(live, lo, hi) && 0 <= lo
    ensures AllKept(m0, Store(m, LinkAt(free, i), v), live)
  {
    if i > 0 {
      ChunkAvoids(free, live, i - 1);
      HeaderStoreKeepsAll(m0, m, live, free[i - 1].start, LinkAt(free, i), v);
    } else {
      assert HeaderAvoids(live, HEAD_CELL - WORD);
      HeaderStoreKeepsAll(m0, m, live, HEAD_CELL - WORD, HEAD_CELL, v);
    }
  }

  // ---------------------------------------------------------- effects of alloc

  lemma CarveKeepsGaps(s: seq<Span>, k: nat, end: int)
    requires Canonical(s) && k < |s| && s[k].start < end <= s[k].End()
    ensures Canonical(Carve(s, k, end))
  {
    if s[k].End() - end >= HEADER {
      var rest := Span(end, s[k].End() - end);
      assert forall i :: 0 <= i < k ==> s[i].End() < rest.start;
      SpliceKeepsGaps(s, k, k + 1, rest);
    } else {
      WithoutKeepsOrder(s, k);
    }
  }

  /** Every chunk after carving is an old chunk or what is left of chunk `k`. */
  lemma CarveElements(s: seq<Span>, k: nat, end: int, i: nat)
    requires k < |s| && i < |Carve(s, k, end)|
    ensures var c := Carve(s, k, end)[i];
      (exists j :: 0 <= j < |s| && j != k && c == s[j]) || (c == Span(end, s[k].End() - end) && c.length >= HEADER)
  {
    var t := Carve(s, k, end);
    if s[k].End() - end >= HEADER {
      if i != k { assert t[i] == s[i]; }
    } else {
      var j := if i < k then i else i + 1;
      assert t[i] == s[j];
    }
  }

  lemma UntouchedChunkStays(s: seq<Span>, k: nat, end: int, j: nat)
    requires k < |s| && j < |s| && j != k
    ensures s[j] in Carve(s, k, end)
  {
    var t := Carve(s, k, end);
    if s[k].End() - end >= HEADER {
      assert t[j] == s[j];
    } else {
      assert t[if j < k then j else j - 1] == s[j];
    }
  }

  /** Of the chunk carved, what lies beyond the block stays free if a header fits into it, and nothing else does; the
      other chunks stay free as they were. */
  lemma CarveCovers(s: seq<Span>, k: nat, end: int, a: int)
    requires Ascending(s) && k < |s| && s[k].start < end <= s[k].End()
    ensures Covers(Carve(s, k, end), a) <==>
      if s[k].Has(a) then a >= end && s[k].End() - end >= 16 else Covers(s, a)
  {
    var t := Carve(s, k, end);
    if i :| 0 <= i < |t| && t[i].Has(a) { CarveElements(s, k, end, i); }
    if s[k].Has(a) && a >= end && s[k].End() - end >= HEADER {
      assert t[k] == Span(end, s[k].End() - end) && t[k].Has(a);
    }
    if j :| 0 <= j < |s| && s[j].Has(a) && j != k {
      UntouchedChunkStays(s, k, end, j);
      var i :| 0 <= i < |t| && t[i] == s[j];
    }
  }

  lemma CarveWithin(s: seq<Span>, k: nat, end: int, lo: int, hi: int)
    requires Within(s, lo, hi) && k < |s| && lo <= end
    ensures Within(Carve(s, k, end), lo, hi)
  {
    var t := Carve(s, k, end);
    forall i | 0 <= i < |t| ensures lo <= t[i].start && t[i].length >= HEADER && t[i].End() <= hi {
      CarveElements(s, k, end, i);
    }
  }

  lemma CarveApart(s: seq<Span>, k: nat, end: int, b: Span)
    requires Ascending(s) && k < |s| && s[k].start < end <= s[k].End()
    requires Apart(s, b) || (s[k].start <= b.start && b.End() <= end)
    ensures Apart(Carve(s, k, end), b)
  {
    var t := Carve(s, k, end);
    forall i | 0 <= i < |t| ensures t[i].End() <= b.start || b.End() <= t[i].start {
      CarveElements(s, k, end, i);
    }
  }

  lemma CarveTotal(s: seq<Span>, k: nat, p: int, end: int)
    requires k < |s|
    ensures Total(Carve(s, k, end)) == Total(s) - (end - p) - Waste(s[k], p, end)
  {
    if s[k].End() - end >= HEADER {
      SpliceTotal(s, k, k + 1, Span(end, s[k].End() - end));
      assert s[k..k + 1] == [s[k]];
    } else {
      WithoutTotal(s, k);
    }
  }

  lemma CarveNoOverlap(free: seq<Span>, live: seq<Span>, k: nat, b: Span)
    requires Ascending(free) && NoOverlap(free, live) && PairwiseDisjoint(live) && k < |free|
    requires free[k].start <= b.start && b.End() <= free[k].End() && b.length > 0
    ensures NoOverlap(Carve(free, k, b.End()), live + [b]) && PairwiseDisjoint(live + [b])
  {
    var all := live + [b];
    forall j | 0 <= j < |all| ensures Apart(Carve(free, k, b.End()), all[j]) {
      if j < |live| { assert Apart(free, live[j]); }
      CarveApart(free, k, b.End(), all[j]);
    }
    forall i, j | 0 <= i < j < |all| ensures Disjoint(all[i], all[j]) {
      if j == |live| { assert Apart(free, live[i]); }
    }
  }

  /** The stores of `alloc`: a header for what is left, if any, and the redirected link. */
  function CarveStores(m: Words, s: seq<Span>, k: nat, end: int): Words
    requires k < |s|
  {
    if s[k].End() - end >= HEADER then
      Store(WriteHeader(m, Span(end, s[k].End() - end), AddressAt(s, k + 1)), LinkAt(s, k), end)
    else
      Store(m, LinkAt(s, k), AddressAt(s, k + 1))
  }

  lemma CarveReads(m: Words, s: seq<Span>, k: nat, end: int)
    requires ReadsAs(m, s) && Ascending(s) && Roomy(s) && k < |s|
    requires s[k].start + HEADER <= end <= s[k].End()
    ensures ReadsAs(CarveStores(m, s, k, end), Carve(s, k, end))
  {
    if s[k].End() - end >= HEADER {
      var rest := Span(end, s[k].End() - end);
      HeaderWritten(m, s, rest, AddressAt(s, k + 1));
      SpliceKeepsOrder(s, k, k + 1, rest);
      Linked(WriteHeader(m, rest, AddressAt(s, k + 1)), s, k, k + 1, rest);
    } else {
      Unlinked(m, s, k);
    }
  }

  lemma CarveKeeps(m: Words, free: seq<Span>, live: seq<Span>, k: nat, end: int, lo: int, hi: int)
    requires NoOverlap(free, live) && k < |free| && free[k].start <= end <= free[k].End()
    requires Within(free, lo, hi) && Within(live, lo, hi) && 0 <= lo
    ensures AllKept(m, CarveStores(m, free, k, end), live)
  {
    if free[k].End() - end >= HEADER {
      var rest := Span(end, free[k].End() - end);
      assert HeaderAvoids(live, end) by {
        forall j | 0 <= j < |live| ensures end + HEADER <= live[j].start || live[j].End() <= end {
          assert Apart(free, live[j]);
        }
      }
      HeaderStoreKeepsAll(m, m, live, end, end, rest.length);
      HeaderStoreKeepsAll(m, Store(m, end, rest.length), live, end, NextCell(end), AddressAt(free, k + 1));
      LinkStoreKeepsAll(m, WriteHeader(m, rest, AddressAt(free, k + 1)), live, free, k, end, lo, hi);
    } else {
      LinkStoreKeepsAll(m, m, live, free, k, AddressAt(free, k + 1), lo, hi);
    }
  }

  /** One step of the walk: chunk `i`, reached without finding a fit, is the answer or is passed over. */
  lemma FirstFitStep(s: seq<Span>, need: int, bound: int, i: nat)
    requires bound > 0 && i <= FirstFit(s, need, bound) && i < |s|
    ensures Fits(s[i], need, bound) <==> i == FirstFit(s, need, bound)
  {
  }

  /** Rounding up leaves the address space only where no block could lie anyway. */
  lemma AlignmentOverflows(a: int, bound: int, align: U64)
    requires IsPowerOfTwo(align) && bound == Bound(align)
    requires 0 <= a <= U64_MAX && a + (bound - 1) > U64_MAX
    ensures AlignUp(a, bound) > U64_MAX
  {
    WordSizeIsPowerOfTwo();
    BoundDivides(align);
    PowersDivide(bound, U64_MAX + 1);
    var top := (U64_MAX + 1) / bound;
    assert top * bound == U64_MAX + 1;
    RoundDownReaches(a + bound - 1, bound, top);
  }

  lemma RoundDownReaches(y: int, n: int, top: int)
    requires n > 0 && top * n <= y
    ensures top * n <= RoundDown(y, n)
  {
    var d := top - y / n;
    assert d * n == top * n - y / n * n;
    assert d > 0 ==> d * n >= n;
    assert d <= 0 ==> d * n <= 0;
  }

  /** What `alloc` reads of chunk `k`, also once the remainder's size has been written at `end`. */
  lemma ChunkHeader(m: Words, s: seq<Span>, k: nat, end: int)
    requires ReadsAs(m, s) && k < |s| && s[k].start + HEADER <= end
    ensures LinkAt(s, k) in m && m[LinkAt(s, k)] == s[k].start
    ensures s[k].start in m && m[s[k].start] == s[k].length
    ensures var cell := NextCell(s[k].start);
      && cell == LinkAt(s, k + 1) && cell in m && m[cell] == AddressAt(s, k + 1)
      && forall v :: cell in Store(m, end, v) && Store(m, end, v)[cell] == m[cell]
  {
    LinkHolds(m, s, k);
    assert HeaderAt(m, s, k);
  }

  /** The heap after block `b` has been taken out of free chunk `k`. */
  function CarvedHeap(h: HeapState, k: nat, b: Span): HeapState
    requires k < |h.free|
  {
    HeapState(CarveStores(h.words, h.free, k, b.End()), h.lo, h.hi, Carve(h.free, k, b.End()), h.live + [b])
  }

  ghost predicate CanCarve(h: HeapState, k: nat, b: Span) {
    && k < |h.free| && h.free[k].start <= b.start && b.End() <= h.free[k].End()
    && b.length >= HEADER && b.start % HEADER_ALIGN == 0
  }

  lemma CarvedList(h: HeapState, k: nat, b: Span)
    requires ListSound(h) && 0 <= h.lo && CanCarve(h, k, b)
    ensures ListSound(CarvedHeap(h, k, b))
  {
    CarveReads(h.words, h.free, k, b.End());
    CarveKeepsGaps(h.free, k, b.End());
    CarveWithin(h.free, k, b.End(), h.lo, h.hi);
    CarveWithin(h.free, k, b.End(), 1, h.hi);
  }

  lemma CarvedBlocks(h: HeapState, k: nat, b: Span)
    requires ListSound(h) && BlocksSound(h) && CanCarve(h, k, b)
    ensures BlocksSound(CarvedHeap(h, k, b))
  {
    CarveNoOverlap(h.free, h.live, k, b);
    assert Roomy(h.live + [b]);
  }

  /** Taking a block out of a free chunk keeps everything the heap promises. */
  lemma CarvedIsSound(h: HeapState, k: nat, b: Span)
    requires Sound(h) && CanCarve(h, k, b)
    ensures Sound(CarvedHeap(h, k, b)) && AllKept(h.words, CarvedHeap(h, k, b).words, h.live)
    ensures CarvedHeap(h, k, b).Lost() == h.Lost() + Waste(h.free[k], b.start, b.End())
  {
    CarvedList(h, k, b);
    CarvedBlocks(h, k, b);
    CarveKeeps(h.words, h.free, h.live, k, b.End(), h.lo, h.hi);
    CarveTotal(h.free, k, b.start, b.End());
    TotalConcat(h.live, [b]);
  }

  // -------------------------------------------------------- effects of dealloc

  lemma JoinedWithin(s: seq<Span>, b: Span, lo: int, hi: int)
    requires Within(s, lo, hi) && lo <= b.start && b.length >= HEADER && b.End() <= hi
    ensures Within([Joined(s, b)], lo, hi)
  {
  }

  lemma InsertWithin(s: seq<Span>, b: Span, lo: int, hi: int)
    requires Within(s, lo, hi) && lo <= b.start && b.length >= HEADER && b.End() <= hi
    ensures Within(Insert(s, b), lo, hi)
  {
    JoinedWithin(s, b, lo, hi);
    var t, m, d := Insert(s, b), Joined(s, b), JoinHigh(s, b) - JoinLow(s, b) - 1;
    assert [m][0] == m;
    forall i | 0 <= i < |t| ensures lo <= t[i].start && t[i].length >= HEADER && t[i].End() <= hi {
      if i < JoinLow(s, b) { assert t[i] == s[i]; } else if i > JoinLow(s, b) { assert t[i] == s[i + d]; }
    }
  }

  lemma WithoutDisjoint(live: seq<Span>, i: nat, free: seq<Span>, lo: int, hi: int)
    requires PairwiseDisjoint(live) && NoOverlap(free, live) && Within(live, lo, hi) && i < |live|
    ensures PairwiseDisjoint(Without(live, i)) && NoOverlap(free, Without(live, i)) && Within(Without(live, i), lo, hi)
    ensures forall j :: 0 <= j < |Without(live, i)| ==> Disjoint(live[i], Without(live, i)[j])
  {
    var t := Without(live, i);
    assert forall j :: 0 <= j < |t| ==> t[j] == live[if j < i then j else j + 1];
  }

  lemma InsertNoOverlap(free: seq<Span>, live: seq<Span>, b: Span)
    requires Ascending(free) && Apart(free, b) && NoOverlap(free, live) && b.length > 0
    requires forall j :: 0 <= j < |live| ==> live[j].length > 0 && Disjoint(b, live[j])
    ensures NoOverlap(Insert(free, b), live)
  {
    forall j | 0 <= j < |live| ensures Apart(Insert(free, b), live[j]) {
      assert Apart(free, live[j]);
      ApartAfterInsert(free, b, live[j]);
    }
  }

  /** The list once chunk `k` has been merged with its successor, if the two touch. */
  function MergedAt(s: seq<Span>, k: nat): seq<Span>
    requires k < |s|
  {
    if k + 1 < |s| && s[k].End() == s[k + 1].start then Absorb(s, k) else s
  }

  /** The free list after the first step of `dealloc`: block `b` linked in, nothing merged. */
  function LinkedIn(s: seq<Span>, b: Span): (t: seq<Span>)
    ensures |t| == |s| + 1 && t[Position(s, b.start)] == b
  {
    Splice(s, Position(s, b.start), Position(s, b.start), b)
  }

  /** The free list after the second step: `b` merged with what follows it. */
  function MergedRight(s: seq<Span>, b: Span): seq<Span> {
    MergedAt(LinkedIn(s, b), Position(s, b.start))
  }

  lemma AbsorbMiddle(p: seq<Span>, x: Span, y: Span, q: seq<Span>)
    ensures Absorb(p + [x, y] + q, |p|) == p + [Span(x.start, x.length + y.length)] + q
  {
    var s := p + [x, y] + q;
    assert s[..|p|] == p && s[|p| + 2..] == q;
  }

  lemma AbsorbLast(p: seq<Span>, y: Span, q: seq<Span>)
    requires p != []
    ensures var x, k := p[|p| - 1], |p| - 1;
      Absorb(p + [y] + q, k) == p[..k] + [Span(x.start, x.length + y.length)] + q
  {
    var k := |p| - 1;
    AbsorbMiddle(p[..k], p[k], y, q);
    assert p + [y] + q == p[..k] + [p[k], y] + q;
  }

  /** `b` grown over the chunk that follows it, if they touch. */
  function Grown(s: seq<Span>, b: Span): Span {
    Span(b.start, b.length + if JoinsRight(s, b) then s[Position(s, b.start)].length else 0)
  }

  lemma SpliceBefore(s: seq<Span>, k: nat, b: Span)
    requires k < |s|
    ensures Splice(s, k, k, b) == s[..k] + [b, s[k]] + s[k + 1..] && Splice(s, k, k, b)[k + 1] == s[k]
  {
    assert s[k..] == [s[k]] + s[k + 1..];
    assert [b] + [s[k]] == [b, s[k]];
  }

  lemma NothingOnTheRight(s: seq<Span>, b: Span)
    requires !JoinsRight(s, b)
    ensures MergedRight(s, b) == LinkedIn(s, b) && Grown(s, b) == b && JoinHigh(s, b) == Position(s, b.start)
  {
    var k := Position(s, b.start);
    if k < |s| { SpliceBefore(s, k, b); }
  }

  lemma GrownOverNext(s: seq<Span>, b: Span)
    requires JoinsRight(s, b)
    ensures var k := Position(s, b.start);
      MergedRight(s, b) == s[..k] + [Grown(s, b)] + s[k + 1..] && JoinHigh(s, b) == k + 1
  {
    var k := Position(s, b.start);
    SpliceBefore(s, k, b);
    AbsorbMiddle(s[..k], b, s[k], s[k + 1..]);
  }

  lemma MergedRightShape(s: seq<Span>, b: Span)
    ensures MergedRight(s, b) == s[..Position(s, b.start)] + [Grown(s, b)] + s[JoinHigh(s, b)..]
  {
    if JoinsRight(s, b) { GrownOverNext(s, b); } else { NothingOnTheRight(s, b); }
  }

  lemma MergedLeftShape(s: seq<Span>, b: Span)
    requires JoinsLeft(s, b)
    ensures var k := Position(s, b.start);
      Absorb(s[..k] + [Grown(s, b)] + s[JoinHigh(s, b)..], k - 1) == Insert(s, b)
  {
    var k, p, g := Position(s, b.start), s[..Position(s, b.start)], Grown(s, b);
    AbsorbLast(p, g, s[JoinHigh(s, b)..]);
    assert p[..k - 1] == s[..k - 1] && p[k - 1] == s[k - 1];
    assert Joined(s, b) == Span(s[k - 1].start, s[k - 1].length + g.length);
  }

  lemma NothingOnTheLeft(s: seq<Span>, b: Span)
    requires !JoinsLeft(s, b)
    ensures Insert(s, b) == MergedRight(s, b)
  {
    MergedRightShape(s, b);
    assert Joined(s, b) == Grown(s, b);
  }

  lemma MergedRightAt(s: seq<Span>, b: Span)
    ensures var k, t := Position(s, b.start), MergedRight(s, b);
      k < |t| && t[k].start == b.start && (k > 0 ==> t[k - 1] == s[k - 1])
  {
    MergedRightShape(s, b);
  }

  /** The free list after the third step: what was merged so far, merged with what precedes it. */
  function MergedBoth(s: seq<Span>, b: Span): seq<Span> {
    var k := Position(s, b.start);
    if 0 < k <= |MergedRight(s, b)| then MergedAt(MergedRight(s, b), k - 1) else MergedRight(s, b)
  }

  /** The three steps of `dealloc` make the coalesced list. */
  lemma MergesInsert(s: seq<Span>, b: Span)
    ensures Insert(s, b) == MergedBoth(s, b)
  {
    MergedRightAt(s, b);
    if JoinsLeft(s, b) {
      MergedRightShape(s, b);
      MergedLeftShape(s, b);
    } else {
      NothingOnTheLeft(s, b);
    }
  }

  lemma PositionIsUnique(s: seq<Span>, a: int, i: nat)
    requires i <= |s|
    requires forall j :: 0 <= j < i ==> s[j].start < a
    requires i < |s| ==> a <= s[i].start
    ensures i == Position(s, a)
  {
    var k := Position(s, a);
  }

  lemma WholeHeap(m: Words, c: Span)
    requires c.start > NULL && c.length >= HEADER
    ensures ReadsAs(Store(WriteHeader(m, c, NULL), HEAD_CELL, c.start), [c])
    ensures Canonical([c]) && Total([c]) == c.length && Total([]) == 0
  {
    assert [c][1..] == [];
  }

  /** The list in memory while `dealloc` edits it: neighbours may touch for the moment. */
  ghost predicate Listed(m: Words, s: seq<Span>) {
    ReadsAs(m, s) && Ascending(s) && Roomy(s)
  }

  /** No header of the list, nor the head cell, lies in a block. */
  ghost predicate Clear(s: seq<Span>, live: seq<Span>) {
    && (forall k :: 0 <= k < |s| ==> HeaderAvoids(live, s[k].start))
    && (forall j :: 0 <= j < |live| ==> live[j].start >= 0)
  }

  lemma MergeStores(m: Words, s: seq<Span>, k: nat, chunk: int, size: int, successor: int)
    requires Listed(m, s) && k + 1 < |s| && s[k].End() == s[k + 1].start
    requires chunk == s[k].start && size == s[k].length + s[k + 1].length && successor == AddressAt(s, k + 2)
    ensures Listed(Store(Store(m, chunk, size), NextCell(chunk), successor), Absorb(s, k))
  {
    assert Absorb(s, k)[k] == Span(chunk, size);
    AbsorbKeepsOrder(s, k);
    Absorbed(m, s, k);
  }

  lemma OtherCellKept(m: Words, s: seq<Span>, k: nat, a: int, v: int)
    requires ReadsAs(m, s) && k < |s| && a + HEADER <= s[k].start
    ensures var cell := NextCell(s[k].start);
      cell in Store(m, a, v) && Store(m, a, v)[cell] == AddressAt(s, k + 1)
  {
    assert HeaderAt(m, s, k);
  }

  lemma LinkStoreKept(m0: Words, m: Words, s: seq<Span>, live: seq<Span>, i: nat, v: int)
    requires AllKept(m0, m, live) && Clear(s, live) && i <= |s|
    ensures AllKept(m0, Store(m, LinkAt(s, i), v), live)
  {
    if i > 0 {
      HeaderStoreKeepsAll(m0, m, live, s[i - 1].start, LinkAt(s, i), v);
    } else {
      HeaderStoreKeepsAll(m0, m, live, HEAD_CELL - WORD, HEAD_CELL, v);
    }
  }

  lemma SpliceIsClear(s: seq<Span>, lo: nat, hi: nat, b: Span, live: seq<Span>)
    requires Clear(s, live) && HeaderAvoids(live, b.start) && lo <= hi <= |s|
    ensures Clear(Splice(s, lo, hi, b), live)
  {
    var t, d := Splice(s, lo, hi, b), hi - lo - 1;
    forall q | 0 <= q < |t| ensures HeaderAvoids(live, t[q].start) {
      if q < lo { assert t[q] == s[q]; } else if q > lo { assert t[q] == s[q + d]; }
    }
  }

  lemma AbsorbIsClear(s: seq<Span>, k: nat, live: seq<Span>)
    requires Clear(s, live) && k + 1 < |s|
    ensures Clear(Absorb(s, k), live)
  {
    SpliceIsClear(s, k, k + 2, Span(s[k].start, s[k].length + s[k + 1].length), live);
  }

  lemma SpliceIsRoomy(s: seq<Span>, lo: nat, hi: nat, b: Span)
    requires Roomy(s) && lo <= hi <= |s| && b.start > NULL && b.length >= HEADER
    ensures Roomy(Splice(s, lo, hi, b))
  {
    var t, d := Splice(s, lo, hi, b), hi - lo - 1;
    forall q | 0 <= q < |t| ensures t[q].start > NULL && t[q].length >= HEADER {
      if q < lo { assert t[q] == s[q]; } else if q > lo { assert t[q] == s[q + d]; }
    }
  }

  lemma LinkedInIsListed(m: Words, s: seq<Span>, b: Span)
    requires Listed(m, s) && Apart(s, b) && b.start > NULL && b.length >= HEADER
    requires HeaderIn(m, b, AddressAt(s, Position(s, b.start)))
    ensures Listed(Store(m, LinkAt(s, Position(s, b.start)), b.start), LinkedIn(s, b))
  {
    var k := Position(s, b.start);
    InsertPosition(s, b);
    SpliceKeepsOrder(s, k, k, b);
    SpliceIsRoomy(s, k, k, b);
    Linked(m, s, k, k, b);
  }

  /** The heap after block `i` has been given back. */
  ghost predicate GivenBack(h: HeapState, i: nat, h': HeapState) {
    && i < |h.live| && h'.lo == h.lo && h'.hi == h.hi
    && h'.free == Insert(h.free, h.live[i]) && h'.live == Without(h.live, i)
    && ReadsAs(h'.words, h'.free)
  }

  lemma GivenBackList(h: HeapState, i: nat, h': HeapState)
    requires Sound(h) && GivenBack(h, i, h')
    ensures ListSound(h')
  {
    assert Apart(h.free, h.live[i]);
    InsertKeepsGaps(h.free, h.live[i]);
    InsertWithin(h.free, h.live[i], h.lo, h.hi);
    InsertWithin(h.free, h.live[i], 1, h.hi);
  }

  lemma GivenBackBlocks(h: HeapState, i: nat, h': HeapState)
    requires Sound(h) && GivenBack(h, i, h')
    ensures BlocksSound(h')
  {
    assert Apart(h.free, h.live[i]);
    WithoutDisjoint(h.live, i, h.free, h.lo, h.hi);
    InsertNoOverlap(h.free, Without(h.live, i), h.live[i]);
    assert forall j :: 0 <= j < |h'.live| ==> h'.live[j] in h.live;
  }

  /** A live block can be put back: nothing the list touches lies in another live block. */
  lemma ReadyToGiveBack(h: HeapState, i: nat)
    requires Sound(h) && i < |h.live|
    ensures Listed(h.words, h.free) && Apart(h.free, h.live[i])
    ensures Clear(h.free, Without(h.live, i)) && HeaderAvoids(Without(h.live, i), h.live[i].start)
  {
    WithoutDisjoint(h.live, i, h.free, h.lo, h.hi);
    forall k | 0 <= k < |h.free| ensures HeaderAvoids(Without(h.live, i), h.free[k].start) {
      ChunkAvoids(h.free, Without(h.live, i), k);
    }
  }

  /** Giving a block back keeps everything the heap promises and loses nothing. */
  lemma GivenBackIsSound(h: HeapState, i: nat, h': HeapState)
    requires Sound(h) && GivenBack(h, i, h')
    ensures Sound(h') && h'.Lost() == h.Lost()
  {
    GivenBackList(h, i, h');
    GivenBackBlocks(h, i, h');
    InsertTotal(h.free, h.live[i]);
    WithoutTotal(h.live, i);
  }

  /** The heap after block `i` has been given back and the list in memory rewritten to `m`. */
  function Returned(h: HeapState, i: nat, m: Words): HeapState
    requires i < |h.live|
  {
    h.(words := m, free := Insert(h.free, h.live[i]), live := Without(h.live, i))
  }

  lemma ReturnedIsSound(h: HeapState, i: nat, m: Words)
    requires Sound(h) && i < |h.live| && ReadsAs(m, MergedBoth(h.free, h.live[i]))
    ensures Sound(Returned(h, i, m)) && Returned(h, i, m).Lost() == h.Lost()
  {
    MergesInsert(h.free, h.live[i]);
    GivenBackIsSound(h, i, Returned(h, i, m));
  }

  // ------------------------------------------------------------------ theorems

  /** Without waste, carving takes the front of the chunk. */
  lemma CarveWithoutWaste(s: seq<Span>, k: nat, need: int)
    requires Ascending(s) && k < |s| && HEADER <= need <= s[k].length
    requires Waste(s[k], s[k].start, s[k].start + need) == 0
    ensures Carve(s, k, s[k].start + need) == TakeFront(s, k, need)
  {
  }

  lemma NoWasteRestores(s: seq<Span>, k: nat, b: Span)
    requires Canonical(s) && k < |s| && HEADER <= b.length <= s[k].length && b.start == s[k].start
    requires Waste(s[k], b.start, b.End()) == 0
    ensures Insert(Carve(s, k, b.End()), b) == s
  {
    var end := s[k].start + b.length;
    assert b == Span(s[k].start, b.length) && b.End() == end;
    CarveWithoutWaste(s, k, b.length);
    assert Carve(s, k, b.End()) == TakeFront(s, k, b.length);
    TakeThenInsert(s, k, b.length);
  }

  lemma WasteShows(s: seq<Span>, k: nat, b: Span)
    requires k < |s|
    ensures Total(Insert(Carve(s, k, b.End()), b)) == Total(s) - Waste(s[k], b.start, b.End())
  {
    CarveTotal(s, k, b.start, b.End());
    InsertTotal(Carve(s, k, b.End()), b);
  }

  /** A block taken out of chunk `k` and returned at once restores the list exactly when nothing was wasted. */
  lemma AllocThenDealloc(s: seq<Span>, k: nat, b: Span)
    requires Canonical(s) && k < |s| && b.length >= HEADER
    requires s[k].start <= b.start && b.End() <= s[k].End()
    ensures var t, waste := Insert(Carve(s, k, b.End()), b), Waste(s[k], b.start, b.End());
      && (waste == 0 ==> t == s)
      && (waste != 0 ==> Total(t) == Total(s) - waste < Total(s))
  {
    WasteShows(s, k, b);
    if Waste(s[k], b.start, b.End()) == 0 {
      NoWasteRestores(s, k, b);
    }
  }

  /** Once every block is back, a heap that lost nothing is one chunk again, however fragmented it was. */
  lemma DrainedHeapIsWhole(h: HeapState)
    requires Sound(h) && h.live == [] && h.Lost() == 0 && h.lo < h.hi
    ensures h.free == [Span(h.lo, h.hi - h.lo)]
  {
    FullCoverIsOneSpan(h.free, h.lo, h.hi);
  }

  /** The order in which the live blocks are returned does not show in the free list. */
  lemma ReleaseOrderIsInvisible(h: HeapState, order: seq<Span>)
    requires Sound(h) && |order| == |h.live| && forall b :: b in order <==> b in h.live
    requires PairwiseDisjoint(order)
    ensures InsertAll(h.free, order) == InsertAll(h.free, h.live)
  {
    assert CanInsertAll(h.free, h.live);
    forall i | 0 <= i < |order| ensures order[i].length > 0 && Apart(h.free, order[i]) {
      assert order[i] in h.live;
    }
    InsertOrderIsInvisible(h.free, order, h.live);
  }

  /** What a client writes into its own block never touches the list. */
  lemma ClientStoreIsHarmless(h: HeapState, i: nat, a: int, v: int)
    requires Sound(h) && i < |h.live| && h.live[i].start <= a && a + WORD <= h.live[i].End()
    ensures Sound(h.(words := Store(h.words, a, v)))
  {
    assert Apart(h.free, h.live[i]);
    StoreAside(h.words, h.free, a, v);
  }

  // ----------------------------------------------------------- one call at a time

  /** A request that was served, a block given back, or a client's write into its own block. */
  datatype Event = Served(size: U64, align: U64) | Released(i: nat) | Written(i: nat, a: int, v: int)

  ghost predicate Step(h: HeapState, e: Event, h': HeapState) {
    match e
    case Served(size, align) =>
      && IsPowerOfTwo(align)
      && var need, bound := Need(size), Bound(align);
         var k := FirstFit(h.free, need, bound);
         k < |h.free| && h' == CarvedHeap(h, k, Span(AlignUp(h.free[k].start, bound), need))
    case Released(i) =>
      && i < |h.live| && h' == Returned(h, i, h'.words) && ReadsAs(h'.words, h'.free)
      && AllKept(h.words, h'.words, h'.live)
    case Written(i, a, v) =>
      && i < |h.live| && h.live[i].start <= a && a + WORD <= h.live[i].End()
      && h' == h.(words := Store(h.words, a, v))
  }

  // ------------------------------------------------------------- the allocator

  class AgnostOSAllocator {
    var words: Words
    ghost var lo: int
    ghost var hi: int
    ghost var free: seq<Span>    // the chunks of the free list, in list order
    ghost var live: seq<Span>    // the blocks handed out and not yet returned

    ghost function State(): HeapState
      reads this
    {
      HeapState(words, lo, hi, free, live)
    }

    ghost predicate Valid()
      reads this
    {
      Sound(State())
    }

    constructor ()
      ensures Valid() && free == [] && live == [] && lo == hi
    {
      words := map[HEAD_CELL := NULL];
      lo, hi := 0, 0;
      free, live := [], [];
    }

    /** A region that starts at address zero is accepted too, but its first chunk is then the null pointer: the list
        reads as empty and the whole region is lost. */
    method Init(start: U64, size: U64) returns (r: Result<(), HeapError>)
      requires Valid() && lo == hi && free == [] && live == []
      requires start + size <= U64_MAX
      modifies this
      ensures Valid() && live == []
      ensures r == if size < HEADER then Err(TooSmall)
                   else if start % HEADER_ALIGN != 0 then Err(Misaligned) else Ok(())
      ensures r.Ok? ==> lo == start && hi == start + size
      ensures r.Ok? ==> free == if start > 0 then [Span(start, size)] else []
      ensures r.Ok? ==> State().Lost() == if start > 0 then 0 else size
      ensures r.Err? ==> free == [] && words == old(words) && lo == old(lo) && hi == old(hi)
    {
      if size < HEADER {
        return Err(TooSmall);
      }
      if start % HEADER_ALIGN != 0 {
        return Err(Misaligned);
      }
      var chunk := start;
      words := Store(words, chunk, size);
      words := Store(words, NextCell(chunk), NULL);
      words := Store(words, HEAD_CELL, chunk);
      lo, hi := start, start + size;
      if start > 0 {
        free := [Span(start, size)];
        WholeHeap(old(words), free[0]);
      }
      return Ok(());
    }

    /** Writes what is left of chunk `k` beyond `end` back as a chunk, or drops it when no header fits. */
    method PutBackRemainder(link: int, end: int, ghost s: seq<Span>, ghost k: nat)
      requires ReadsAs(words, s) && k < |s| && link == LinkAt(s, k) && s[k].start + HEADER <= end
      modifies this`words
      ensures words == CarveStores(old(words), s, k, end)
    {
      ChunkHeader(words, s, k, end);
      var chunk := words[link];
      var remainderSize := chunk + words[chunk] - end;
      assert remainderSize == s[k].End() - end;
      ghost var m := words;
      if remainderSize >= HEADER {
        var remainder := end;
        words := Store(words, remainder, remainderSize);
        var next := words[NextCell(chunk)];
        assert next == AddressAt(s, k + 1);
        words := Store(words, NextCell(remainder), next);
        assert words == WriteHeader(m, Span(end, s[k].End() - end), AddressAt(s, k + 1));
        words := Store(words, link, remainder);
        assert words == CarveStores(m, s, k, end);
      } else {
        assert words[NextCell(chunk)] == AddressAt(s, k + 1);
        words := Store(words, link, words[NextCell(chunk)]);
        assert words == CarveStores(m, s, k, end);
      }
    }

    /** Takes block `b` out of free chunk `i`, which `link` points to. */
    method CarveChunk(link: int, b: Span, ghost i: nat)
      requires Valid() && CanCarve(State(), i, b) && link == LinkAt(free, i)
      modifies this
      ensures Valid() && State() == CarvedHeap(old(State()), i, b)
      ensures State().Lost() == old(State().Lost()) + Waste(old(free)[i], b.start, b.End())
      ensures AllKept(old(words), words, old(live))
    {
      PutBackRemainder(link, b.End(), free, i);
      free, live := Carve(free, i, b.End()), live + [b];
      assert State() == CarvedHeap(old(State()), i, b);
      CarvedIsSound(old(State()), i, b);
    }

    /** Whether a block fits into the chunk, and where it starts; a sum that leaves the address space does not fit. */
    static method PlaceIn(chunk: int, size: int, need: int, bound: int, ghost align: U64)
      returns (fits: bool, aligned: int)
      requires IsPowerOfTwo(align) && bound == Bound(align) && need >= HEADER
      requires 0 < chunk && 0 < size && chunk + size <= U64_MAX
      ensures fits <==> Fits(Span(chunk, size), need, bound)
      ensures fits ==> aligned == AlignUp(chunk, bound)
    {
      var unmasked := chunk + (bound - 1);
      if unmasked > U64_MAX {
        AlignmentOverflows(chunk, bound, align);
        return false, 0;
      }
      aligned := RoundDown(unmasked, bound);
      var end := aligned + need;
      if end > U64_MAX {
        return false, aligned;
      }
      return end <= chunk + size, aligned;
    }

    /** The walk of `alloc`: the link to the first chunk that fits and where the block starts in it. */
    method FindFit(need: int, bound: int, ghost align: U64) returns (prev: int, aligned: int, found: bool, ghost i: nat)
      requires ReadsAs(words, free) && Roomy(free) && forall j :: 0 <= j < |free| ==> free[j].End() <= U64_MAX
      requires IsPowerOfTwo(align) && bound == Bound(align) && need >= HEADER
      ensures i == FirstFit(free, need, bound)
      ensures found <==> FirstFit(free, need, bound) < |free|
      ensures var k := FirstFit(free, need, bound);
        found ==> prev == LinkAt(free, k) && aligned == AlignUp(free[k].start, bound)
    {
      var current := HEAD_CELL;
      prev, aligned, i := HEAD_CELL, 0, 0;
      while words[current] != NULL
        invariant i <= |free| && prev == current == LinkAt(free, i)
        invariant current in words && words[current] == AddressAt(free, i)
        invariant i <= FirstFit(free, need, bound)
        decreases |free| - i
      {
        var chunk := words[current];
        ChunkHeader(words, free, i, chunk + HEADER);
        FirstFitStep(free, need, bound, i);
        var fits;
        fits, aligned := PlaceIn(chunk, words[chunk], need, bound, align);
        if fits {
          return prev, aligned, true, i;
        }
        i := i + 1;
        prev, current := NextCell(chunk), NextCell(chunk);
      }
      return prev, aligned, false, i;
    }

    method Alloc(size: U64, align: U64) returns (p: U64)
      requires Valid() && IsPowerOfTwo(align)
      modifies this
      ensures Valid() && lo == old(lo) && hi == old(hi)
      ensures p == NULL <==> NoRoom(old(free), size, align)
      ensures p != NULL ==>
        && live == old(live) + [Span(p, if size >= HEADER then size else HEADER)]
        && LowestRoom(old(free), size, align, p)
      ensures var need, bound := Need(size), Bound(align);
        var k := FirstFit(old(free), need, bound);
        if k == |old(free)| then
          p == NULL && State() == old(State())
        else
          && p == AlignUp(old(free)[k].start, bound) && p != NULL
          && State() == CarvedHeap(old(State()), k, Span(p, need))
          && State().Lost() == old(State().Lost()) + Waste(old(free)[k], p, p + need)
      ensures p != NULL ==> Step(old(State()), Served(size, align), State())
      ensures AllKept(old(words), words, old(live))
    {
      var need, bound := Need(size), Bound(align);
      FirstFitAnswers(free, size, align);
      var link, aligned, found, i := FindFit(need, bound, align);
      if !found {
        return NULL;
      }
      AlignUpIsLeast(free[i].start, bound);
      BlockAligned(aligned, bound, align);
      var block := Span(aligned, need);
      CarveChunk(link, block, i);
      return aligned;
    }

    /** The link behind which a chunk at this address belongs. */
    method FindLink(chunk: int, ghost s: seq<Span>) returns (link: int, ghost i: nat)
      requires Listed(words, s)
      ensures i == Position(s, chunk) && link == LinkAt(s, i)
      ensures link in words && words[link] == AddressAt(s, i)
    {
      link := HEAD_CELL;
      i := 0;
      while words[link] != NULL && words[link] < chunk
        invariant i <= |s| && link == LinkAt(s, i)
        invariant link in words && words[link] == AddressAt(s, i)
        invariant forall j :: 0 <= j < i ==> s[j].start < chunk
        decreases |s| - i
      {
        ChunkHeader(words, s, i, s[i].start + HEADER);
        link := NextCell(words[link]);
        i := i + 1;
      }
      PositionIsUnique(s, chunk, i);
    }

    /** Writes the header of `b` and inserts it in address order into the list `s`. */
    method LinkIn(b: Span, ghost s: seq<Span>, ghost others: seq<Span>)
      requires Listed(words, s) && Apart(s, b) && b.start > NULL && b.length >= HEADER
      requires Clear(s, others) && HeaderAvoids(others, b.start)
      modifies this`words
      ensures Listed(words, LinkedIn(s, b)) && Clear(LinkedIn(s, b), others)
      ensures AllKept(old(words), words, others)
    {
      ghost var m0 := words;
      var chunk := b.start;
      words := Store(words, chunk, b.length);
      InsertPosition(s, b);
      StoreAside(m0, s, chunk, b.length);
      HeaderStoreKeepsAll(m0, m0, others, chunk, chunk, b.length);
      ghost var m1 := words;
      var link;
      ghost var i;
      link, i := FindLink(chunk, s);
      words := Store(words, NextCell(chunk), words[link]);
      HeaderWritten(m0, s, b, AddressAt(s, i));
      HeaderStoreKeepsAll(m0, m1, others, chunk, NextCell(chunk), AddressAt(s, i));
      ghost var m2 := words;
      words := Store(words, link, chunk);
      LinkStoreKept(m0, m2, s, others, i, chunk);
      LinkedInIsListed(m2, s, b);
      SpliceIsClear(s, i, i, b, others);
    }

    /** Gives chunk `k` the bytes of the chunk after it, which it touches. */
    method TakeOverNext(chunk: int, next: int, ghost s: seq<Span>, ghost k: nat, ghost others: seq<Span>)
      requires Listed(words, s) && k + 1 < |s| && chunk == s[k].start && next == s[k + 1].start && Clear(s, others)
      requires s[k].End() == next
      modifies this`words
      ensures Listed(words, Absorb(s, k)) && Clear(Absorb(s, k), others)
      ensures AllKept(old(words), words, others)
    {
      ghost var m0 := words;
      ChunkHeader(words, s, k, chunk + HEADER);
      ChunkHeader(words, s, k + 1, next + HEADER);
      HeadersApart(s, k, k + 1);
      var size := words[chunk] + words[next];
      OtherCellKept(words, s, k + 1, chunk, size);
      words := Store(words, chunk, size);
      var successor := words[NextCell(next)];
      HeaderStoreKeepsAll(m0, m0, others, chunk, chunk, size);
      HeaderStoreKeepsAll(m0, words, others, chunk, NextCell(chunk), successor);
      words := Store(words, NextCell(chunk), successor);
      MergeStores(m0, s, k, chunk, size, successor);
      AbsorbIsClear(s, k, others);
    }

    /** Merges chunk `k` of the list `s` with the chunk after it when the two touch. */
    method MergeWithNext(chunk: int, ghost s: seq<Span>, ghost k: nat, ghost others: seq<Span>)
      requires Listed(words, s) && k < |s| && chunk == s[k].start && Clear(s, others)
      modifies this`words
      ensures Listed(words, MergedAt(s, k)) && Clear(MergedAt(s, k), others)
      ensures AllKept(old(words), words, others)
    {
      ChunkHeader(words, s, k, chunk + HEADER);
      var next := words[NextCell(chunk)];
      if next != NULL && chunk + words[chunk] == next {
        TakeOverNext(chunk, next, s, k, others);
      }
    }

    /** The chunk before chunk `k` of the list `s`, or null when `k` is the first. */
    method FindPrevious(chunk: int, ghost s: seq<Span>, ghost k: nat) returns (previous: int)
      requires Listed(words, s) && k < |s| && chunk == s[k].start
      ensures previous == if k == 0 then NULL else s[k - 1].start
    {
      previous := NULL;
      var current := words[HEAD_CELL];
      ghost var i: nat := 0;
      while current != NULL && current != chunk
        invariant i <= k && current == s[i].start
        invariant previous == if i == 0 then NULL else s[i - 1].start
        decreases k - i
      {
        ChunkHeader(words, s, i, s[i].start + HEADER);
        assert i < k;
        previous := current;
        current := words[NextCell(current)];
        i := i + 1;
      }
    }

    /** Links `b` into the list `s`, then merges it with the chunks around it. */
    method Reinsert(b: Span, ghost s: seq<Span>, ghost others: seq<Span>)
      requires Listed(words, s) && Apart(s, b) && b.start > NULL && b.length >= HEADER
      requires Clear(s, others) && HeaderAvoids(others, b.start)
      modifies this`words
      ensures ReadsAs(words, MergedBoth(s, b))
      ensures AllKept(old(words), words, others)
    {
      ghost var m0, k, right := words, Position(s, b.start), MergedRight(s, b);
      MergedRightAt(s, b);
      LinkIn(b, s, others);
      ghost var m1 := words;
      MergeWithNext(b.start, LinkedIn(s, b), k, others);
      ghost var m2 := words;
      AllKeptTrans(m0, m1, m2, others);
      var previous := FindPrevious(b.start, right, k);
      if previous != NULL {
        MergeWithNext(previous, right, k - 1, others);
        AllKeptTrans(m0, m2, words, others);
      }
    }

    /** What `dealloc` does to the bookkeeping once the list in memory is in order. */
    ghost method Settle(i: nat)
      requires i < |live| && Sound(Returned(State(), i, words))
      modifies this`free, this`live
      ensures Valid() && State() == Returned(old(State()), i, words)
    {
      free, live := Insert(free, live[i]), Without(live, i);
    }

    /** Returns block `i`; `size` is the size it was requested with. */
    method Dealloc(ptr: U64, size: U64, ghost i: nat)
      requires Valid() && i < |live| && live[i] == Span(ptr, Need(size))
      modifies this
      ensures Valid() && State() == Returned(old(State()), i, words)
      ensures Step(old(State()), Released(i), State())
      ensures AllKept(old(words), words, live)
    {
      ghost var h := State();
      ReadyToGiveBack(h, i);
      Reinsert(Span(ptr, Need(size)), free, Without(live, i));
      ReturnedIsSound(h, i, words);
      assert Returned(State(), i, words) == Returned(h, i, words);
      Settle(i);
    }
  }
}
