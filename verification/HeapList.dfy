/** The kernel heap's free list as it lies in memory: two-word headers inside the free bytes themselves. */
module HeapList {
  import opened Machine
  import opened Spans

  const WORD: int := 8
  const HEADER: int := 16        // size_of::<FreeChunk>(): the `size` word, then the `next` word
  const HEADER_ALIGN: int := 8
  const NULL: int := 0
  const HEAD_CELL: int := -8     // the allocator's own head pointer, apart from all heap memory

  /** The words known to hold a value, by address; a word at `a` fills the bytes from `a` to `a + 8`. */
  type Words = map<int, int>

  /** Writing a word destroys every other word it overlaps. */
  function Store(m: Words, a: int, v: int): Words {
    (map x | x in m && (x <= a - WORD || a + WORD <= x) :: m[x])[a := v]
  }

  function NextCell(chunk: int): int { chunk + WORD }

  function AddressAt(s: seq<Span>, i: nat): int { if i < |s| then s[i].start else NULL }

  /** The cell that holds the pointer to chunk `i`. */
  function LinkAt(s: seq<Span>, i: nat): int
    requires i <= |s|
  {
    if i == 0 then HEAD_CELL else NextCell(s[i - 1].start)
  }

  ghost predicate HeaderIn(m: Words, c: Span, next: int) {
    && c.start in m && m[c.start] == c.length
    && NextCell(c.start) in m && m[NextCell(c.start)] == next
  }

  /** Following the pointers in `m` from the head visits exactly the chunks of `s`. */
  ghost predicate ReadsAs(m: Words, s: seq<Span>) {
    && HEAD_CELL in m && m[HEAD_CELL] == AddressAt(s, 0)
    && (forall i :: 0 <= i < |s| ==> HeaderAt(m, s, i))
  }

  /** Chunk `i` carries its size and the address of the chunk after it. */
  ghost predicate HeaderAt(m: Words, s: seq<Span>, i: nat)
    requires i < |s|
  {
    HeaderIn(m, s[i], AddressAt(s, i + 1))
  }

  /** Every chunk has room for its header and none is at the null address. */
  ghost predicate Roomy(s: seq<Span>) {
    forall i :: 0 <= i < |s| ==> s[i].start > NULL && s[i].length >= HEADER
  }

  /** The words inside `b` are in `m'` what they were in `m`. */
  ghost predicate Kept(m: Words, m': Words, b: Span) {
    forall x :: x in m && b.start <= x && x + WORD <= b.End() ==> x in m' && m'[x] == m[x]
  }

  // ------------------------------------------------------- following the list

  /** The chunks met by at most `fuel` steps along the `next` pointers from address `a`. */
  function Walk(m: Words, a: int, fuel: nat): seq<Span>
    decreases fuel
  {
    if fuel == 0 || a == NULL || a !in m || NextCell(a) !in m then []
    else [Span(a, m[a])] + Walk(m, m[NextCell(a)], fuel - 1)
  }

  lemma {:induction false} WalkFrom(m: Words, s: seq<Span>, i: nat, fuel: nat)
    requires ReadsAs(m, s) && Roomy(s) && i <= |s| && fuel >= |s| - i
    ensures Walk(m, AddressAt(s, i), fuel) == s[i..]
    decreases |s| - i
  {
    if i < |s| {
      assert HeaderAt(m, s, i);
      WalkFrom(m, s, i + 1, fuel - 1);
      assert s[i..] == [s[i]] + s[i + 1..];
    }
  }

  /** The walk from the head stops by itself, at the null pointer, after `|s|` chunks: there is no cycle. */
  lemma WalkIsFinite(m: Words, s: seq<Span>, fuel: nat)
    requires ReadsAs(m, s) && Roomy(s) && fuel >= |s|
    ensures Walk(m, m[HEAD_CELL], fuel) == s
  {
    WalkFrom(m, s, 0, fuel);
  }

  lemma LinkHolds(m: Words, s: seq<Span>, i: nat)
    requires ReadsAs(m, s) && i <= |s|
    ensures LinkAt(s, i) in m && m[LinkAt(s, i)] == AddressAt(s, i)
  {
    if i > 0 { assert HeaderAt(m, s, i - 1); }
  }

  // ------------------------------------------------------- editing the list

  lemma StoreKeeps(m: Words, a: int, v: int, b: Span)
    requires a + WORD <= b.start || b.End() <= a
    ensures Kept(m, Store(m, a, v), b)
  {
  }

  lemma KeptTrans(m0: Words, m1: Words, m2: Words, b: Span)
    requires Kept(m0, m1, b) && Kept(m1, m2, b)
    ensures Kept(m0, m2, b)
  {
  }

  /** A header survives when its two words do. */
  lemma HeaderKept(m: Words, m': Words, c: Span, next: int)
    requires HeaderIn(m, c, next) && Kept(m, m', Span(c.start, HEADER))
    ensures HeaderIn(m', c, next)
  {
  }

  /** Writing where there is no header leaves the list as it was. */
  lemma StoreAside(m: Words, s: seq<Span>, a: int, v: int)
    requires ReadsAs(m, s) && Roomy(s) && 0 <= a
    requires forall i :: 0 <= i < |s| ==> a + WORD <= s[i].start || s[i].start + HEADER <= a
    ensures ReadsAs(Store(m, a, v), s)
  {
    forall i | 0 <= i < |s| ensures HeaderAt(Store(m, a, v), s, i) {
      assert HeaderAt(m, s, i);
      StoreKeeps(m, a, v, Span(s[i].start, HEADER));
      HeaderKept(m, Store(m, a, v), s[i], AddressAt(s, i + 1));
    }
  }

  /** Redirecting link `i` only changes the `next` word of chunk `i - 1`. */
  lemma RedirectKeepsOthers(m: Words, s: seq<Span>, i: nat, v: int, c: Span, next: int)
    requires ReadsAs(m, s) && Roomy(s) && i <= |s|
    requires HeaderIn(m, c, next) && c.start > NULL
    requires i > 0 ==> s[i - 1].start + HEADER <= c.start || c.start + HEADER <= s[i - 1].start
    ensures HeaderIn(Store(m, LinkAt(s, i), v), c, next)
  {
    StoreKeeps(m, LinkAt(s, i), v, Span(c.start, HEADER));
    HeaderKept(m, Store(m, LinkAt(s, i), v), c, next);
  }

  lemma HeadersApart(s: seq<Span>, i: nat, j: nat)
    requires Ascending(s) && Roomy(s) && i < j < |s|
    ensures s[i].start + HEADER <= s[j].start
  {
  }

  /** Redirected to the chunk at `v`, link `i` skips to whatever list starts there. */
  lemma Redirected(m: Words, s: seq<Span>, i: nat, v: int, t: seq<Span>)
    requires ReadsAs(m, s) && Roomy(s) && i <= |s| && i <= |t|
    requires t[..i] == s[..i] && Ascending(t) && Roomy(t)
    requires v == AddressAt(t, i)
    requires forall q :: i <= q < |t| ==> HeaderAt(m, t, q)
    ensures ReadsAs(Store(m, LinkAt(s, i), v), t)
  {
    var m' := Store(m, LinkAt(s, i), v);
    assert i > 0 ==> s[i - 1] == t[i - 1] by { assert i > 0 ==> s[..i][i - 1] == t[..i][i - 1]; }
    forall q | 0 <= q < |t| ensures HeaderAt(m', t, q) {
      if q >= i {
        assert HeaderAt(m, t, q);
        if i > 0 { HeadersApart(t, i - 1, q); }
        RedirectKeepsOthers(m, s, i, v, t[q], AddressAt(t, q + 1));
      } else {
        assert t[q] == t[..i][q] == s[..i][q] == s[q];
        assert HeaderAt(m, s, q);
        if q < i - 1 {
          assert t[q + 1] == t[..i][q + 1] == s[..i][q + 1] == s[q + 1];
          HeadersApart(t, q, i - 1);
          RedirectKeepsOthers(m, s, i, v, t[q], AddressAt(t, q + 1));
        }
      }
    }
    if i > 0 { assert t[0] == t[..i][0] == s[..i][0] == s[0]; }
  }

  /** `*link = (*chunk).next` for the chunk at `k`. */
  lemma Unlinked(m: Words, s: seq<Span>, k: nat)
    requires ReadsAs(m, s) && Ascending(s) && Roomy(s) && k < |s|
    ensures ReadsAs(Store(m, LinkAt(s, k), AddressAt(s, k + 1)), Without(s, k))
  {
    var t := Without(s, k);
    WithoutKeepsOrder(s, k);
    forall q | k <= q < |t| ensures HeaderAt(m, t, q) {
      assert t[q] == s[q + 1];
      assert HeaderAt(m, s, q + 1);
    }
    assert Roomy(t) by { assert forall q :: 0 <= q < |t| ==> t[q] in s; }
    Redirected(m, s, k, AddressAt(s, k + 1), t);
  }

  /** `*link = b` once the header of `b` has been written: `b` replaces the chunks from `lo` up to `hi`. */
  lemma Linked(m: Words, s: seq<Span>, lo: nat, hi: nat, b: Span)
    requires ReadsAs(m, s) && Roomy(s) && lo <= hi <= |s|
    requires b.start > NULL && b.length >= HEADER && Ascending(Splice(s, lo, hi, b))
    requires HeaderIn(m, b, AddressAt(s, hi))
    ensures ReadsAs(Store(m, LinkAt(s, lo), b.start), Splice(s, lo, hi, b))
  {
    var t, d := Splice(s, lo, hi, b), hi - lo - 1;
    forall q | lo <= q < |t| ensures HeaderAt(m, t, q) {
      if q > lo {
        assert t[q] == s[q + d];
        assert HeaderAt(m, s, q + d);
      }
    }
    assert Roomy(t) by { assert forall q :: 0 <= q < |t| ==> t[q] in s || t[q] == b; }
    Redirected(m, s, lo, b.start, t);
  }

  /** The two stores that write a header. */
  function WriteHeader(m: Words, b: Span, next: int): Words {
    Store(Store(m, b.start, b.length), NextCell(b.start), next)
  }

  /** A header written away from every header of `s` leaves the list as it was. */
  lemma HeaderWritten(m: Words, s: seq<Span>, b: Span, next: int)
    requires ReadsAs(m, s) && Roomy(s) && b.start > NULL
    requires forall i :: 0 <= i < |s| ==> b.start + HEADER <= s[i].start || s[i].start + HEADER <= b.start
    ensures ReadsAs(WriteHeader(m, b, next), s) && HeaderIn(WriteHeader(m, b, next), b, next)
  {
    StoreAside(m, s, b.start, b.length);
    StoreAside(Store(m, b.start, b.length), s, NextCell(b.start), next);
  }

  /** Chunk `k` grown over its successor, which leaves the list. */
  function Absorb(s: seq<Span>, k: nat): seq<Span>
    requires k + 1 < |s|
  {
    Splice(s, k, k + 2, Span(s[k].start, s[k].length + s[k + 1].length))
  }

  lemma AbsorbKeepsOrder(s: seq<Span>, k: nat)
    requires Ascending(s) && Roomy(s) && k + 1 < |s| && s[k].End() == s[k + 1].start
    ensures Ascending(Absorb(s, k)) && Roomy(Absorb(s, k))
  {
    var big := Span(s[k].start, s[k].length + s[k + 1].length);
    var t := Absorb(s, k);
    SpliceKeepsOrder(s, k, k + 2, big);
    assert forall q :: 0 <= q < |t| ==> t[q] in s || t[q] == big;
  }

  lemma OtherHeaderKept(m: Words, b: Span, next: int, c: Span, cNext: int)
    requires HeaderIn(m, c, cNext)
    requires b.start + HEADER <= c.start || c.start + HEADER <= b.start
    ensures HeaderIn(WriteHeader(m, b, next), c, cNext)
  {
  }

  /** Writing the header of chunk `k` completes a list whose other headers are in place. */
  lemma HeaderCompletes(m: Words, t: seq<Span>, k: nat)
    requires Ascending(t) && Roomy(t) && k < |t|
    requires HEAD_CELL in m && m[HEAD_CELL] == t[0].start
    requires forall q :: 0 <= q < |t| && q != k ==> HeaderAt(m, t, q)
    ensures ReadsAs(WriteHeader(m, t[k], AddressAt(t, k + 1)), t)
  {
    var m' := WriteHeader(m, t[k], AddressAt(t, k + 1));
    forall q | 0 <= q < |t| ensures HeaderAt(m', t, q) {
      if q != k {
        assert HeaderAt(m, t, q);
        if q < k { HeadersApart(t, q, k); } else { HeadersApart(t, k, q); }
        OtherHeaderKept(m, t[k], AddressAt(t, k + 1), t[q], AddressAt(t, q + 1));
      }
    }
  }

  lemma AbsorbedHeader(m: Words, s: seq<Span>, k: nat, q: nat)
    requires ReadsAs(m, s) && k + 1 < |s| && q < |s| - 1 && q != k
    ensures HeaderIn(m, Absorb(s, k)[q], AddressAt(Absorb(s, k), q + 1))
  {
    var t, j := Absorb(s, k), if q < k then q else q + 1;
    assert t[q] == s[j];
    assert AddressAt(t, q + 1) == AddressAt(s, j + 1) by {
      if q + 1 < |t| && q + 1 != k { assert t[q + 1] == s[j + 1]; }
    }
    assert HeaderAt(m, s, j);
  }

  /** The two stores of a merge: chunk `k` takes over the size and the successor of chunk `k + 1`. */
  lemma Absorbed(m: Words, s: seq<Span>, k: nat)
    requires ReadsAs(m, s) && Ascending(s) && Roomy(s) && k + 1 < |s|
    requires s[k].End() == s[k + 1].start
    ensures ReadsAs(WriteHeader(m, Absorb(s, k)[k], AddressAt(s, k + 2)), Absorb(s, k))
  {
    AbsorbKeepsOrder(s, k);
    var t := Absorb(s, k);
    forall q | 0 <= q < |t| && q != k ensures HeaderAt(m, t, q) {
      AbsorbedHeader(m, s, k, q);
    }
    HeaderCompletes(m, t, k);
  }
}
