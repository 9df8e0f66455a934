/** The kernel's own copy of the firmware memory map and the reservations that carve it up. */
module MemoryMap {
  import opened Machine

  datatype MemoryKind = Usable | Kernel | Firmware | Acpi | Device | Runtime | Unusable | Reserved

  datatype UefiType =
    | CONVENTIONAL | LOADER_CODE | LOADER_DATA | BOOT_SERVICES_CODE | BOOT_SERVICES_DATA
    | ACPI_RECLAIM | ACPI_NON_VOLATILE | MMIO | MMIO_PORT_SPACE
    | RUNTIME_SERVICES_CODE | RUNTIME_SERVICES_DATA | UNUSABLE | OTHER(code: U64)

  function FromUefiType(ty: UefiType): MemoryKind {
    match ty
    case CONVENTIONAL => Usable
    case LOADER_CODE | LOADER_DATA => Kernel
    case BOOT_SERVICES_CODE | BOOT_SERVICES_DATA => Firmware
    case ACPI_RECLAIM | ACPI_NON_VOLATILE => Acpi
    case MMIO | MMIO_PORT_SPACE => Device
    case RUNTIME_SERVICES_CODE | RUNTIME_SERVICES_DATA => Runtime
    case UNUSABLE => Unusable
    case OTHER(_) => Reserved
  }

  datatype MapError = AlreadyInitialized | Empty | InvalidRange | RangeNotFound | TooManyRanges | NotInitialized

  datatype Descriptor = Descriptor(physStart: U64, pageCount: U64, ty: UefiType)

  datatype MemoryRange = MemoryRange(start: U64, length: U64, uefiType: UefiType, kind: MemoryKind) {
    function End(): U64 { SaturatingAdd(start, length) }

    predicate Contains(a: int) { start <= a < End() }
  }

  type Ranges = seq<MemoryRange>

  /** Non-empty and inside the address space, as `copy_from` admits ranges. */
  predicate Proper(r: MemoryRange) { r.length > 0 && r.start + r.length <= U64_MAX }

  ghost predicate AllProper(rs: Ranges) { forall i :: 0 <= i < |rs| ==> Proper(rs[i]) }

  predicate Apart(a: MemoryRange, b: MemoryRange) { a.End() <= b.start || b.End() <= a.start }

  ghost predicate PairwiseApart(rs: Ranges) {
    forall i, j :: 0 <= i < j < |rs| ==> Apart(rs[i], rs[j])
  }

  /** The usable ranges, and they alone, are in address order. */
  ghost predicate UsableAscending(rs: Ranges) {
    forall i, j :: 0 <= i < j < |rs| && rs[i].kind == Usable && rs[j].kind == Usable ==> rs[i].End() <= rs[j].start
  }

  // ------------------------------------------------------------ classification

  /** The first range that contains `a`. */
  function RangeAt(rs: Ranges, a: int): Option<MemoryRange> {
    if rs == [] then None else if rs[0].Contains(a) then Some(rs[0]) else RangeAt(rs[1..], a)
  }

  function KindAt(rs: Ranges, a: int): Option<MemoryKind> {
    match RangeAt(rs, a)
    case None => None
    case Some(r) => Some(r.kind)
  }

  lemma {:induction false} RangeAtConcat(xs: Ranges, ys: Ranges, a: int)
    ensures RangeAt(xs + ys, a) == if RangeAt(xs, a).Some? then RangeAt(xs, a) else RangeAt(ys, a)
  {
    if xs == [] {
      assert xs + ys == ys;
    } else {
      assert (xs + ys)[1..] == xs[1..] + ys;
      RangeAtConcat(xs[1..], ys, a);
    }
  }

  lemma {:induction false} RangeAtIs(rs: Ranges, i: nat, a: int)
    requires PairwiseApart(rs) && i < |rs| && rs[i].Contains(a)
    ensures RangeAt(rs, a) == Some(rs[i])
  {
    if i > 0 {
      assert Apart(rs[0], rs[i]);
      RangeAtIs(rs[1..], i - 1, a);
    }
  }

  lemma {:induction false} RangeAtIndex(rs: Ranges, a: int) returns (i: nat)
    requires RangeAt(rs, a).Some?
    ensures i < |rs| && rs[i].Contains(a) && RangeAt(rs, a) == Some(rs[i])
  {
    if rs[0].Contains(a) { i := 0; } else { i := RangeAtIndex(rs[1..], a); i := i + 1; }
  }

  // --------------------------------------------------------------- reservation

  /** The part of `r` from `from` to `to` with the given kind, or nothing when it is empty. */
  function Part(r: MemoryRange, from: U64, to: U64, kind: MemoryKind): Ranges {
    if from < to then [MemoryRange(from, to - from, r.uefiType, kind)] else []
  }

  /** What one range becomes when `start..end` is given kind `kind`. */
  function Pieces(r: MemoryRange, start: U64, end: U64, kind: MemoryKind): Ranges {
    var from, to := Max(start, r.start), Min(end, r.End());
    if from >= to then [r]
    else Part(r, r.start, from, r.kind) + Part(r, from, to, kind) + Part(r, to, r.End(), r.kind)
  }

  function Reserve(rs: Ranges, start: U64, end: U64, kind: MemoryKind): Ranges {
    if rs == [] then [] else Pieces(rs[0], start, end, kind) + Reserve(rs[1..], start, end, kind)
  }

  predicate Overlaps(r: MemoryRange, start: U64, end: U64) { Max(start, r.start) < Min(end, r.End()) }

  lemma {:induction false} ReserveConcat(xs: Ranges, ys: Ranges, start: U64, end: U64, kind: MemoryKind)
    ensures Reserve(xs + ys, start, end, kind) == Reserve(xs, start, end, kind) + Reserve(ys, start, end, kind)
  {
    if xs == [] {
      assert xs + ys == ys;
    } else {
      assert (xs + ys)[1..] == xs[1..] + ys;
      ReserveConcat(xs[1..], ys, start, end, kind);
    }
  }

  lemma ReserveNext(rs: Ranges, i: nat, start: U64, end: U64, kind: MemoryKind)
    requires i < |rs|
    ensures Reserve(rs[..i + 1], start, end, kind) == Reserve(rs[..i], start, end, kind) + Pieces(rs[i], start, end, kind)
    ensures |Reserve(rs[..i + 1], start, end, kind)| <= |Reserve(rs, start, end, kind)|
  {
    assert rs[..i + 1] == rs[..i] + [rs[i]];
    ReserveConcat(rs[..i], [rs[i]], start, end, kind);
    assert rs == rs[..i + 1] + rs[i + 1..];
    ReserveConcat(rs[..i + 1], rs[i + 1..], start, end, kind);
    assert Reserve([rs[i]], start, end, kind) == Pieces(rs[i], start, end, kind) + [];
  }

  /** The new kind inside the reservation, the old one outside; the firmware type never changes. */
  predicate Reclassified(before: Option<MemoryRange>, after: Option<MemoryRange>, inside: bool, kind: MemoryKind) {
    match before
    case None => after.None?
    case Some(r) =>
      && after.Some? && after.value.uefiType == r.uefiType
      && after.value.kind == if inside then kind else r.kind
  }

  lemma RangeAtPart(r: MemoryRange, from: U64, to: U64, kind: MemoryKind, a: int)
    ensures RangeAt(Part(r, from, to, kind), a)
         == if from <= a < to then Some(MemoryRange(from, to - from, r.uefiType, kind)) else None
  {
    assert forall x: MemoryRange :: [x][1..] == [];
  }

  lemma PieceAt(r: MemoryRange, start: U64, end: U64, kind: MemoryKind, a: int)
    requires Proper(r) && start < end
    ensures Reclassified(if r.Contains(a) then Some(r) else None, RangeAt(Pieces(r, start, end, kind), a),
                         start <= a < end, kind)
  {
    var from, to := Max(start, r.start), Min(end, r.End());
    if from < to {
      var left, mid, right := Part(r, r.start, from, r.kind), Part(r, from, to, kind), Part(r, to, r.End(), r.kind);
      RangeAtConcat(left + mid, right, a);
      RangeAtConcat(left, mid, a);
      RangeAtPart(r, r.start, from, r.kind, a);
      RangeAtPart(r, from, to, kind, a);
      RangeAtPart(r, to, r.End(), r.kind, a);
    } else {
      RangeAtPart(r, r.start, r.End(), r.kind, a);
      assert Part(r, r.start, r.End(), r.kind) == [r];
    }
  }

  /** A reservation changes the classification of exactly the covered addresses inside it, even if ranges overlap. */
  lemma {:induction false} ReserveReclassifies(rs: Ranges, start: U64, end: U64, kind: MemoryKind, a: int)
    requires AllProper(rs) && start < end
    ensures Reclassified(RangeAt(rs, a), RangeAt(Reserve(rs, start, end, kind), a), start <= a < end, kind)
    ensures KindAt(Reserve(rs, start, end, kind), a)
         == if KindAt(rs, a).Some? && start <= a < end then Some(kind) else KindAt(rs, a)
  {
    if rs != [] {
      PieceAt(rs[0], start, end, kind, a);
      ReserveReclassifies(rs[1..], start, end, kind, a);
      RangeAtConcat(Pieces(rs[0], start, end, kind), Reserve(rs[1..], start, end, kind), a);
    }
  }

  /** The addresses of the stretch that were known are of the new kind; all others are as they were. */
  ghost predicate Reassigned(rs: Ranges, rs': Ranges, start: int, end: int, kind: MemoryKind) {
    forall a :: KindAt(rs', a) == if start <= a < end && KindAt(rs, a).Some? then Some(kind) else KindAt(rs, a)
  }

  lemma ReserveReassigns(rs: Ranges, start: U64, end: U64, kind: MemoryKind)
    requires AllProper(rs) && start < end
    ensures Reassigned(rs, Reserve(rs, start, end, kind), start, end, kind)
  {
    forall a ensures KindAt(Reserve(rs, start, end, kind), a) ==
      if start <= a < end && KindAt(rs, a).Some? then Some(kind) else KindAt(rs, a)
    {
      ReserveReclassifies(rs, start, end, kind, a);
    }
  }

  // --------------------------------------------------------- shape of the result

  lemma PiecesInside(r: MemoryRange, start: U64, end: U64, kind: MemoryKind)
    requires Proper(r) && start < end
    ensures var ps := Pieces(r, start, end, kind);
      && AllProper(ps) && PairwiseApart(ps)
      && forall i :: 0 <= i < |ps| ==> r.start <= ps[i].start && ps[i].End() <= r.End()
  {
    PiecesAreParts(r, start, end, kind);
    PiecesApart(r, start, end, kind);
  }

  lemma PiecesAreParts(r: MemoryRange, start: U64, end: U64, kind: MemoryKind)
    requires Proper(r) && start < end
    ensures var ps := Pieces(r, start, end, kind);
      forall i :: 0 <= i < |ps| ==> Proper(ps[i]) && r.start <= ps[i].start && ps[i].End() <= r.End()
  {
  }

  lemma PiecesApart(r: MemoryRange, start: U64, end: U64, kind: MemoryKind)
    requires Proper(r) && start < end
    ensures PairwiseApart(Pieces(r, start, end, kind))
  {
  }

  lemma PiecesAscend(r: MemoryRange, start: U64, end: U64, kind: MemoryKind)
    requires Proper(r) && start < end && kind != Usable
    ensures var ps := Pieces(r, start, end, kind);
      && (forall i, j :: 0 <= i < j < |ps| ==> ps[i].End() <= ps[j].start)
      && (forall i :: 0 <= i < |ps| ==> ps[i].kind == Usable ==> r.kind == Usable)
  {
  }

  /** Every piece lies inside the range it comes from, and is usable only if that range was. */
  lemma {:induction false} ReserveOrigin(rs: Ranges, start: U64, end: U64, kind: MemoryKind, i: nat) returns (o: nat)
    requires AllProper(rs) && start < end && i < |Reserve(rs, start, end, kind)|
    ensures var p := Reserve(rs, start, end, kind)[i];
      && o < |rs| && Proper(p) && rs[o].start <= p.start && p.End() <= rs[o].End()
      && (kind != Usable && p.kind == Usable ==> rs[o].kind == Usable)
  {
    var ps := Pieces(rs[0], start, end, kind);
    PiecesInside(rs[0], start, end, kind);
    if i < |ps| {
      if kind != Usable { PiecesAscend(rs[0], start, end, kind); }
      o := 0;
    } else {
      o := ReserveOrigin(rs[1..], start, end, kind, i - |ps|);
      o := o + 1;
    }
  }

  lemma {:induction false} ReserveKeepsApart(rs: Ranges, start: U64, end: U64, kind: MemoryKind)
    requires AllProper(rs) && start < end && PairwiseApart(rs)
    ensures PairwiseApart(Reserve(rs, start, end, kind))
  {
    if rs != [] {
      var ps, rest := Pieces(rs[0], start, end, kind), Reserve(rs[1..], start, end, kind);
      var t := ps + rest;
      PiecesInside(rs[0], start, end, kind);
      ReserveKeepsApart(rs[1..], start, end, kind);
      forall i, j | 0 <= i < j < |t| ensures Apart(t[i], t[j]) {
        if i < |ps| <= j {
          var o := ReserveOrigin(rs[1..], start, end, kind, j - |ps|);
          assert Apart(rs[0], rs[o + 1]);
        }
      }
    }
  }

  lemma {:induction false} ReserveKeepsShape(rs: Ranges, start: U64, end: U64, kind: MemoryKind)
    requires AllProper(rs) && start < end
    ensures AllProper(Reserve(rs, start, end, kind))
    ensures PairwiseApart(rs) ==> PairwiseApart(Reserve(rs, start, end, kind))
  {
    var t := Reserve(rs, start, end, kind);
    forall i | 0 <= i < |t| ensures Proper(t[i]) { var o := ReserveOrigin(rs, start, end, kind, i); }
    if PairwiseApart(rs) { ReserveKeepsApart(rs, start, end, kind); }
  }

  lemma UsablePieceOrder(rs: Ranges, start: U64, end: U64, kind: MemoryKind, i: nat, j: nat)
    requires AllProper(rs) && rs != [] && start < end && kind != Usable && UsableAscending(rs)
    requires i < |Pieces(rs[0], start, end, kind)| && j < |Reserve(rs[1..], start, end, kind)|
    requires Pieces(rs[0], start, end, kind)[i].kind == Usable && Reserve(rs[1..], start, end, kind)[j].kind == Usable
    ensures Pieces(rs[0], start, end, kind)[i].End() <= Reserve(rs[1..], start, end, kind)[j].start
  {
    PiecesInside(rs[0], start, end, kind);
    PiecesAscend(rs[0], start, end, kind);
    var o := ReserveOrigin(rs[1..], start, end, kind, j);
    assert rs[0].End() <= rs[o + 1].start;
  }

  lemma {:induction false} ReserveKeepsUsableOrder(rs: Ranges, start: U64, end: U64, kind: MemoryKind)
    requires AllProper(rs) && start < end && kind != Usable && UsableAscending(rs)
    ensures UsableAscending(Reserve(rs, start, end, kind))
  {
    if rs != [] {
      var ps, t := Pieces(rs[0], start, end, kind), Reserve(rs, start, end, kind);
      PiecesAscend(rs[0], start, end, kind);
      ReserveKeepsUsableOrder(rs[1..], start, end, kind);
      forall i, j | 0 <= i < j < |t| && t[i].kind == Usable && t[j].kind == Usable ensures t[i].End() <= t[j].start {
        if i < |ps| <= j { UsablePieceOrder(rs, start, end, kind, i, j - |ps|); }
      }
    }
  }

  // ---------------------------------------------------------------- entry count

  /** How many ranges have `x` strictly inside. */
  function Straddling(rs: Ranges, x: int): nat {
    if rs == [] then 0 else (if rs[0].start < x < rs[0].End() then 1 else 0) + Straddling(rs[1..], x)
  }

  lemma {:induction false} StraddlingElsewhere(rs: Ranges, r: MemoryRange, x: int)
    requires r.start < x < r.End() && forall i :: 0 <= i < |rs| ==> Apart(r, rs[i])
    ensures Straddling(rs, x) == 0
  {
    if rs != [] { StraddlingElsewhere(rs[1..], r, x); }
  }

  lemma {:induction false} AtMostOneStraddles(rs: Ranges, x: int)
    requires PairwiseApart(rs)
    ensures Straddling(rs, x) <= 1
  {
    if rs != [] {
      AtMostOneStraddles(rs[1..], x);
      if rs[0].start < x < rs[0].End() { StraddlingElsewhere(rs[1..], rs[0], x); }
    }
  }

  /** One entry more for each range cut at either end of the reservation. */
  lemma {:induction false} ReserveCount(rs: Ranges, start: U64, end: U64, kind: MemoryKind)
    requires AllProper(rs) && start < end
    ensures |Reserve(rs, start, end, kind)| == |rs| + Straddling(rs, start) + Straddling(rs, end)
  {
    if rs != [] { ReserveCount(rs[1..], start, end, kind); }
  }

  /** However many ranges a reservation crosses, a disjoint map grows by at most two entries. */
  lemma ReserveAddsAtMostTwo(rs: Ranges, start: U64, end: U64, kind: MemoryKind)
    requires AllProper(rs) && PairwiseApart(rs) && start < end
    ensures |Reserve(rs, start, end, kind)| <= |rs| + 2
  {
    ReserveCount(rs, start, end, kind);
    AtMostOneStraddles(rs, start);
    AtMostOneStraddles(rs, end);
  }

  // ------------------------------------------------------------------- accounting

  function Bytes(rs: Ranges, k: MemoryKind): nat {
    if rs == [] then 0 else (if rs[0].kind == k then rs[0].length else 0) + Bytes(rs[1..], k)
  }

  function TotalBytes(rs: Ranges): nat {
    if rs == [] then 0 else rs[0].length + TotalBytes(rs[1..])
  }

  /** How much of `r` lies in `start..end`. */
  function Overlap(r: MemoryRange, start: U64, end: U64): int { Max(0, Min(end, r.End()) - Max(start, r.start)) }

  function OverlapBytes(rs: Ranges, start: U64, end: U64, k: MemoryKind): int {
    if rs == [] then 0 else (if rs[0].kind == k then Overlap(rs[0], start, end) else 0) + OverlapBytes(rs[1..], start, end, k)
  }

  function AllOverlap(rs: Ranges, start: U64, end: U64): int {
    if rs == [] then 0 else Overlap(rs[0], start, end) + AllOverlap(rs[1..], start, end)
  }

  lemma {:induction false} BytesConcat(xs: Ranges, ys: Ranges, k: MemoryKind)
    ensures Bytes(xs + ys, k) == Bytes(xs, k) + Bytes(ys, k)
    ensures TotalBytes(xs + ys) == TotalBytes(xs) + TotalBytes(ys)
  {
    if xs == [] {
      assert xs + ys == ys;
    } else {
      assert (xs + ys)[1..] == xs[1..] + ys;
      BytesConcat(xs[1..], ys, k);
    }
  }

  lemma BytesPart(r: MemoryRange, from: U64, to: U64, kind: MemoryKind, k: MemoryKind)
    requires from <= to
    ensures Bytes(Part(r, from, to, kind), k) == (if k == kind then to - from else 0)
    ensures TotalBytes(Part(r, from, to, kind)) == to - from
  {
    assert forall x: MemoryRange :: [x][1..] == [];
  }

  lemma PieceBytes(r: MemoryRange, start: U64, end: U64, kind: MemoryKind, k: MemoryKind)
    requires Proper(r) && start < end
    ensures var ps, moved := Pieces(r, start, end, kind), Overlap(r, start, end);
      && TotalBytes(ps) == r.length
      && Bytes(ps, k) == (if r.kind == k then r.length - moved else 0) + if k == kind then moved else 0
  {
    var from, to := Max(start, r.start), Min(end, r.End());
    if from < to {
      var left, mid, right := Part(r, r.start, from, r.kind), Part(r, from, to, kind), Part(r, to, r.End(), r.kind);
      BytesConcat(left + mid, right, k);
      BytesConcat(left, mid, k);
      BytesPart(r, r.start, from, r.kind, k);
      BytesPart(r, from, to, kind, k);
      BytesPart(r, to, r.End(), r.kind, k);
    } else {
      BytesPart(r, r.start, r.End(), r.kind, k);
      assert Part(r, r.start, r.End(), r.kind) == [r];
    }
  }

  /** Bytes only move between kinds: each loses its overlap, the new kind gains all of it, the total stays. */
  lemma {:induction false} ReserveMovesBytes(rs: Ranges, start: U64, end: U64, kind: MemoryKind, k: MemoryKind)
    requires AllProper(rs) && start < end
    ensures var t := Reserve(rs, start, end, kind);
      && TotalBytes(t) == TotalBytes(rs)
      && Bytes(t, k) == Bytes(rs, k) - OverlapBytes(rs, start, end, k)
                        + if k == kind then AllOverlap(rs, start, end) else 0
  {
    if rs != [] {
      PieceBytes(rs[0], start, end, kind, k);
      ReserveMovesBytes(rs[1..], start, end, kind, k);
      BytesConcat(Pieces(rs[0], start, end, kind), Reserve(rs[1..], start, end, kind), k);
    }
  }

  // ------------------------------------------------------------------ the table

  predicate GoodDescriptor(d: Descriptor) {
    0 < d.pageCount * PAGE_SIZE <= U64_MAX && d.physStart + d.pageCount * PAGE_SIZE <= U64_MAX
  }

  function FromDescriptor(d: Descriptor): MemoryRange
    requires GoodDescriptor(d)
  {
    MemoryRange(d.physStart, d.pageCount * PAGE_SIZE, d.ty, FromUefiType(d.ty))
  }

  /** Whether, and why, copying the firmware map fails: the first offending entry from index `i` on decides. */
  function CopyError(entries: seq<Descriptor>, i: nat): Option<MapError>
    requires i <= |entries|
    decreases |entries| - i
  {
    if i == |entries| then (if entries == [] then Some(Empty) else None)
    else if i == MAX_MEMORY_RANGES then Some(TooManyRanges)
    else if !GoodDescriptor(entries[i]) then Some(InvalidRange)
    else CopyError(entries, i + 1)
  }

  predicate AllGood(entries: seq<Descriptor>) { forall i :: 0 <= i < |entries| ==> GoodDescriptor(entries[i]) }

  function Copied(entries: seq<Descriptor>): (rs: Ranges)
    requires AllGood(entries)
    ensures |rs| == |entries| && forall i :: 0 <= i < |rs| ==> rs[i] == FromDescriptor(entries[i])
  {
    seq(|entries|, i requires 0 <= i < |entries| => FromDescriptor(entries[i]))
  }

  lemma {:induction false} CopyErrorFrom(entries: seq<Descriptor>, i: nat)
    requires i <= |entries| && i <= MAX_MEMORY_RANGES
    ensures CopyError(entries, i) == None <==>
      && entries != [] && |entries| <= MAX_MEMORY_RANGES
      && forall j :: i <= j < |entries| ==> GoodDescriptor(entries[j])
    decreases |entries| - i
  {
    if i < |entries| && i < MAX_MEMORY_RANGES { CopyErrorFrom(entries, i + 1); }
  }

  /** Copying succeeds exactly for a map that is not empty, fits the table, and holds no bad descriptor. */
  lemma CopySucceedsIff(entries: seq<Descriptor>)
    ensures CopyError(entries, 0) == None <==>
            entries != [] && |entries| <= MAX_MEMORY_RANGES && AllGood(entries)
  {
    CopyErrorFrom(entries, 0);
  }

  /** The pages of the descriptor hold the address. */
  predicate Holds(d: Descriptor, a: int) { d.physStart <= a < d.physStart + d.pageCount * PAGE_SIZE }

  /** Descriptor `i` is the first that holds `a`. */
  predicate FirstToHold(entries: seq<Descriptor>, i: nat, a: int) {
    i < |entries| && Holds(entries[i], a) && forall j :: 0 <= j < i ==> !Holds(entries[j], a)
  }

  /** The first descriptor that holds `a` is of one of these types. */
  predicate TypedAt(entries: seq<Descriptor>, a: int, types: set<UefiType>) {
    exists i :: 0 <= i < |entries| && FirstToHold(entries, i, a) && entries[i].ty in types
  }

  lemma {:induction false} FirstHolder(entries: seq<Descriptor>, a: int) returns (i: nat)
    ensures i <= |entries| && (forall j :: 0 <= j < i ==> !Holds(entries[j], a))
    ensures i < |entries| ==> FirstToHold(entries, i, a)
  {
    i := 0;
    while i < |entries| && !Holds(entries[i], a)
      invariant i <= |entries| && forall j :: 0 <= j < i ==> !Holds(entries[j], a)
    {
      i := i + 1;
    }
  }

  lemma {:induction false} RangeAtFirst(rs: Ranges, i: nat, a: int)
    requires i <= |rs| && (forall j :: 0 <= j < i ==> !rs[j].Contains(a)) && (i < |rs| ==> rs[i].Contains(a))
    ensures RangeAt(rs, a) == if i < |rs| then Some(rs[i]) else None
  {
    if i > 0 { RangeAtFirst(rs[1..], i - 1, a); }
  }

  /** How an address of the copied map is classified: by the type of the first descriptor that holds it. */
  lemma KindOfCopy(entries: seq<Descriptor>, a: int)
    requires AllGood(entries)
    ensures var kind := KindAt(Copied(entries), a);
      && (kind == Some(Usable) <==> TypedAt(entries, a, {CONVENTIONAL}))
      && (kind == Some(Kernel) <==> TypedAt(entries, a, {LOADER_CODE, LOADER_DATA}))
      && (kind == Some(Firmware) <==> TypedAt(entries, a, {BOOT_SERVICES_CODE, BOOT_SERVICES_DATA}))
      && (kind == Some(Acpi) <==> TypedAt(entries, a, {ACPI_RECLAIM, ACPI_NON_VOLATILE}))
      && (kind == Some(Device) <==> TypedAt(entries, a, {MMIO, MMIO_PORT_SPACE}))
      && (kind == Some(Runtime) <==> TypedAt(entries, a, {RUNTIME_SERVICES_CODE, RUNTIME_SERVICES_DATA}))
      && (kind == Some(Unusable) <==> TypedAt(entries, a, {UNUSABLE}))
      && (kind == Some(Reserved) <==> exists i :: 0 <= i < |entries| && FirstToHold(entries, i, a) && entries[i].ty.OTHER?)
      && (kind == None <==> forall i :: 0 <= i < |entries| ==> !Holds(entries[i], a))
  {
    var k := FirstHolder(entries, a);
    RangeAtFirst(Copied(entries), k, a);
    forall i | 0 <= i < |entries| && FirstToHold(entries, i, a) ensures i == k { }
  }

  /** Each range lies where its descriptor says and keeps its type. */
  ghost predicate InPlace(entries: seq<Descriptor>, rs: Ranges) {
    |rs| == |entries| && forall i :: 0 <= i < |rs| ==>
      rs[i].start == entries[i].physStart && rs[i].length == entries[i].pageCount * 4096 && rs[i].uefiType == entries[i].ty
  }

  /** Usable is what the first descriptor calls conventional, and nothing else. */
  ghost predicate Classified(entries: seq<Descriptor>, rs: Ranges) {
    forall a :: KindAt(rs, a) == Some(Usable) <==> TypedAt(entries, a, {CONVENTIONAL})
  }

  lemma CopyIsClassified(entries: seq<Descriptor>)
    requires AllGood(entries)
    ensures Classified(entries, Copied(entries)) && InPlace(entries, Copied(entries))
  {
    forall a ensures KindAt(Copied(entries), a) == Some(Usable) <==> TypedAt(entries, a, {CONVENTIONAL}) {
      KindOfCopy(entries, a);
    }
  }

  /** Some pages, and no byte past the address space. */
  predicate Admissible(d: Descriptor) { d.pageCount > 0 && d.physStart + d.pageCount * 4096 <= U64_MAX }

  lemma {:induction false} CopyErrorFromIs(entries: seq<Descriptor>, i: nat)
    requires i <= |entries| && i <= MAX_MEMORY_RANGES && forall j :: 0 <= j < i ==> Admissible(entries[j])
    ensures CopyError(entries, i) ==
      if entries == [] then Some(Empty)
      else if exists j :: 0 <= j < |entries| && j < MAX_MEMORY_RANGES && !Admissible(entries[j]) then Some(InvalidRange)
      else if |entries| > MAX_MEMORY_RANGES then Some(TooManyRanges) else None
    decreases |entries| - i
  {
    if i < |entries| && i < MAX_MEMORY_RANGES && Admissible(entries[i]) { CopyErrorFromIs(entries, i + 1); }
  }

  /** Whether, and why, the firmware map is refused: it is empty, or one of the first 256 descriptors has no pages or
      leaves the address space, or there are more than 256. */
  lemma CopyErrorIs(entries: seq<Descriptor>)
    ensures CopyError(entries, 0) ==
      if entries == [] then Some(Empty)
      else if exists j :: 0 <= j < |entries| && j < 256 && !Admissible(entries[j]) then Some(InvalidRange)
      else if |entries| > 256 then Some(TooManyRanges) else None
  {
    CopyErrorFromIs(entries, 0);
  }

  /** Why a reservation of `start..start + length` fails, if it does. */
  function ReserveError(rs: Ranges, start: U64, length: U64, kind: MemoryKind): Option<MapError> {
    if length == 0 || start + length > U64_MAX then Some(InvalidRange)
    else if |Reserve(rs, start, start + length, kind)| > MAX_MEMORY_RANGES then Some(TooManyRanges)
    else if !AnyOverlap(rs, start, start + length) then Some(RangeNotFound)
    else None
  }

  predicate AnyOverlap(rs: Ranges, start: U64, end: U64) {
    exists i :: 0 <= i < |rs| && Overlaps(rs[i], start, end)
  }

  lemma AnyOverlapNext(rs: Ranges, i: nat, start: U64, end: U64)
    requires i < |rs|
    ensures AnyOverlap(rs[..i + 1], start, end) <==> AnyOverlap(rs[..i], start, end) || Overlaps(rs[i], start, end)
  {
    if AnyOverlap(rs[..i], start, end) {
      var j :| 0 <= j < i && Overlaps(rs[..i][j], start, end);
      assert rs[..i + 1][j] == rs[j];
    }
    assert rs[..i + 1][i] == rs[i];
    if AnyOverlap(rs[..i + 1], start, end) {
      var j :| 0 <= j < i + 1 && Overlaps(rs[..i + 1][j], start, end);
      assert j < i ==> rs[..i][j] == rs[j];
    }
  }

  /** A stretch overlaps the map exactly if the map knows one of its addresses. */
  lemma OverlapMeansKnown(rs: Ranges, start: U64, end: U64)
    requires AllProper(rs) && start < end
    ensures AnyOverlap(rs, start, end) <==> exists a :: start <= a < end && KindAt(rs, a).Some?
  {
    if i :| 0 <= i < |rs| && Overlaps(rs[i], start, end) {
      var a := Max(start, rs[i].start);
      assert rs[i].Contains(a);
      KnownIfContained(rs, i, a);
    }
    if a :| start <= a < end && KindAt(rs, a).Some? {
      var i := RangeAtIndex(rs, a);
      assert Overlaps(rs[i], start, end);
    }
  }

  lemma {:induction false} KnownIfContained(rs: Ranges, i: nat, a: int)
    requires i < |rs| && rs[i].Contains(a)
    ensures KindAt(rs, a).Some?
  {
    if i > 0 { KnownIfContained(rs[1..], i - 1, a); }
  }

  /** Reserving a stretch none of whose addresses the map knows does not change the table. */
  lemma {:induction false} NothingReserved(rs: Ranges, start: U64, end: U64, kind: MemoryKind)
    requires AllProper(rs) && start < end && !AnyOverlap(rs, start, end)
    ensures Reserve(rs, start, end, kind) == rs
  {
    if rs != [] {
      assert !Overlaps(rs[0], start, end);
      forall i | 0 <= i < |rs[1..]| ensures !Overlaps(rs[1..][i], start, end) { assert rs[1..][i] == rs[i + 1]; }
      NothingReserved(rs[1..], start, end, kind);
    }
  }

  /** Which reservations are refused, and with which error. */
  lemma ReserveErrorIs(rs: Ranges, start: U64, length: U64, kind: MemoryKind)
    requires AllProper(rs) && |rs| <= MAX_MEMORY_RANGES
    ensures ReserveError(rs, start, length, kind) ==
      if length == 0 || start + length > U64_MAX then Some(InvalidRange)
      else if Unknown(rs, start, start + length) then Some(RangeNotFound)
      else if |rs| + Straddling(rs, start) + Straddling(rs, start + length) > MAX_MEMORY_RANGES then Some(TooManyRanges)
      else None
  {
    if length > 0 && start + length <= U64_MAX {
      OverlapMeansKnown(rs, start, start + length);
      ReserveCount(rs, start, start + length, kind);
      if !AnyOverlap(rs, start, start + length) { NothingReserved(rs, start, start + length, kind); }
    }
  }

  /** The map once the framebuffer is marked in it: reserved where it overlaps, appended where it does not. */
  function MarkFramebuffer(rs: Ranges, framebuffer: Option<(U64, U64)>): Result<Ranges, MapError> {
    match framebuffer
    case None => Ok(rs)
    case Some((start, length)) =>
      match ReserveError(rs, start, length, Device)
      case None => Ok(Reserve(rs, start, start + length, Device))
      case Some(RangeNotFound) =>
        if |rs| == MAX_MEMORY_RANGES then Err(InvalidRange) else Ok(rs + [MemoryRange(start, length, MMIO, Device)])
      case Some(e) => Err(e)
  }

  /** What becomes of an address: those of the framebuffer that the map knew are the device's, and if it knew none of
      them all are; an address it did not know stays unknown as soon as it knew another one of them. */
  lemma FramebufferIsDevice(rs: Ranges, start: U64, length: U64, a: int)
    requires AllProper(rs) && MarkFramebuffer(rs, Some((start, length))).Ok?
    ensures KindAt(MarkFramebuffer(rs, Some((start, length))).value, a) ==
      if start <= a < start + length && (KindAt(rs, a).Some? || Unknown(rs, start, start + length)) then Some(Device)
      else KindAt(rs, a)
  {
    if ReserveError(rs, start, length, Device).None? {
      ReserveReclassifies(rs, start, start + length, Device, a);
      OverlapMeansKnown(rs, start, start + length);
    } else {
      var external := MemoryRange(start, length, MMIO, Device);
      OverlapMeansKnown(rs, start, start + length);
      RangeAtConcat(rs, [external], a);
      assert [external][1..] == [];
    }
  }

  /** The map knows no address of the stretch. */
  ghost predicate Unknown(rs: Ranges, start: int, end: int) {
    forall a :: start <= a < end ==> KindAt(rs, a).None?
  }

  /** The kernel's map right after it has been set up, or why it cannot be. */
  function Initialized(entries: seq<Descriptor>, framebuffer: Option<(U64, U64)>): Result<Ranges, MapError> {
    match CopyError(entries, 0)
    case Some(e) => Err(e)
    case None =>
      CopySucceedsIff(entries);
      MarkFramebuffer(Copied(entries), framebuffer)
  }

  datatype MemorySummary = MemorySummary(
    ranges: nat, usable: U64, kernel: U64, firmware: U64, acpi: U64,
    device: U64, runtime: U64, unusable: U64, reserved: U64)
  {
    function Of(k: MemoryKind): U64 {
      match k
      case Usable => usable
      case Kernel => kernel
      case Firmware => firmware
      case Acpi => acpi
      case Device => device
      case Runtime => runtime
      case Unusable => unusable
      case Reserved => reserved
    }

    function Add(k: MemoryKind, n: U64): MemorySummary {
      match k
      case Usable => this.(usable := SaturatingAdd(usable, n))
      case Kernel => this.(kernel := SaturatingAdd(kernel, n))
      case Firmware => this.(firmware := SaturatingAdd(firmware, n))
      case Acpi => this.(acpi := SaturatingAdd(acpi, n))
      case Device => this.(device := SaturatingAdd(device, n))
      case Runtime => this.(runtime := SaturatingAdd(runtime, n))
      case Unusable => this.(unusable := SaturatingAdd(unusable, n))
      case Reserved => this.(reserved := SaturatingAdd(reserved, n))
    }
  }

  /** Each field is its kind's byte total, up to the largest `u64`. */
  predicate HasTotals(t: MemorySummary, rs: Ranges) {
    && t.usable == Min(Bytes(rs, Usable), U64_MAX) && t.kernel == Min(Bytes(rs, Kernel), U64_MAX)
    && t.firmware == Min(Bytes(rs, Firmware), U64_MAX) && t.acpi == Min(Bytes(rs, Acpi), U64_MAX)
    && t.device == Min(Bytes(rs, Device), U64_MAX) && t.runtime == Min(Bytes(rs, Runtime), U64_MAX)
    && t.unusable == Min(Bytes(rs, Unusable), U64_MAX) && t.reserved == Min(Bytes(rs, Reserved), U64_MAX)
  }

  lemma TotalsByKind(t: MemorySummary, rs: Ranges)
    requires forall k :: t.Of(k) == Min(Bytes(rs, k), U64_MAX)
    ensures HasTotals(t, rs)
  {
    assert t.Of(Usable) == t.usable && t.Of(Kernel) == t.kernel && t.Of(Firmware) == t.firmware && t.Of(Acpi) == t.acpi;
    assert t.Of(Device) == t.device && t.Of(Runtime) == t.runtime && t.Of(Unusable) == t.unusable;
    assert t.Of(Reserved) == t.reserved;
  }

  const EMPTY_RANGE := MemoryRange(0, 0, OTHER(0), Reserved)

  class MemoryMapSnapshot {
    var ranges: array<MemoryRange>
    var count: nat

    ghost predicate Valid()
      reads this, ranges
    {
      ranges.Length == MAX_MEMORY_RANGES && count <= MAX_MEMORY_RANGES && AllProper(ranges[..count])
    }

    ghost function Table(): Ranges
      requires count <= ranges.Length
      reads this, ranges
    {
      ranges[..count]
    }

    constructor ()
      ensures Valid() && fresh(ranges) && Table() == []
    {
      ranges := new MemoryRange[MAX_MEMORY_RANGES](_ => EMPTY_RANGE);
      count := 0;
    }

    static method CopyFrom(entries: seq<Descriptor>) returns (r: Result<MemoryMapSnapshot, MapError>)
      ensures r.Ok? <==> CopyError(entries, 0) == None
      ensures r.Err? ==> CopyError(entries, 0) == Some(r.error)
      ensures r.Ok? ==> fresh(r.value) && fresh(r.value.ranges) && r.value.Valid()
      ensures r.Ok? ==> AllGood(entries) && r.value.Table() == Copied(entries)
      ensures r.Ok? ==> Classified(entries, r.value.Table()) && InPlace(entries, r.value.Table())
    {

      var snapshot := new MemoryMapSnapshot();
      for i := 0 to |entries|
        invariant fresh(snapshot) && fresh(snapshot.ranges) && snapshot.Valid() && snapshot.count == i
        invariant AllGood(entries[..i]) && snapshot.Table() == Copied(entries[..i])
        invariant CopyError(entries, 0) == CopyError(entries, i)
      {
        var d := entries[i];
        if snapshot.count == MAX_MEMORY_RANGES {
          return Err(TooManyRanges);
        }
        if d.pageCount * PAGE_SIZE > U64_MAX {
          return Err(InvalidRange);
        }
        var length := d.pageCount * PAGE_SIZE;
        if d.physStart + length > U64_MAX {
          return Err(InvalidRange);
        }
        if length == 0 || d.physStart + length <= d.physStart {
          return Err(InvalidRange);
        }
        snapshot.ranges[snapshot.count] := MemoryRange(d.physStart, length, d.ty, FromUefiType(d.ty));
        snapshot.count := snapshot.count + 1;
        assert snapshot.ranges[..i + 1] == snapshot.ranges[..i] + [FromDescriptor(d)];
      }
      assert entries[..|entries|] == entries;
      CopyIsClassified(entries);
      if snapshot.count == 0 {
        return Err(Empty);
      }
      return Ok(snapshot);
    }

    /** Appends a non-empty range to the replacement table, or reports that it is full. */
    static method Push(replacement: array<MemoryRange>, count: nat, value: MemoryRange) returns (newCount: nat, ok: bool)
      requires count <= replacement.Length
      modifies replacement
      ensures ok <==> value.length == 0 || count < replacement.Length
      ensures newCount == (if ok && value.length > 0 then count + 1 else count)
      ensures newCount <= replacement.Length
      ensures replacement[..newCount] == old(replacement[..count]) + if ok && value.length > 0 then [value] else []
    {
      if value.length == 0 || count == replacement.Length {
        return count, value.length == 0;
      }
      replacement[count] := value;
      return count + 1, true;
    }

    /** The body of the loop over the old ranges: pushes what `range` becomes, as far as there is room. */
    static method PushPieces(replacement: array<MemoryRange>, count: nat, range: MemoryRange,
                             start: U64, end: U64, kind: MemoryKind)
      returns (newCount: nat, ok: bool, overlapped: bool)
      requires count <= replacement.Length && Proper(range)
      modifies replacement
      ensures overlapped == Overlaps(range, start, end)
      ensures newCount <= replacement.Length
      ensures ok <==> count + |Pieces(range, start, end, kind)| <= replacement.Length
      ensures ok ==> replacement[..newCount] == old(replacement[..count]) + Pieces(range, start, end, kind)
    {
      newCount := count;
      var overlapStart, overlapEnd := Max(start, range.start), Min(end, range.End());
      if overlapStart >= overlapEnd {
        overlapped := false;
        newCount, ok := Push(replacement, newCount, range);
        return;
      }
      overlapped := true;
      newCount, ok := Push(replacement, newCount, range.(length := overlapStart - range.start));
      if !ok {
        return;
      }
      newCount, ok := Push(replacement, newCount,
        range.(start := overlapStart, length := overlapEnd - overlapStart, kind := kind));
      if !ok {
        return;
      }
      newCount, ok := Push(replacement, newCount,
        range.(start := overlapEnd, length := range.End() - overlapEnd));
    }

    /** The loop over the old ranges: the replacement table, whether it sufficed, and whether anything overlapped. */
    method BuildReplacement(start: U64, end: U64, kind: MemoryKind)
      returns (replacement: array<MemoryRange>, newCount: nat, ok: bool, overlapped: bool)
      requires Valid()
      ensures fresh(replacement) && replacement.Length == MAX_MEMORY_RANGES && newCount <= MAX_MEMORY_RANGES
      ensures ok <==> |Reserve(Table(), start, end, kind)| <= MAX_MEMORY_RANGES
      ensures ok ==> replacement[..newCount] == Reserve(Table(), start, end, kind)
      ensures ok ==> overlapped == AnyOverlap(Table(), start, end)
    {
      ghost var rs := Table();
      replacement := new MemoryRange[MAX_MEMORY_RANGES](_ => EMPTY_RANGE);
      newCount, overlapped := 0, false;
      for i := 0 to count
        invariant newCount <= replacement.Length
        invariant replacement[..newCount] == Reserve(rs[..i], start, end, kind)
        invariant overlapped == AnyOverlap(rs[..i], start, end)
      {
        ReserveNext(rs, i, start, end, kind);
        AnyOverlapNext(rs, i, start, end);
        var hit;
        newCount, ok, hit := PushPieces(replacement, newCount, ranges[i], start, end, kind);
        if !ok {
          return;
        }
        overlapped := overlapped || hit;
      }
      assert rs[..count] == rs;
      ok := true;
    }

    method ReserveRange(start: U64, length: U64, kind: MemoryKind) returns (r: Result<(), MapError>)
      requires Valid()
      modifies this
      ensures Valid()
      ensures r == match ReserveError(old(Table()), start, length, kind)
                   case Some(e) => Err(e)
                   case None => Ok(())
      ensures r.Ok? ==> fresh(ranges) && Table() == Reserve(old(Table()), start, start + length, kind)
      ensures r.Err? ==> ranges == old(ranges) && count == old(count)
      ensures r.Ok? ==> Reassigned(old(Table()), Table(), start, start + length, kind)
    {
      if start + length > U64_MAX {
        return Err(InvalidRange);
      }
      var end := start + length;
      if length == 0 || end <= start {
        return Err(InvalidRange);
      }
      var replacement, replacementCount, ok, overlapped := BuildReplacement(start, end, kind);
      if !ok {
        return Err(TooManyRanges);
      }
      if !overlapped {
        return Err(RangeNotFound);
      }
      ReserveKeepsShape(Table(), start, end, kind);
      ReserveReassigns(Table(), start, end, kind);
      ranges := replacement;
      count := replacementCount;
      return Ok(());
    }

    method AddExternalRange(start: U64, length: U64, kind: MemoryKind) returns (r: Result<(), MapError>)
      requires Valid()
      modifies this, ranges
      ensures Valid() && ranges == old(ranges)
      ensures r == if length == 0 || start + length > U64_MAX || old(count) == MAX_MEMORY_RANGES
                   then Err(InvalidRange) else Ok(())
      ensures Table() == old(Table()) + if r.Ok? then [MemoryRange(start, length, MMIO, kind)] else []
    {
      if start + length > U64_MAX {
        return Err(InvalidRange);
      }
      if length == 0 || start + length <= start || count == MAX_MEMORY_RANGES {
        return Err(InvalidRange);
      }
      ranges[count] := MemoryRange(start, length, MMIO, kind);
      count := count + 1;
      return Ok(());
    }

    /** Byte totals by kind, each saturating at the largest `u64`. */
    method Summary() returns (summary: MemorySummary)
      requires Valid()
      ensures summary.ranges == count
      ensures forall k :: summary.Of(k) == Min(Bytes(Table(), k), U64_MAX)
      ensures HasTotals(summary, Table())
    {
      ghost var rs := Table();
      summary := MemorySummary(count, 0, 0, 0, 0, 0, 0, 0, 0);
      for i := 0 to count
        invariant summary.ranges == count
        invariant forall k :: summary.Of(k) == Min(Bytes(rs[..i], k), U64_MAX)
      {
        assert rs[..i + 1] == rs[..i] + [rs[i]];
        forall k ensures Bytes(rs[..i + 1], k) == Bytes(rs[..i], k) + if rs[i].kind == k then rs[i].length else 0 {
          BytesConcat(rs[..i], [rs[i]], k);
        }
        forall k ensures summary.Add(rs[i].kind, rs[i].length).Of(k) == Min(Bytes(rs[..i + 1], k), U64_MAX) {
          assert summary.Of(k) == Min(Bytes(rs[..i], k), U64_MAX);
        }
        summary := summary.Add(ranges[i].kind, ranges[i].length);
      }
      assert rs[..count] == rs;
      TotalsByKind(summary, rs);
    }
  }

  /** Copies the firmware map and marks the framebuffer, as an external window if the map does not know it. */
  method Initialize(entries: seq<Descriptor>, framebuffer: Option<(U64, U64)>)
    returns (r: Result<MemoryMapSnapshot, MapError>)
    ensures r.Ok? <==> Initialized(entries, framebuffer).Ok?
    ensures r.Err? ==> Initialized(entries, framebuffer) == Err(r.error)
    ensures r.Ok? ==> fresh(r.value) && fresh(r.value.ranges) && r.value.Valid()
    ensures r.Ok? ==> r.value.Table() == Initialized(entries, framebuffer).value
  {
    var copy := MemoryMapSnapshot.CopyFrom(entries);
    if copy.Err? {
      return copy;
    }
    var snapshot := copy.value;
    if framebuffer.Some? {
      var (start, length) := framebuffer.value;
      var reserved := snapshot.ReserveRange(start, length, Device);
      if reserved == Err(RangeNotFound) {
        var added := snapshot.AddExternalRange(start, length, Device);
        if added.Err? {
          return Err(added.error);
        }
      } else if reserved.Err? {
        return Err(reserved.error);
      }
    }
    return Ok(snapshot);
  }
}
