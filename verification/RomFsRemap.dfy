/** Relocating files against a reference image (src/romfs.cpp, remap): files stay where they were if they still
    fit, and go into holes or to the end if they do not; no two of them ever overlap. */
module RomFsRemap {
  import opened Bytes
  import opened Space

  const FILE_ALIGN: nat := 0x10
  const NO_LEVEL: nat := 0xFFFF_FFFF

  /** A file entry. As in the source, one cell holds the ignore level until the file is placed and its offset
      afterwards. */
  datatype File = File(path: string, cell: int, size: nat)

  function Padded(f: File): nat { Align(f.size, FILE_ALIGN) }

  /** The aligned range of a file whose offsets count from `base`. */
  function Slot(base: int, f: File): Buffer { Buffer(base + f.cell, base + f.cell + Padded(f)) }

  predicate Empty(r: Buffer) { r.bottom <= r.top }

  predicate Apart(r: Buffer, q: Buffer) { Empty(r) || Empty(q) || r.bottom <= q.top || q.bottom <= r.top }

  lemma ApartHolds(r: Buffer, q: Buffer)
    ensures Apart(r, q) <==> forall x :: !(Holds(r, x) && Holds(q, x))
  {
    if !Apart(r, q) {
      var x := Max(r.top, q.top);
      assert Holds(r, x) && Holds(q, x);
    }
  }

  predicate Distinct(files: seq<File>) { forall i, j :: 0 <= i < j < |files| ==> files[i].path != files[j].path }

  // ----- The reference image -----

  ghost predicate InSome(ref: seq<File>, n: nat, x: int)
    requires n <= |ref|
  {
    exists i :: 0 <= i < n && Holds(Slot(0, ref[i]), x)
  }

  predicate Within(r: File, lo: int, hi: int) {
    Aligned(r.cell) && lo <= r.cell && r.cell + Padded(r) <= hi
  }

  /** The files of an image, at absolute offsets, are aligned and lie back to back from `lo` to `hi`. */
  ghost predicate Packed(ref: seq<File>, lo: int, hi: int) {
    && lo <= hi && (forall i :: 0 <= i < |ref| ==> Within(ref[i], lo, hi))
    && (forall i, j :: 0 <= i < j < |ref| ==> Apart(Slot(0, ref[i]), Slot(0, ref[j])))
    && forall x :: lo <= x < hi ==> InSome(ref, |ref|, x)
  }

  /** What the new image leaves of a reference file when its data begins further on. */
  function Trim(r: File, base: int): File {
    var delta := r.cell - base;
    if delta < 0 then r.(cell := base, size := Max(r.size + delta, 0)) else r
  }

  lemma AlignShift(at: nat, size: nat)
    requires Aligned(at)
    ensures Align(at + size, FILE_ALIGN) == at + Align(size, FILE_ALIGN)
  {
    Rounding(at, size, at + size);
  }

  lemma Rounding(at: nat, size: nat, sum: nat)
    requires at % 0x10 == 0 && sum == at + size
    ensures (sum + 0x10 - 1) / 0x10 * 0x10 == at + (size + 0x10 - 1) / 0x10 * 0x10
  {
  }

  lemma TrimAligned(size: nat, cut: nat)
    requires Aligned(cut)
    ensures Align(Max(size - cut, 0), FILE_ALIGN) == Max(Align(size, FILE_ALIGN) - cut, 0)
  {
    if size <= cut {
      AlignShift(cut, 0);
      AlignMonotone(size, cut, FILE_ALIGN);
    } else {
      AlignShift(cut, size - cut);
    }
  }

  lemma TrimHolds(r: File, base: int, x: int)
    requires Aligned(r.cell) && Aligned(base)
    ensures Holds(Slot(0, Trim(r, base)), x) <==> Holds(Slot(0, r), x) && x >= base
  {
    if r.cell < base {
      TrimAligned(r.size, base - r.cell);
    }
  }

  function TrimAll(ref: seq<File>, base: int): (t: seq<File>)
    ensures |t| == |ref| && forall i :: 0 <= i < |ref| ==> t[i] == Trim(ref[i], base)
  {
    seq(|ref|, i requires 0 <= i < |ref| => Trim(ref[i], base))
  }

  lemma TrimWithin(r: File, base: int, lo: int, hi: int)
    requires Within(r, lo, hi) && lo <= base && Aligned(base)
    ensures Within(Trim(r, base), base, Max(base, hi))
  {
    if r.cell < base {
      TrimAligned(r.size, base - r.cell);
    }
  }

  lemma TrimApart(r: File, q: File, base: int)
    requires Aligned(r.cell) && Aligned(q.cell) && Aligned(base)
    requires Apart(Slot(0, r), Slot(0, q))
    ensures Apart(Slot(0, Trim(r, base)), Slot(0, Trim(q, base)))
  {
    ApartHolds(Slot(0, r), Slot(0, q));
    ApartHolds(Slot(0, Trim(r, base)), Slot(0, Trim(q, base)));
    forall x ensures !(Holds(Slot(0, Trim(r, base)), x) && Holds(Slot(0, Trim(q, base)), x)) {
      TrimHolds(r, base, x);
      TrimHolds(q, base, x);
    }
  }

  /** A packed image stays packed when it is trimmed. */
  lemma TrimPacked(ref: seq<File>, base: int, lo: int, hi: int)
    requires Packed(ref, lo, hi) && lo <= base && Aligned(base)
    ensures Packed(TrimAll(ref, base), base, Max(base, hi))
  {
    var t := TrimAll(ref, base);
    forall i | 0 <= i < |t| ensures Within(t[i], base, Max(base, hi)) {
      TrimWithin(ref[i], base, lo, hi);
    }
    forall i, j | 0 <= i < j < |t| ensures Apart(Slot(0, t[i]), Slot(0, t[j])) {
      assert Within(ref[i], lo, hi) && Within(ref[j], lo, hi);
      TrimApart(ref[i], ref[j], base);
    }
    forall x | base <= x < Max(base, hi) ensures InSome(t, |t|, x) {
      assert lo <= x < hi && InSome(ref, |ref|, x);
      var i :| 0 <= i < |ref| && Holds(Slot(0, ref[i]), x);
      assert Within(ref[i], lo, hi);
      TrimHolds(ref[i], base, x);
      assert Holds(Slot(0, t[i]), x);
    }
  }

  // ----- Which files stay -----

  /** The new file may stay where the reference file was. */
  predicate Keeps(f: File, r: File) { Padded(f) <= Padded(r) && f.cell == NO_LEVEL }

  predicate KeepsAt(files: seq<File>, ref: seq<File>, i: nat, j: nat)
    requires i < |ref| && j < |files|
  {
    ref[i].path == files[j].path && Keeps(files[j], ref[i])
  }

  predicate Seen(ref: seq<File>, n: nat, path: string)
    requires n <= |ref|
  {
    exists i :: 0 <= i < n && ref[i].path == path
  }

  /** The position of a path in a map, or the end. */
  function Find(files: seq<File>, path: string): (k: nat)
    ensures k <= |files| && (k < |files| ==> files[k].path == path)
    ensures k == |files| ==> forall j :: 0 <= j < |files| ==> files[j].path != path
  {
    if files == [] then 0
    else if files[|files| - 1].path == path then |files| - 1
    else
      var k := Find(files[..|files| - 1], path);
      if k == |files| - 1 then |files| else k
  }

  // ----- The state of a relocation -----

  /** The fixed inputs: the new files with their levels, the trimmed reference image, and where data begins. */
  datatype Plan = Plan(files: seq<File>, ref: seq<File>, base: nat, lo: nat, hi: nat)

  ghost predicate PlanOk(p: Plan) {
    && Distinct(p.files) && Distinct(p.ref) && Aligned(p.base) && Aligned(p.lo) && p.base <= p.lo
    && Aligned(p.hi) && Packed(p.ref, p.lo, p.hi)
  }

  datatype View = View(free: seq<Buffer>, files: seq<File>, size: nat, waiting: seq<nat>, placed: set<nat>)

  predicate Aligned(x: int) { x % FILE_ALIGN == 0 }

  predicate OnSlots(r: Buffer) { Aligned(r.top) && Aligned(r.bottom) }

  /** Free ranges begin and end at slot boundaries. */
  ghost predicate AllOnSlots(b: seq<Buffer>) { forall i :: 0 <= i < |b| ==> OnSlots(b[i]) }

  /** The first offset of a free run is where a range begins. */
  lemma RunTop(b: seq<Buffer>, x: int)
    requires Free(b, x) && !Free(b, x - 1)
    ensures exists j :: 0 <= j < |b| && b[j].top == x
  {
    var j :| 0 <= j < |b| && Holds(b[j], x);
    assert !Holds(b[j], x - 1);
  }

  lemma RunBottom(b: seq<Buffer>, x: int)
    requires Free(b, x - 1) && !Free(b, x)
    ensures exists j :: 0 <= j < |b| && b[j].bottom == x
  {
    var j :| 0 <= j < |b| && Holds(b[j], x - 1);
    assert !Holds(b[j], x);
  }

  /** In a canonical list every range is a whole run. */
  lemma Edges(b: seq<Buffer>, i: nat)
    requires Canonical(b) && i < |b|
    ensures Free(b, b[i].top) && !Free(b, b[i].top - 1) && Free(b, b[i].bottom - 1) && !Free(b, b[i].bottom)
  {
    assert Holds(b[i], b[i].top) && Holds(b[i], b[i].bottom - 1);
    forall j | 0 <= j < |b| ensures !Holds(b[j], b[i].top - 1) && !Holds(b[j], b[i].bottom) {
    }
  }

  /** Adding or removing an aligned range leaves aligned ranges. */
  lemma AddedOnSlots(b: seq<Buffer>, c: seq<Buffer>, r: Buffer)
    requires AllOnSlots(b) && Canonical(c) && Added(b, c, r) && OnSlots(r)
    ensures AllOnSlots(c)
  {
    forall i | 0 <= i < |c| ensures OnSlots(c[i]) {
      Edges(c, i);
      if Free(b, c[i].top) {
        RunTop(b, c[i].top);
      } else {
        assert c[i].top == r.top;
      }
      if Free(b, c[i].bottom - 1) {
        RunBottom(b, c[i].bottom);
      } else {
        assert c[i].bottom == r.bottom;
      }
    }
  }

  lemma RemovedOnSlots(b: seq<Buffer>, c: seq<Buffer>, r: Buffer)
    requires AllOnSlots(b) && Canonical(c) && Removed(b, c, r) && OnSlots(r)
    ensures AllOnSlots(c)
  {
    forall i | 0 <= i < |c| ensures OnSlots(c[i]) {
      Edges(c, i);
      if Free(b, c[i].top - 1) {
        assert c[i].top == r.bottom;
      } else {
        RunTop(b, c[i].top);
      }
      if Free(b, c[i].bottom) {
        assert c[i].bottom == r.top;
      } else {
        RunBottom(b, c[i].bottom);
      }
    }
  }

  /** Slot arithmetic. */
  lemma AlignedSum(x: int, n: nat)
    requires Aligned(x)
    ensures Aligned(x + Align(n, FILE_ALIGN))
  {
    AlignedDifference(x, Align(n, FILE_ALIGN));
  }

  lemma AlignedDifference(x: int, y: int)
    requires Aligned(x) && Aligned(y)
    ensures Aligned(x - y) && Aligned(x + y)
  {
    Multiples(x, y, x + y, x - y);
  }

  lemma Multiples(x: int, y: int, sum: int, difference: int)
    requires x % 0x10 == 0 && y % 0x10 == 0 && sum == x + y && difference == x - y
    ensures sum % 0x10 == 0 && difference % 0x10 == 0
  {
  }

  /** File `j`: if it has its place, that place is aligned, inside the data, and not free. */
  ghost predicate EntryOk(v: View, p: Plan, j: nat)
    requires j < |v.files| == |p.files|
  {
    var f := v.files[j];
    && f.path == p.files[j].path && f.size == p.files[j].size
    && (j !in v.placed ==> f.cell == p.files[j].cell)
    && (j in v.placed ==>
      0 <= f.cell && Aligned(f.cell) && f.cell + f.size <= v.size && NoneFree(v.free, Slot(p.base, f)))
  }

  ghost predicate PairOk(v: View, base: nat, j: nat, k: nat)
    requires j < |v.files| && k < |v.files|
  {
    j in v.placed && k in v.placed ==> Apart(Slot(base, v.files[j]), Slot(base, v.files[k]))
  }

  ghost predicate Sound(v: View, p: Plan) {
    && |v.files| == |p.files| && Canonical(v.free) && AllOnSlots(v.free)
    && (forall j :: 0 <= j < |v.files| ==> EntryOk(v, p, j))
    && forall j, k :: 0 <= j < k < |v.files| ==> PairOk(v, p.base, j, k)
  }

  /** Every file that may stay is where it was. */
  ghost predicate Stay(v: View, p: Plan, n: nat)
    requires n <= |p.ref| && |v.files| == |p.files|
  {
    forall i, j :: 0 <= i < n && 0 <= j < |p.files| && KeepsAt(p.files, p.ref, i, j) ==>
      j in v.placed && v.files[j].cell == p.ref[i].cell - p.base
  }

  /** How often file `j` has been placed or queued. */
  function Tally(waiting: seq<nat>, placed: set<nat>, j: nat): nat {
    multiset(waiting)[j] + if j in placed then 1 else 0
  }

  /** Placing file `k`. */
  function Placing(v: View, k: nat, cell: int, free: seq<Buffer>, size: nat): View
    requires k < |v.files|
  {
    v.(free := free, files := v.files[k := v.files[k].(cell := cell)], size := size, placed := v.placed + {k})
  }

  /** A file may be placed wherever nothing is, if that range is no longer free afterwards. */
  lemma PlacingSound(v: View, p: Plan, k: nat, cell: nat, free: seq<Buffer>, size: nat)
    requires Sound(v, p) && k < |v.files| && k !in v.placed
    requires Canonical(free) && AllOnSlots(free) && v.size <= size && cell + v.files[k].size <= size
    requires Aligned(cell) && NoneFree(free, Slot(p.base, v.files[k].(cell := cell)))
    requires forall j :: 0 <= j < |v.files| && j in v.placed ==>
      && Apart(Slot(p.base, v.files[j]), Slot(p.base, v.files[k].(cell := cell)))
      && NoneFree(free, Slot(p.base, v.files[j]))
    ensures Sound(Placing(v, k, cell, free, size), p)
  {
    var w := Placing(v, k, cell, free, size);
    forall j | 0 <= j < |w.files| ensures EntryOk(w, p, j) {
      assert EntryOk(v, p, j);
    }
    forall i, j | 0 <= i < j < |w.files| ensures PairOk(w, p.base, i, j) {
      assert PairOk(v, p.base, i, j);
    }
  }

  // ----- Going through the reference image -----

  ghost predicate Taken(v: View, base: int, x: int) {
    exists j :: 0 <= j < |v.files| && j in v.placed && Holds(Slot(base, v.files[j]), x)
  }

  ghost predicate Covered(v: View, base: int, x: int) { Free(v.free, x) || Taken(v, base, x) }

  /** What lies before the reference data or in one of the first `n` reference files. */
  ghost predicate Given(p: Plan, n: nat, x: int)
    requires n <= |p.ref|
  {
    p.base <= x < p.lo || InSome(p.ref, n, x)
  }

  /** Free and taken together are just what has been gone through. */
  ghost predicate Accounted(v: View, p: Plan, n: nat)
    requires n <= |p.ref|
  {
    forall x :: Covered(v, p.base, x) <==> Given(p, n, x)
  }

  /** Only files that may stay have been placed, and every file met so far has been placed or queued, once. */
  ghost predicate MetOk(v: View, p: Plan, n: nat, j: nat)
    requires n <= |p.ref| && j < |p.files|
  {
    && (j in v.placed ==> exists i :: 0 <= i < n && KeepsAt(p.files, p.ref, i, j))
    && Tally(v.waiting, v.placed, j) == if Seen(p.ref, n, p.files[j].path) then 1 else 0
  }

  /** The size of the data is where some placed file ends. */
  ghost predicate Reached(v: View) {
    v.size == 0 || exists j :: 0 <= j < |v.files| && j in v.placed && v.files[j].cell + v.files[j].size == v.size
  }

  predicate InRange(w: seq<nat>, n: nat) { forall j :: 0 <= j < |w| ==> w[j] < n }

  ghost predicate Visited(v: View, p: Plan, n: nat) {
    && n <= |p.ref| && InRange(v.waiting, |p.files|) && Sound(v, p) && Stay(v, p, n) && Accounted(v, p, n) && Reached(v)
    && forall j :: 0 <= j < |p.files| ==> MetOk(v, p, n, j)
  }

  /** Nothing of the next reference file has been covered yet. */
  lemma NextUncovered(v: View, p: Plan, n: nat, x: int)
    requires PlanOk(p) && n < |p.ref| && Accounted(v, p, n) && Holds(Slot(0, p.ref[n]), x)
    ensures !Covered(v, p.base, x)
  {
    assert Within(p.ref[n], p.lo, p.hi);
    if InSome(p.ref, n, x) {
      var i :| 0 <= i < n && Holds(Slot(0, p.ref[i]), x);
      ApartHolds(Slot(0, p.ref[i]), Slot(0, p.ref[n]));
    }
    assert !Given(p, n, x);
  }

  lemma InSomeNext(ref: seq<File>, n: nat, x: int)
    requires n < |ref|
    ensures InSome(ref, n + 1, x) <==> InSome(ref, n, x) || Holds(Slot(0, ref[n]), x)
  {
  }

  lemma SeenNext(ref: seq<File>, n: nat, path: string)
    requires n < |ref| && Distinct(ref)
    ensures Seen(ref, n + 1, path) <==> Seen(ref, n, path) || ref[n].path == path
    ensures ref[n].path == path ==> !Seen(ref, n, path)
  {
  }

  lemma TakenAfter(v: View, base: int, k: nat, cell: int, free: seq<Buffer>, size: nat, x: int)
    requires k < |v.files| && k !in v.placed
    ensures Taken(Placing(v, k, cell, free, size), base, x)
      <==> Taken(v, base, x) || Holds(Slot(base, v.files[k].(cell := cell)), x)
  {
    var w := Placing(v, k, cell, free, size);
    if Taken(v, base, x) {
      var j :| 0 <= j < |v.files| && j in v.placed && Holds(Slot(base, v.files[j]), x);
      assert w.files[j] == v.files[j];
    }
    if Holds(Slot(base, v.files[k].(cell := cell)), x) {
      assert w.files[k] == v.files[k].(cell := cell);
    }
  }

  /** What a reference file leaves free when file `f` stays in its place. */
  function Rest(f: File, r: File): Buffer { Buffer(r.cell + Padded(f), r.cell + Padded(r)) }

  /** The next reference file is given up, and the new file of its name, if there is one, waits. */
  ghost predicate Dropped(p: Plan, n: nat, waiting: seq<nat>, queue: seq<nat>)
    requires n < |p.ref|
  {
    && InRange(queue, |p.files|)
    && forall j :: 0 <= j < |p.files| ==>
      && multiset(queue)[j] == multiset(waiting)[j] + (if p.ref[n].path == p.files[j].path then 1 else 0)
      && !KeepsAt(p.files, p.ref, n, j)
  }

  lemma GivenUp(v: View, p: Plan, n: nat, free: seq<Buffer>, waiting: seq<nat>)
    requires PlanOk(p) && Visited(v, p, n) && n < |p.ref| && Canonical(free) && Added(v.free, free, Slot(0, p.ref[n]))
    requires Dropped(p, n, v.waiting, waiting)
    ensures Visited(v.(free := free, waiting := waiting), p, n + 1)
  {
    var w, m := v.(free := free, waiting := waiting), n + 1;
    assert Within(p.ref[n], p.lo, p.hi);
    AlignedSum(p.ref[n].cell, p.ref[n].size);
    AddedOnSlots(v.free, free, Slot(0, p.ref[n]));
    forall j | 0 <= j < |w.files| ensures EntryOk(w, p, j) {
      assert EntryOk(v, p, j);
      if j in v.placed {
        GivenUpEntry(v, p, n, free, j);
      }
    }
    forall i, j | 0 <= i < j < |w.files| ensures PairOk(w, p.base, i, j) {
      assert PairOk(v, p.base, i, j);
    }
    forall x ensures Covered(w, p.base, x) <==> Given(p, n + 1, x) {
      assert Covered(v, p.base, x) <==> Given(p, n, x);
      InSomeNext(p.ref, n, x);
      assert Taken(w, p.base, x) <==> Taken(v, p.base, x);
    }
    forall j | 0 <= j < |p.files| ensures MetOk(w, p, m, j) {
      assert MetOk(v, p, n, j);
      SeenNext(p.ref, n, p.files[j].path);
    }
  }

  lemma GivenUpEntry(v: View, p: Plan, n: nat, free: seq<Buffer>, j: nat)
    requires PlanOk(p) && n < |p.ref| && Accounted(v, p, n) && Added(v.free, free, Slot(0, p.ref[n]))
    requires j < |v.files| && j in v.placed && NoneFree(v.free, Slot(p.base, v.files[j]))
    ensures NoneFree(free, Slot(p.base, v.files[j]))
  {
    forall x | Holds(Slot(p.base, v.files[j]), x) ensures !Free(free, x) {
      if Holds(Slot(0, p.ref[n]), x) {
        NextUncovered(v, p, n, x);
        assert Taken(v, p.base, x);
      }
    }
  }

  /** File `k` stays where the next reference file was. */
  lemma StaysHere(v: View, p: Plan, n: nat, k: nat, free: seq<Buffer>, size: nat)
    requires PlanOk(p) && Visited(v, p, n) && n < |p.ref| && k < |p.files| && KeepsAt(p.files, p.ref, n, k)
    requires Canonical(free) && Added(v.free, free, Rest(p.files[k], p.ref[n]))
    requires size == Max(v.size, p.ref[n].cell - p.base + p.files[k].size)
    ensures Visited(Placing(v, k, p.ref[n].cell - p.base, free, size), p, n + 1)
  {
    var r, f, m := p.ref[n], p.files[k], n + 1;
    var cell := r.cell - p.base;
    assert Within(r, p.lo, p.hi) && MetOk(v, p, n, k) && EntryOk(v, p, k);
    SeenNext(p.ref, n, f.path);
    assert k !in v.placed;
    AlignedSum(r.cell, f.size);
    AlignedSum(r.cell, r.size);
    AddedOnSlots(v.free, free, Rest(f, r));
    AlignedDifference(r.cell, p.base);
    forall j | 0 <= j < |v.files| && j in v.placed
      ensures Apart(Slot(p.base, v.files[j]), Slot(p.base, v.files[k].(cell := cell)))
      ensures NoneFree(free, Slot(p.base, v.files[j]))
    {
      assert EntryOk(v, p, j);
      StaysBeside(v, p, n, k, free, j);
    }
    StaysUsed(v, p, n, k, free);
    PlacingSound(v, p, k, cell, free, size);
    StaysCounted(v, p, n, k, free, size);
    StaysCovers(v, p, n, k, free, size);
    var w := Placing(v, k, cell, free, size);
    StaysReached(v, w, k);
  }

  lemma StaysReached(v: View, w: View, k: nat)
    requires Reached(v) && k < |v.files| == |w.files| && k in w.placed && v.placed <= w.placed && v.size <= w.size
    requires forall j :: 0 <= j < |v.files| && j in v.placed ==> w.files[j] == v.files[j]
    requires w.size == v.size || w.size == w.files[k].cell + w.files[k].size
    ensures Reached(w)
  {
  }

  lemma StaysBeside(v: View, p: Plan, n: nat, k: nat, free: seq<Buffer>, j: nat)
    requires PlanOk(p) && n < |p.ref| && k < |p.files| && KeepsAt(p.files, p.ref, n, k) && Accounted(v, p, n)
    requires Added(v.free, free, Rest(p.files[k], p.ref[n]))
    requires j < |v.files| && j in v.placed && NoneFree(v.free, Slot(p.base, v.files[j]))
    ensures Apart(Slot(p.base, v.files[j]), Slot(p.base, p.files[k].(cell := p.ref[n].cell - p.base)))
    ensures NoneFree(free, Slot(p.base, v.files[j]))
  {
    var here := Slot(p.base, p.files[k].(cell := p.ref[n].cell - p.base));
    ApartHolds(Slot(p.base, v.files[j]), here);
    forall x | Holds(Slot(p.base, v.files[j]), x) ensures !Free(free, x) && !Holds(here, x) {
      assert Taken(v, p.base, x);
      if Holds(Slot(0, p.ref[n]), x) {
        NextUncovered(v, p, n, x);
      }
    }
  }

  lemma StaysUsed(v: View, p: Plan, n: nat, k: nat, free: seq<Buffer>)
    requires PlanOk(p) && n < |p.ref| && k < |p.files| && KeepsAt(p.files, p.ref, n, k) && Accounted(v, p, n)
    requires Added(v.free, free, Rest(p.files[k], p.ref[n]))
    ensures NoneFree(free, Slot(p.base, p.files[k].(cell := p.ref[n].cell - p.base)))
  {
    forall x | Holds(Slot(p.base, p.files[k].(cell := p.ref[n].cell - p.base)), x) ensures !Free(free, x) {
      NextUncovered(v, p, n, x);
    }
  }

  lemma StaysCounted(v: View, p: Plan, n: nat, k: nat, free: seq<Buffer>, size: nat)
    requires PlanOk(p) && n < |p.ref| && k < |p.files| == |v.files| && KeepsAt(p.files, p.ref, n, k)
    requires k !in v.placed && Stay(v, p, n) && forall j :: 0 <= j < |p.files| ==> MetOk(v, p, n, j)
    ensures
      var w, m := Placing(v, k, p.ref[n].cell - p.base, free, size), n + 1;
      Stay(w, p, m) && forall j :: 0 <= j < |p.files| ==> MetOk(w, p, m, j)
  {
    var w, m := Placing(v, k, p.ref[n].cell - p.base, free, size), n + 1;
    forall j | 0 <= j < |p.files| ensures MetOk(w, p, m, j) {
      assert MetOk(v, p, n, j);
      SeenNext(p.ref, n, p.files[j].path);
      assert p.ref[n].path == p.files[j].path ==> j == k;
    }
  }

  lemma StaysCovers(v: View, p: Plan, n: nat, k: nat, free: seq<Buffer>, size: nat)
    requires n < |p.ref| && k < |p.files| == |v.files| && KeepsAt(p.files, p.ref, n, k) && k !in v.placed
    requires v.files[k].size == p.files[k].size && Accounted(v, p, n)
    requires Added(v.free, free, Rest(p.files[k], p.ref[n]))
    ensures Accounted(Placing(v, k, p.ref[n].cell - p.base, free, size), p, n + 1)
  {
    var w := Placing(v, k, p.ref[n].cell - p.base, free, size);
    forall x ensures Covered(w, p.base, x) <==> Given(p, n + 1, x) {
      assert Covered(v, p.base, x) <==> Given(p, n, x);
      InSomeNext(p.ref, n, x);
      TakenAfter(v, p.base, k, p.ref[n].cell - p.base, free, size, x);
    }
  }

  // ----- Between the two passes -----

  /** Free space lies below the last slot that is used. */
  ghost predicate FreeBelow(v: View, base: int) { FreeWithin(v.free, base, base + Down(v.size)) }

  ghost predicate FreeWithin(free: seq<Buffer>, lo: int, hi: int) {
    forall x :: Free(free, x) ==> lo <= x < hi
  }

  /** The size cut down to whole slots. */
  function Down(size: nat): (r: nat)
    ensures r <= size < r + FILE_ALIGN && Aligned(r)
  {
    MultipleModZero(size / FILE_ALIGN, FILE_ALIGN);
    size / FILE_ALIGN * FILE_ALIGN
  }

  ghost predicate Ready(v: View, p: Plan) { Sound(v, p) && Stay(v, p, |p.ref|) && FreeBelow(v, p.base) }

  /** The file that reaches the end of the data: its slot ends at the next slot boundary. */
  lemma LastFile(v: View, p: Plan) returns (j: nat)
    requires PlanOk(p) && Visited(v, p, |p.ref|) && v.size > 0
    ensures j < |v.files| && j in v.placed && v.files[j].cell + v.files[j].size == v.size
    ensures Slot(p.base, v.files[j]).bottom == Align(p.base + v.size, FILE_ALIGN) <= p.hi
    ensures p.lo <= p.base + v.files[j].cell
  {
    j :| 0 <= j < |v.files| && j in v.placed && v.files[j].cell + v.files[j].size == v.size;
    assert EntryOk(v, p, j) && MetOk(v, p, |p.ref|, j);
    var i :| 0 <= i < |p.ref| && KeepsAt(p.files, p.ref, i, j);
    assert Within(p.ref[i], p.lo, p.hi);
    AlignShift(p.base + v.files[j].cell, v.files[j].size);
  }

  lemma GivenBounds(p: Plan, x: int)
    requires PlanOk(p)
    ensures Given(p, |p.ref|, x) <==> p.base <= x < p.hi
  {
    if InSome(p.ref, |p.ref|, x) {
      var i :| 0 <= i < |p.ref| && Holds(Slot(0, p.ref[i]), x);
      assert Within(p.ref[i], p.lo, p.hi);
    }
  }

  /** Nothing reaches beyond the slot of the last file. */
  lemma TakenBelow(v: View, p: Plan, x: int)
    requires PlanOk(p) && Sound(v, p) && Taken(v, p.base, x)
    ensures x < Align(p.base + v.size, FILE_ALIGN)
  {
    var j :| 0 <= j < |v.files| && j in v.placed && Holds(Slot(p.base, v.files[j]), x);
    assert EntryOk(v, p, j);
    AlignedDifference(p.base, v.files[j].cell);
    SlotBelow(p.base + v.files[j].cell, v.files[j].size, p.base + v.size);
  }

  lemma SlotBelow(at: nat, size: nat, end: nat)
    requires Aligned(at) && at + size <= end
    ensures at + Align(size, FILE_ALIGN) <= Align(end, FILE_ALIGN)
  {
    AlignShift(at, size);
    AlignMonotone(at + size, end, FILE_ALIGN);
  }

  /** The rest of the reference image behind the last file is free. */
  lemma TailFree(v: View, p: Plan)
    requires PlanOk(p) && Visited(v, p, |p.ref|) && v.size > 0
    ensures Align(p.base + v.size, FILE_ALIGN) <= p.hi
    ensures AllFree(v.free, Buffer(Align(p.base + v.size, FILE_ALIGN), p.hi))
  {
    var last := LastFile(v, p);
    forall x | Align(p.base + v.size, FILE_ALIGN) <= x < p.hi ensures Free(v.free, x) {
      GivenBounds(p, x);
      assert Covered(v, p.base, x);
      if Taken(v, p.base, x) {
        TakenBelow(v, p, x);
      }
    }
  }

  /** Once that rest is withdrawn, all free space lies between files. */
  lemma TailCut(v: View, p: Plan, free: seq<Buffer>)
    requires PlanOk(p) && Visited(v, p, |p.ref|) && v.size > 0 && Canonical(free)
    requires Removed(v.free, free, Buffer(Align(p.base + v.size, FILE_ALIGN), p.hi))
    ensures Ready(v.(free := free), p)
  {
    RemovedOnSlots(v.free, free, Buffer(Align(p.base + v.size, FILE_ALIGN), p.hi));
    FreeLess(v, p, free);
    var last := LastFile(v, p);
    assert EntryOk(v, p, last);
    forall x | Free(free, x) ensures p.base <= x < p.base + Down(v.size) {
      assert Covered(v, p.base, x);
      GivenBounds(p, x);
      BelowLast(p.base, v.files[last], v.size, x);
    }
  }

  lemma BelowLast(base: nat, f: File, size: nat, x: int)
    requires 0 <= f.cell && Aligned(f.cell) && f.cell + f.size == size && Aligned(base)
    requires !Holds(Slot(base, f), x) && x < Slot(base, f).bottom
    ensures x < base + Down(size)
  {
    AlignedBelow(f.cell, size, Down(size));
  }

  lemma AlignedBelow(cell: nat, size: nat, down: nat)
    requires cell % 0x10 == 0 && down % 0x10 == 0 && cell <= size && down <= size < down + 0x10
    ensures cell <= down
  {
  }

  lemma FreeLess(v: View, p: Plan, free: seq<Buffer>)
    requires Sound(v, p) && Canonical(free) && AllOnSlots(free) && forall x :: Free(free, x) ==> Free(v.free, x)
    ensures Sound(v.(free := free), p)
  {
    var w := v.(free := free);
    forall j | 0 <= j < |w.files| ensures EntryOk(w, p, j) {
      assert EntryOk(v, p, j);
    }
    forall i, j | 0 <= i < j < |w.files| ensures PairOk(w, p.base, i, j) {
      assert PairOk(v, p.base, i, j);
    }
  }

  lemma NothingLeft(v: View, p: Plan, free: seq<Buffer>)
    requires Visited(v, p, |p.ref|) && Canonical(free) && forall x :: !Free(free, x)
    ensures Ready(v.(free := free), p)
  {
    CanonicalUnique(free, []);
    FreeLess(v, p, free);
  }

  ghost predicate TakenBy(files: seq<File>, placed: set<nat>, base: int, x: int) {
    exists j :: 0 <= j < |files| && j in placed && Holds(Slot(base, files[j]), x)
  }

  /** Free is just what lies before the end of the data and in none of the files that stay, and one of those ends
      there. */
  ghost predicate Holed(free: seq<Buffer>, files: seq<File>, placed: set<nat>, base: int, size: nat) {
    && (forall x :: Free(free, x) <==> base <= x < base + Align(size, 16) && !TakenBy(files, placed, base, x))
    && (forall j :: 0 <= j < |files| && j in placed ==> files[j].cell + files[j].size <= size)
    && (size == 0 || exists j :: 0 <= j < |files| && j in placed && files[j].cell + files[j].size == size)
  }

  lemma HolesLeft(v: View, p: Plan, free: seq<Buffer>)
    requires PlanOk(p) && Visited(v, p, |p.ref|) && v.size > 0
    requires Removed(v.free, free, Buffer(Align(p.base + v.size, FILE_ALIGN), p.hi))
    ensures Holed(free, v.files, v.placed, p.base, v.size)
  {
    TailFree(v, p);
    AlignShift(p.base, v.size);
    forall x
      ensures Free(free, x) <==> p.base <= x < p.base + Align(v.size, 16) && !TakenBy(v.files, v.placed, p.base, x)
    {
      HoleHere(v, p, free, x);
    }
    PlacedEnd(v, p);
  }

  lemma HoleHere(v: View, p: Plan, free: seq<Buffer>, x: int)
    requires PlanOk(p) && Visited(v, p, |p.ref|) && Align(p.base + v.size, FILE_ALIGN) <= p.hi
    requires Removed(v.free, free, Buffer(Align(p.base + v.size, FILE_ALIGN), p.hi))
    ensures Free(free, x)
      <==> p.base <= x < Align(p.base + v.size, FILE_ALIGN) && !TakenBy(v.files, v.placed, p.base, x)
  {
    GivenBounds(p, x);
    assert Covered(v, p.base, x) <==> p.base <= x < p.hi;
    assert Taken(v, p.base, x) <==> TakenBy(v.files, v.placed, p.base, x);
    if Taken(v, p.base, x) {
      NotBoth(v, p, x);
    }
  }

  lemma NotBoth(v: View, p: Plan, x: int)
    requires Sound(v, p) && Taken(v, p.base, x)
    ensures !Free(v.free, x)
  {
    var j :| 0 <= j < |v.files| && j in v.placed && Holds(Slot(p.base, v.files[j]), x);
    assert EntryOk(v, p, j);
  }

  lemma PlacedEnd(v: View, p: Plan)
    requires Sound(v, p)
    ensures forall j :: 0 <= j < |v.files| && j in v.placed ==> v.files[j].cell + v.files[j].size <= v.size
  {
    forall j | 0 <= j < |v.files| && j in v.placed ensures v.files[j].cell + v.files[j].size <= v.size {
      assert EntryOk(v, p, j);
    }
  }

  lemma NoHoles(v: View, p: Plan, free: seq<Buffer>)
    requires Visited(v, p, |p.ref|) && v.size == 0 && forall x :: !Free(free, x)
    ensures Holed(free, v.files, v.placed, p.base, v.size)
  {
    PlacedEnd(v, p);
  }

  // ----- Placing the files that wait -----

  /** The lowest run that is long enough begins at a slot. */
  lemma HoleAligned(b: seq<Buffer>, at: int, size: nat)
    requires Canonical(b) && AllOnSlots(b) && RunAt(b, at, size) && size > 0
    requires forall x :: RunAt(b, x, size) ==> at <= x
    ensures Aligned(at)
  {
    var i := InOneBuffer(b, Buffer(at, at + size));
    forall x | Holds(Buffer(b[i].top, b[i].top + size), x) ensures Free(b, x) {
      assert Holds(b[i], x);
    }
    assert RunAt(b, b[i].top, size) && OnSlots(b[i]);
  }

  /** Where GetSpace may send a file: to an aligned free run, and an empty file to any free offset. */
  ghost predicate Hole(b: seq<Buffer>, at: int, size: nat) {
    Aligned(at) && Free(b, at) && RunAt(b, at, size)
  }

  lemma FoundHole(b: seq<Buffer>, at: int, size: nat)
    requires Canonical(b) && AllOnSlots(b) && at != -1
    requires size > 0 ==> RunAt(b, at, size) && forall x :: RunAt(b, x, size) ==> at <= x
    requires size == 0 ==> b != [] && at == b[0].top
    ensures Hole(b, at, size)
  {
    if size > 0 {
      HoleAligned(b, at, size);
      assert Holds(Buffer(at, at + size), at);
    } else {
      assert Holds(b[0], at) && OnSlots(b[0]);
    }
  }

  lemma HoleBelow(free: seq<Buffer>, lo: int, hi: int, at: int, size: nat)
    requires FreeWithin(free, lo, hi) && Hole(free, at, size)
    ensures lo <= at && at + size <= hi
  {
    if size > 0 {
      assert Holds(Buffer(at, at + size), at + size - 1);
    }
  }

  lemma TopsPositive(v: View, base: nat)
    requires FreeBelow(v, base) && Canonical(v.free)
    ensures forall i :: 0 <= i < |v.free| ==> v.free[i].top >= 0
  {
    forall i | 0 <= i < |v.free| ensures v.free[i].top >= 0 {
      assert Holds(v.free[i], v.free[i].top);
      assert Free(v.free, v.free[i].top);
    }
  }

  lemma HoleBeside(was: seq<Buffer>, free: seq<Buffer>, at: int, size: nat, q: Buffer)
    requires Hole(was, at, size) && Removed(was, free, Buffer(at, at + size)) && NoneFree(was, q)
    ensures Apart(q, Buffer(at, at + size)) && NoneFree(free, q)
  {
    ApartHolds(q, Buffer(at, at + size));
  }

  lemma HoleUsed(was: seq<Buffer>, free: seq<Buffer>, at: int, size: nat)
    requires Removed(was, free, Buffer(at, at + size))
    ensures NoneFree(free, Buffer(at, at + size))
  {
  }

  lemma StillWithin(was: seq<Buffer>, free: seq<Buffer>, r: Buffer, lo: int, hi: int)
    requires FreeWithin(was, lo, hi) && Removed(was, free, r)
    ensures FreeWithin(free, lo, hi)
  {
  }

  /** The files that have their places are clear of the hole. */
  lemma HoleClear(v: View, p: Plan, at: int, size: nat, free: seq<Buffer>)
    requires Sound(v, p) && Hole(v.free, at, size) && Removed(v.free, free, Buffer(at, at + size))
    ensures forall j :: 0 <= j < |v.files| && j in v.placed ==>
      Apart(Slot(p.base, v.files[j]), Buffer(at, at + size)) && NoneFree(free, Slot(p.base, v.files[j]))
  {
    forall j | 0 <= j < |v.files| && j in v.placed
      ensures Apart(Slot(p.base, v.files[j]), Buffer(at, at + size)) && NoneFree(free, Slot(p.base, v.files[j]))
    {
      assert EntryOk(v, p, j);
      HoleBeside(v.free, free, at, size, Slot(p.base, v.files[j]));
    }
  }

  /** The hole is on slots, and so is the free space that is left. */
  lemma HoleOnSlots(was: seq<Buffer>, free: seq<Buffer>, base: int, at: int, size: nat)
    requires AllOnSlots(was) && Canonical(free) && Hole(was, at, Align(size, FILE_ALIGN)) && Aligned(base)
    requires Removed(was, free, Buffer(at, at + Align(size, FILE_ALIGN)))
    ensures Aligned(at - base) && AllOnSlots(free)
  {
    AlignedSum(at, size);
    AlignedDifference(at, base);
    RemovedOnSlots(was, free, Buffer(at, at + Align(size, FILE_ALIGN)));
  }

  lemma SlotAt(base: int, f: File, at: int)
    ensures Slot(base, f.(cell := at - base)) == Buffer(at, at + Padded(f))
  {
  }

  lemma IntoHole(v: View, p: Plan, k: nat, at: int, free: seq<Buffer>)
    requires PlanOk(p) && Ready(v, p) && k < |v.files| && k !in v.placed && Canonical(free)
    requires Hole(v.free, at, Padded(v.files[k])) && Removed(v.free, free, Buffer(at, at + Padded(v.files[k])))
    ensures at >= p.base && Ready(Placing(v, k, at - p.base, free, v.size), p)
  {
    var f := v.files[k];
    var r := Buffer(at, at + Padded(f));
    HoleBelow(v.free, p.base, p.base + Down(v.size), at, Padded(f));
    HoleOnSlots(v.free, free, p.base, at, f.size);
    HoleClear(v, p, at, Padded(f), free);
    HoleUsed(v.free, free, at, Padded(f));
    SlotAt(p.base, f, at);
    StillWithin(v.free, free, r, p.base, p.base + Down(v.size));
    PlacingSound(v, p, k, at - p.base, free, v.size);
    PlacingStays(v, p, k, at - p.base, free, v.size);
  }

  lemma PlacingStays(v: View, p: Plan, k: nat, cell: int, free: seq<Buffer>, size: nat)
    requires |v.files| == |p.files| && Stay(v, p, |p.ref|) && k < |v.files| && k !in v.placed
    ensures Stay(Placing(v, k, cell, free, size), p, |p.ref|)
  {
  }

  lemma DownMonotone(m: nat, n: nat)
    requires m <= n
    ensures Down(m) <= Down(n)
  {
    AlignedBelow(Down(m), n, Down(n));
  }

  /** The free ranges and the size of the data between two files. */
  datatype Stage = Stage(free: seq<Buffer>, size: nat)

  /** The slots that a file takes. */
  function Room(f: File): nat { Align(f.size, 16) }

  /** File `f` takes the lowest run of free offsets that is long enough. Without one it begins at the next multiple of
      16 behind the data, which then end with it. An empty file goes to the first free offset, and takes nothing. */
  ghost predicate FirstFit(s: Stage, t: Stage, base: nat, f: File, cell: int) {
    if Room(f) > 0 && exists x :: RunAt(s.free, x, Room(f)) then
      && RunAt(s.free, base + cell, Room(f)) && (forall x :: RunAt(s.free, x, Room(f)) ==> base + cell <= x)
      && t.size == s.size && Removed(s.free, t.free, Buffer(base + cell, base + cell + Room(f)))
    else if Room(f) == 0 && s.free != [] then
      base + cell == s.free[0].top && t.size == s.size && forall x :: Free(t.free, x) <==> Free(s.free, x)
    else
      cell == Align(s.size, 16) && t.size == cell + f.size && t.free == s.free
  }

  lemma FitsHole(s: Stage, t: Stage, base: nat, f: File, at: int)
    requires Room(f) > 0 ==> RunAt(s.free, at, Room(f)) && forall x :: RunAt(s.free, x, Room(f)) ==> at <= x
    requires Room(f) == 0 ==> s.free != [] && at == s.free[0].top
    requires t.size == s.size && Removed(s.free, t.free, Buffer(at, at + Room(f)))
    ensures FirstFit(s, t, base, f, at - base)
  {
  }

  lemma FitsEnd(s: Stage, t: Stage, base: nat, f: File, cell: int)
    requires Room(f) > 0 ==> forall x :: !RunAt(s.free, x, Room(f))
    requires Room(f) == 0 ==> s.free == []
    requires cell == Align(s.size, 16) && t.size == cell + f.size && t.free == s.free
    ensures FirstFit(s, t, base, f, cell)
  {
  }

  /** The first `n` files of the order have been fitted one after the other. */
  ghost predicate Fitted(order: seq<nat>, run: seq<Stage>, n: nat, base: nat, before: seq<File>, files: seq<File>) {
    && n <= |order| && |run| == n + 1 && |files| == |before|
    && forall i :: 0 <= i < n ==>
      order[i] < |files| && FirstFit(run[i], run[i + 1], base, before[order[i]], files[order[i]].cell)
  }

  lemma FittedMore(
    order: seq<nat>, run: seq<Stage>, n: nat, base: nat, before: seq<File>, files: seq<File>, files': seq<File>,
    t: Stage)
    requires Fitted(order, run, n, base, before, files) && n < |order| && order[n] < |files| == |files'|
    requires forall i :: 0 <= i < n ==> order[i] != order[n]
    requires forall j :: 0 <= j < |files| && j != order[n] ==> files'[j] == files[j]
    requires FirstFit(run[n], t, base, before[order[n]], files'[order[n]].cell)
    ensures Fitted(order, run + [t], n + 1, base, before, files')
  {
    var more := run + [t];
    forall i | 0 <= i < n + 1
      ensures order[i] < |files'| && FirstFit(more[i], more[i + 1], base, before[order[i]], files'[order[i]].cell)
    {
      if i < n {
        assert more[i] == run[i] && more[i + 1] == run[i + 1];
      }
    }
  }

  lemma AtEnd(v: View, p: Plan, k: nat)
    requires PlanOk(p) && Ready(v, p) && k < |v.files| && k !in v.placed
    ensures
      var cell := Align(v.size, FILE_ALIGN);
      Ready(Placing(v, k, cell, v.free, cell + v.files[k].size), p)
  {
    var f, cell := v.files[k], Align(v.size, FILE_ALIGN);
    var size := cell + f.size;
    forall j | 0 <= j < |v.files| && j in v.placed
      ensures Apart(Slot(p.base, v.files[j]), Slot(p.base, f.(cell := cell)))
      ensures NoneFree(v.free, Slot(p.base, v.files[j]))
    {
      assert EntryOk(v, p, j);
      SlotBelow(v.files[j].cell, v.files[j].size, v.size);
    }
    PlacingSound(v, p, k, cell, v.free, size);
    PlacingStays(v, p, k, cell, v.free, size);
    DownMonotone(v.size, size);
  }

  // ----- The order of placing -----

  function LevelOf(files: seq<File>, k: nat): int { if k < |files| then files[k].cell else NO_LEVEL }

  /** stable_sort by ignore level: a file goes before the first one whose level is not smaller. */
  function Insert(files: seq<File>, k: nat, w: seq<nat>): seq<nat> {
    if w == [] || LevelOf(files, k) <= LevelOf(files, w[0]) then [k] + w else [w[0]] + Insert(files, k, w[1..])
  }

  function StableSort(files: seq<File>, w: seq<nat>): seq<nat> {
    if w == [] then [] else Insert(files, w[0], StableSort(files, w[1..]))
  }

  /** The queued files of one level, in order. */
  function OfLevel(files: seq<File>, w: seq<nat>, level: int): seq<nat> {
    if w == [] then []
    else if LevelOf(files, w[0]) == level then [w[0]] + OfLevel(files, w[1..], level)
    else OfLevel(files, w[1..], level)
  }

  predicate NotBelow(files: seq<File>, w: seq<nat>, level: int) {
    forall a :: 0 <= a < |w| ==> level <= LevelOf(files, w[a])
  }

  predicate Ascending(files: seq<File>, w: seq<nat>) {
    w != [] ==> NotBelow(files, w[1..], LevelOf(files, w[0])) && Ascending(files, w[1..])
  }

  lemma {:induction false} InsertNotBelow(files: seq<File>, k: nat, w: seq<nat>, level: int)
    requires NotBelow(files, w, level) && level <= LevelOf(files, k)
    ensures NotBelow(files, Insert(files, k, w), level)
  {
    if !(w == [] || LevelOf(files, k) <= LevelOf(files, w[0])) {
      InsertNotBelow(files, k, w[1..], level);
    }
  }

  lemma {:induction false} InsertAscending(files: seq<File>, k: nat, w: seq<nat>)
    requires Ascending(files, w)
    ensures Ascending(files, Insert(files, k, w))
  {
    if w == [] || LevelOf(files, k) <= LevelOf(files, w[0]) {
      assert ([k] + w)[1..] == w;
    } else {
      var s := Insert(files, k, w[1..]);
      InsertAscending(files, k, w[1..]);
      InsertNotBelow(files, k, w[1..], LevelOf(files, w[0]));
      assert ([w[0]] + s)[1..] == s;
    }
  }

  lemma {:induction false} InsertKeepsOrder(files: seq<File>, k: nat, w: seq<nat>, level: int)
    ensures OfLevel(files, Insert(files, k, w), level) == OfLevel(files, [k] + w, level)
    ensures multiset(Insert(files, k, w)) == multiset([k] + w)
  {
    assert ([k] + w)[1..] == w;
    if !(w == [] || LevelOf(files, k) <= LevelOf(files, w[0])) {
      InsertKeepsOrder(files, k, w[1..], level);
      var s := Insert(files, k, w[1..]);
      assert ([w[0]] + s)[1..] == s && ([k] + w[1..])[1..] == w[1..] && [w[0]] + w[1..] == w;
    }
  }

  /** The files are placed by rising level, and those of one level in the order in which they were queued. */
  lemma {:induction false} StableOrder(files: seq<File>, w: seq<nat>, level: int)
    ensures Ascending(files, StableSort(files, w))
    ensures OfLevel(files, StableSort(files, w), level) == OfLevel(files, w, level)
    ensures multiset(StableSort(files, w)) == multiset(w)
  {
    if w != [] {
      var s := StableSort(files, w[1..]);
      StableOrder(files, w[1..], level);
      InsertAscending(files, w[0], s);
      InsertKeepsOrder(files, w[0], s, level);
      assert ([w[0]] + s)[1..] == s && [w[0]] + w[1..] == w;
    }
  }

  /** The place of a file in the two passes that queue files: the reference image comes first. */
  function Rank(files: seq<File>, ref: seq<File>, j: nat): nat {
    if j >= |files| then 0
    else
      var i := Find(ref, files[j].path);
      if i < |ref| then i else |ref| + j
  }

  predicate InTurn(files: seq<File>, ref: seq<File>, j: nat, k: nat) {
    || LevelOf(files, j) < LevelOf(files, k)
    || (LevelOf(files, j) == LevelOf(files, k) && Rank(files, ref, j) < Rank(files, ref, k))
  }

  predicate AllInTurn(files: seq<File>, ref: seq<File>, w: seq<nat>) {
    forall a, b :: 0 <= a < b < |w| ==> InTurn(files, ref, w[a], w[b])
  }

  predicate FirstInTurn(files: seq<File>, ref: seq<File>, x: nat, w: seq<nat>) {
    forall a :: 0 <= a < |w| ==> InTurn(files, ref, x, w[a])
  }

  predicate RanksOver(files: seq<File>, ref: seq<File>, w: seq<nat>, r: int) {
    forall a :: 0 <= a < |w| ==> r < Rank(files, ref, w[a])
  }

  /** The queue before it is sorted: ranks rise, up to `n`. */
  predicate Ranked(files: seq<File>, ref: seq<File>, w: seq<nat>, n: nat) {
    && (forall a, b :: 0 <= a < b < |w| ==> Rank(files, ref, w[a]) < Rank(files, ref, w[b]))
    && forall a :: 0 <= a < |w| ==> Rank(files, ref, w[a]) < n
  }

  lemma RankedMore(files: seq<File>, ref: seq<File>, w: seq<nat>, n: nat, k: nat)
    requires Ranked(files, ref, w, n) && Rank(files, ref, k) == n
    ensures Ranked(files, ref, w + [k], n + 1)
  {
  }

  lemma TurnFirst(files: seq<File>, ref: seq<File>, x: nat, s: seq<nat>)
    requires FirstInTurn(files, ref, x, s) && AllInTurn(files, ref, s)
    ensures AllInTurn(files, ref, [x] + s)
  {
    var w := [x] + s;
    forall a, b | 0 <= a < b < |w| ensures InTurn(files, ref, w[a], w[b]) {
      assert w[b] == s[b - 1] && (a > 0 ==> w[a] == s[a - 1]);
    }
  }

  lemma {:induction false} InsertFirst(files: seq<File>, ref: seq<File>, k: nat, w: seq<nat>, x: nat)
    requires FirstInTurn(files, ref, x, w) && InTurn(files, ref, x, k)
    ensures FirstInTurn(files, ref, x, Insert(files, k, w))
  {
    if !(w == [] || LevelOf(files, k) <= LevelOf(files, w[0])) {
      InsertFirst(files, ref, k, w[1..], x);
    }
  }

  lemma {:induction false} InsertInTurn(files: seq<File>, ref: seq<File>, k: nat, w: seq<nat>)
    requires AllInTurn(files, ref, w) && RanksOver(files, ref, w, Rank(files, ref, k))
    ensures AllInTurn(files, ref, Insert(files, k, w))
  {
    if w == [] {
    } else if LevelOf(files, k) <= LevelOf(files, w[0]) {
      forall a | 0 <= a < |w| ensures InTurn(files, ref, k, w[a]) {
        assert a > 0 ==> InTurn(files, ref, w[0], w[a]);
      }
      TurnFirst(files, ref, k, w);
    } else {
      InsertInTurn(files, ref, k, w[1..]);
      assert FirstInTurn(files, ref, w[0], w[1..]);
      InsertFirst(files, ref, k, w[1..], w[0]);
      TurnFirst(files, ref, w[0], Insert(files, k, w[1..]));
    }
  }

  lemma {:induction false} InsertRanks(files: seq<File>, ref: seq<File>, k: nat, w: seq<nat>, r: int)
    requires RanksOver(files, ref, w, r) && r < Rank(files, ref, k)
    ensures RanksOver(files, ref, Insert(files, k, w), r)
  {
    if !(w == [] || LevelOf(files, k) <= LevelOf(files, w[0])) {
      InsertRanks(files, ref, k, w[1..], r);
    }
  }

  lemma {:induction false} SortRanks(files: seq<File>, ref: seq<File>, w: seq<nat>, r: int)
    requires RanksOver(files, ref, w, r)
    ensures RanksOver(files, ref, StableSort(files, w), r)
  {
    if w != [] {
      SortRanks(files, ref, w[1..], r);
      InsertRanks(files, ref, w[0], StableSort(files, w[1..]), r);
    }
  }

  /** A queue of rising ranks is sorted by level, and by rank within a level. */
  lemma {:induction false} SortedInTurn(files: seq<File>, ref: seq<File>, w: seq<nat>, n: nat)
    requires Ranked(files, ref, w, n)
    ensures AllInTurn(files, ref, StableSort(files, w))
  {
    if w != [] {
      assert Ranked(files, ref, w[1..], n);
      SortedInTurn(files, ref, w[1..], n);
      assert RanksOver(files, ref, w[1..], Rank(files, ref, w[0]));
      SortRanks(files, ref, w[1..], Rank(files, ref, w[0]));
      InsertInTurn(files, ref, w[0], StableSort(files, w[1..]));
    }
  }

  /** File `j` is queued before file `k`: files of the reference image come first, in its order, then new files. */
  ghost predicate Listed(files: seq<File>, ref: seq<File>, j: nat, k: nat)
    requires j < |files| && k < |files|
  {
    || (exists i ::
          && 0 <= i < |ref| && ref[i].path == files[j].path
          && forall l :: 0 <= l < |ref| && ref[l].path == files[k].path ==> i < l)
    || (j < k && forall i :: 0 <= i < |ref| ==> ref[i].path != files[j].path && ref[i].path != files[k].path)
  }

  /** Files are placed by rising level, and within a level in the order in which they were queued. */
  ghost predicate Sooner(files: seq<File>, ref: seq<File>, j: nat, k: nat) {
    j < |files| && k < |files| && files[j].cell <= files[k].cell
    && (files[j].cell == files[k].cell ==> Listed(files, ref, j, k))
  }

  lemma RankLists(files: seq<File>, ref: seq<File>, j: nat, k: nat)
    requires Distinct(ref) && j < |files| && k < |files| && Rank(files, ref, j) < Rank(files, ref, k)
    ensures Listed(files, ref, j, k)
  {
    var i := Find(ref, files[j].path);
    if i < |ref| {
      forall l | 0 <= l < |ref| && ref[l].path == files[k].path ensures i < l {
        var m := Find(ref, files[k].path);
        assert m == l;
      }
    }
  }

  lemma TurnSooner(v: View, p: Plan, j: nat, k: nat)
    requires PlanOk(p) && Sound(v, p) && j < |p.files| && k < |p.files| && j !in v.placed && k !in v.placed
    requires InTurn(v.files, p.ref, j, k)
    ensures Sooner(p.files, p.ref, j, k)
  {
    assert EntryOk(v, p, j) && EntryOk(v, p, k);
    if v.files[j].cell == v.files[k].cell {
      assert Rank(v.files, p.ref, j) == Rank(p.files, p.ref, j);
      RankLists(p.files, p.ref, j, k);
    }
  }

  /** Whether a file keeps the place that it has in the reference image. */
  ghost predicate Remains(files: seq<File>, ref: seq<File>, j: nat)
    requires j < |files|
  {
    exists i ::
      && 0 <= i < |ref| && ref[i].path == files[j].path
      && Align(files[j].size, 16) <= Align(ref[i].size, 16) && files[j].cell == 0xFFFF_FFFF
  }

  /** Just the files that cannot keep their places are placed anew, in their turn. */
  ghost predicate Turns(files: seq<File>, ref: seq<File>, order: seq<nat>) {
    && (forall j :: 0 <= j < |files| ==> (j in order <==> !Remains(files, ref, j)))
    && forall a, b :: 0 <= a < b < |order| ==> Sooner(files, ref, order[a], order[b]) && order[a] != order[b]
  }

  /** The files that have been placed are those that remain. */
  ghost predicate Settled(p: Plan, placed: set<nat>) {
    forall j :: 0 <= j < |p.files| ==> (j in placed <==> Remains(p.files, p.ref, j))
  }

  lemma VisitedSettled(v: View, p: Plan)
    requires Visited(v, p, |p.ref|)
    ensures Settled(p, v.placed)
  {
    forall j | 0 <= j < |p.files| ensures j in v.placed <==> Remains(p.files, p.ref, j) {
      assert MetOk(v, p, |p.ref|, j);
      if j in v.placed {
        var i :| 0 <= i < |p.ref| && KeepsAt(p.files, p.ref, i, j);
        assert p.ref[i].path == p.files[j].path;
      } else if Remains(p.files, p.ref, j) {
        var i :| 0 <= i < |p.ref| && p.ref[i].path == p.files[j].path
          && Align(p.files[j].size, 16) <= Align(p.ref[i].size, 16) && p.files[j].cell == 0xFFFF_FFFF;
        assert KeepsAt(p.files, p.ref, i, j);
      }
    }
  }

  lemma OnceMember(w: seq<nat>, placed: set<nat>, n: nat, j: nat)
    requires AllOnce(w, placed, n) && j < n
    ensures j in w <==> j !in placed
  {
    assert Tally(w, placed, j) == 1;
    assert j in w <==> j in multiset(w);
  }

  lemma OnceApart(w: seq<nat>, placed: set<nat>, n: nat, a: nat, b: nat)
    requires AllOnce(w, placed, n) && a < b < |w|
    ensures w[a] != w[b]
  {
    var j := w[a];
    assert Tally(w, placed, j) == 1;
    assert w == w[..b] + w[b..];
    assert multiset(w) == multiset(w[..b]) + multiset(w[b..]);
    assert j == w[..b][a] && multiset(w[..b])[j] >= 1;
    assert w[b] == w[b..][0] && multiset(w[b..])[w[b]] >= 1;
  }

  lemma SortTurns(v: View, p: Plan)
    requires Sound(v, p) && AllOnce(v.waiting, v.placed, |p.files|)
    requires Ranked(p.files, p.ref, v.waiting, |p.ref| + |p.files|)
    ensures AllInTurn(v.files, p.ref, StableSort(v.files, v.waiting))
  {
    var w := v.waiting;
    forall a | 0 <= a < |w| ensures Rank(v.files, p.ref, w[a]) == Rank(p.files, p.ref, w[a]) {
      assert EntryOk(v, p, w[a]);
    }
    SortedInTurn(v.files, p.ref, w, |p.ref| + |p.files|);
  }

  lemma TurnsMade(v: View, p: Plan)
    requires PlanOk(p) && Sound(v, p) && AllOnce(v.waiting, v.placed, |p.files|) && Settled(p, v.placed)
    requires AllInTurn(v.files, p.ref, v.waiting)
    ensures Turns(p.files, p.ref, v.waiting)
  {
    var w := v.waiting;
    forall j | 0 <= j < |p.files| ensures j in w <==> !Remains(p.files, p.ref, j) {
      OnceMember(w, v.placed, |p.files|, j);
    }
    forall a, b | 0 <= a < b < |w| ensures Sooner(p.files, p.ref, w[a], w[b]) && w[a] != w[b] {
      OnceApart(w, v.placed, |p.files|, a, b);
      OnceMember(w, v.placed, |p.files|, w[a]);
      OnceMember(w, v.placed, |p.files|, w[b]);
      assert InTurn(v.files, p.ref, w[a], w[b]);
      TurnSooner(v, p, w[a], w[b]);
    }
  }

  // ----- The relocation -----

  /** Before the first reference file only the gap in front of its data is free. */
  lemma Begins(p: Plan, v: View)
    requires PlanOk(p) && v.files == p.files && v.size == 0 && v.waiting == [] && v.placed == {}
    requires Canonical(v.free) && forall x :: Free(v.free, x) <==> p.base <= x < p.lo
    ensures Visited(v, p, 0)
  {
    AddedOnSlots([], v.free, Buffer(p.base, p.lo));
    forall j | 0 <= j < |p.files| ensures MetOk(v, p, 0, j) {
    }
  }

  /** What is queued for the next reference file ranks behind all that wait. */
  lemma RankHere(p: Plan, waiting: seq<nat>, n: nat, k: nat)
    requires PlanOk(p) && n < |p.ref| && Ranked(p.files, p.ref, waiting, n)
    requires k < |p.files| ==> p.files[k].path == p.ref[n].path
    ensures Ranked(p.files, p.ref, waiting, n + 1)
    ensures k < |p.files| ==> Ranked(p.files, p.ref, waiting + [k], n + 1)
  {
    if k < |p.files| {
      assert Find(p.ref, p.files[k].path) == n;
      RankedMore(p.files, p.ref, waiting, n, k);
    }
  }

  lemma RankNew(p: Plan, waiting: seq<nat>, m: nat, found: bool)
    requires m < |p.files| && Ranked(p.files, p.ref, waiting, |p.ref| + m)
    requires found == (Find(p.ref, p.files[m].path) < |p.ref|)
    ensures Ranked(p.files, p.ref, if found then waiting else waiting + [m], |p.ref| + m + 1)
  {
    if !found {
      RankedMore(p.files, p.ref, waiting, |p.ref| + m, m);
    }
  }

  /** The next reference file is matched with file `k`, or with none. */
  lemma Matched(v: View, p: Plan, n: nat, k: nat)
    requires PlanOk(p) && Visited(v, p, n) && n < |p.ref| && k == Find(v.files, p.ref[n].path)
    ensures forall j :: 0 <= j < |p.files| ==> (p.ref[n].path == p.files[j].path <==> j == k)
    ensures k < |p.files| ==> v.files[k] == p.files[k] && k !in v.placed
  {
    forall j | 0 <= j < |p.files| ensures p.ref[n].path == p.files[j].path <==> j == k {
      assert EntryOk(v, p, j);
      if k < |p.files| {
        assert EntryOk(v, p, k);
      }
    }
    if k < |p.files| {
      assert EntryOk(v, p, k) && MetOk(v, p, n, k);
      SeenNext(p.ref, n, p.files[k].path);
    }
  }

  /** What is given up, or left over by a file that stays, was not free before. */
  lemma NotYetFree(v: View, p: Plan, n: nat, r: Buffer)
    requires PlanOk(p) && n < |p.ref| && Accounted(v, p, n)
    requires p.ref[n].cell <= r.top && r.bottom <= p.ref[n].cell + Padded(p.ref[n])
    ensures NoneFree(v.free, r)
  {
    forall x | Holds(r, x) ensures !Free(v.free, x) {
      NextUncovered(v, p, n, x);
    }
  }

  lemma OneMore(waiting: seq<nat>, k: nat, j: nat)
    ensures multiset(waiting + [k])[j] == multiset(waiting)[j] + if j == k then 1 else 0
  {
  }

  lemma DropsNone(p: Plan, n: nat, waiting: seq<nat>)
    requires n < |p.ref| && InRange(waiting, |p.files|)
    requires forall j :: 0 <= j < |p.files| ==> p.ref[n].path != p.files[j].path
    ensures Dropped(p, n, waiting, waiting)
  {
  }

  lemma DropsOne(p: Plan, n: nat, waiting: seq<nat>, k: nat)
    requires n < |p.ref| && InRange(waiting, |p.files|) && k < |p.files|
    requires forall j :: 0 <= j < |p.files| ==> (p.ref[n].path == p.files[j].path <==> j == k)
    requires !Keeps(p.files[k], p.ref[n])
    ensures Dropped(p, n, waiting, waiting + [k])
  {
    var queue: seq<nat> := waiting + [k];
    forall j: nat | 0 <= j < |p.files|
      ensures multiset(queue)[j] == multiset(waiting)[j] + (if p.ref[n].path == p.files[j].path then 1 else 0)
      ensures !KeepsAt(p.files, p.ref, n, j)
    {
      OneMore(waiting, k, j);
    }
  }

  /** What becomes of the queue at the next reference file, which is matched with file `k` or with none. */
  lemma MatchedQueue(v: View, p: Plan, n: nat, k: nat)
    requires PlanOk(p) && Visited(v, p, n) && n < |p.ref| && k == Find(v.files, p.ref[n].path)
    requires Ranked(p.files, p.ref, v.waiting, n)
    ensures Ranked(p.files, p.ref, v.waiting, n + 1) && |v.files| == |p.files|
    ensures k < |p.files| ==> Ranked(p.files, p.ref, v.waiting + [k], n + 1)
    ensures k == |p.files| ==> Dropped(p, n, v.waiting, v.waiting)
    ensures k < |p.files| ==> v.files[k] == p.files[k] && k !in v.placed && p.ref[n].path == p.files[k].path
    ensures k < |p.files| && !Keeps(p.files[k], p.ref[n]) ==> Dropped(p, n, v.waiting, v.waiting + [k])
  {
    Matched(v, p, n, k);
    RankHere(p, v.waiting, n, k);
    if k == |p.files| {
      DropsNone(p, n, v.waiting);
    } else if !Keeps(p.files[k], p.ref[n]) {
      DropsOne(p, n, v.waiting, k);
    }
  }

  /** The second pass has queued the files before `m` that the reference image does not have. */
  ghost predicate QueuedTo(waiting: seq<nat>, placed: set<nat>, p: Plan, m: nat) {
    && (forall j :: 0 <= j < |p.files| ==> QueuedAt(waiting, placed, p, m, j))
    && InRange(waiting, |p.files|)
  }

  ghost predicate QueuedAt(waiting: seq<nat>, placed: set<nat>, p: Plan, m: nat, j: nat)
    requires j < |p.files|
  {
    Tally(waiting, placed, j) == if Seen(p.ref, |p.ref|, p.files[j].path) || j < m then 1 else 0
  }

  lemma MetQueued(v: View, p: Plan)
    requires Visited(v, p, |p.ref|)
    ensures QueuedTo(v.waiting, v.placed, p, 0)
  {
    forall j | 0 <= j < |p.files| ensures QueuedAt(v.waiting, v.placed, p, 0, j) {
      assert MetOk(v, p, |p.ref|, j);
    }
  }

  lemma QueuedNext(waiting: seq<nat>, placed: set<nat>, p: Plan, m: nat, found: bool)
    requires m < |p.files| && QueuedTo(waiting, placed, p, m) && found == Seen(p.ref, |p.ref|, p.files[m].path)
    ensures QueuedTo(if found then waiting else waiting + [m], placed, p, m + 1)
  {
    var w, n := if found then waiting else waiting + [m], m + 1;
    forall j | 0 <= j < |p.files| ensures QueuedAt(w, placed, p, n, j) {
      assert QueuedAt(waiting, placed, p, m, j);
      OneMore(waiting, m, j);
    }
  }

  lemma Requeued(v: View, p: Plan, waiting: seq<nat>)
    requires Ready(v, p)
    ensures Ready(v.(waiting := waiting), p)
  {
    var w := v.(waiting := waiting);
    forall j | 0 <= j < |w.files| ensures EntryOk(w, p, j) {
      assert EntryOk(v, p, j);
    }
    forall i, j | 0 <= i < j < |w.files| ensures PairOk(w, p.base, i, j) {
      assert PairOk(v, p.base, i, j);
    }
  }

  ghost predicate AllOnce(waiting: seq<nat>, placed: set<nat>, n: nat) {
    InRange(waiting, n) && forall j :: 0 <= j < n ==> Tally(waiting, placed, j) == 1
  }

  lemma QueuedOnce(waiting: seq<nat>, placed: set<nat>, p: Plan)
    requires QueuedTo(waiting, placed, p, |p.files|)
    ensures AllOnce(waiting, placed, |p.files|)
  {
    forall j | 0 <= j < |p.files| ensures Tally(waiting, placed, j) == 1 {
      assert QueuedAt(waiting, placed, p, |p.files|, j);
    }
  }

  lemma SortedOnce(files: seq<File>, waiting: seq<nat>, placed: set<nat>, n: nat)
    requires AllOnce(waiting, placed, n)
    ensures AllOnce(StableSort(files, waiting), placed, n)
  {
    var s := StableSort(files, waiting);
    StableOrder(files, waiting, 0);
    forall j | 0 <= j < n ensures Tally(s, placed, j) == 1 {
      assert Tally(waiting, placed, j) == 1;
    }
    forall j | 0 <= j < |s| ensures s[j] < n {
      assert s[j] in multiset(s);
      assert s[j] in waiting;
    }
  }

  lemma NextOnce(w: seq<nat>, placed: set<nat>, n: nat)
    requires w != [] && AllOnce(w, placed, n)
    ensures w[0] < n && w[0] !in placed && AllOnce(w[1..], placed + {w[0]}, n)
  {
    var k, rest, after := w[0], w[1..], placed + {w[0]};
    assert w == [k] + rest;
    assert multiset(w) == multiset{k} + multiset(rest);
    assert Tally(w, placed, k) == 1;
    forall j | 0 <= j < n ensures Tally(rest, after, j) == 1 {
      assert Tally(w, placed, j) == 1;
    }
  }

  /** Each file has an aligned place inside the data, and no two places overlap. */
  predicate PlaceOk(before: File, f: File, size: nat) {
    f.path == before.path && f.size == before.size && 0 <= f.cell && Aligned(f.cell) && f.cell + f.size <= size
  }

  ghost predicate Relocated(before: seq<File>, files: seq<File>, size: nat) {
    && |files| == |before| && (forall j :: 0 <= j < |files| ==> PlaceOk(before[j], files[j], size))
    && forall j, k :: 0 <= j < k < |files| ==> Apart(Slot(0, files[j]), Slot(0, files[k]))
  }

  /** A file that fits where it was, and is not to be moved, has not been moved. */
  ghost predicate StayPut(before: seq<File>, files: seq<File>, ref: seq<File>, base: nat)
    requires |files| == |before|
  {
    forall i, j ::
      (&& 0 <= i < |ref| && 0 <= j < |before| && ref[i].path == before[j].path
       && Align(before[j].size, 16) <= Align(ref[i].size, 16) && before[j].cell == 0xFFFF_FFFF) ==>
      base + files[j].cell == ref[i].cell
  }

  lemma AllPlaced(v: View, p: Plan)
    requires Ready(v, p) && AllOnce([], v.placed, |p.files|)
    ensures Relocated(p.files, v.files, v.size) && StayPut(p.files, v.files, p.ref, p.base)
  {
    forall j | 0 <= j < |v.files| ensures j in v.placed && PlaceOk(p.files[j], v.files[j], v.size) {
      assert EntryOk(v, p, j) && Tally([], v.placed, j) == 1;
    }
    forall j, k | 0 <= j < k < |v.files| ensures Apart(Slot(0, v.files[j]), Slot(0, v.files[k])) {
      assert PairOk(v, p.base, j, k);
    }
    Stayed(v, p);
  }

  lemma Stayed(v: View, p: Plan)
    requires |v.files| == |p.files| && Stay(v, p, |p.ref|)
    ensures StayPut(p.files, v.files, p.ref, p.base)
  {
    forall i, j | 0 <= i < |p.ref| && 0 <= j < |p.files| && p.ref[i].path == p.files[j].path
      && Align(p.files[j].size, 16) <= Align(p.ref[i].size, 16) && p.files[j].cell == 0xFFFF_FFFF
      ensures p.base + v.files[j].cell == p.ref[i].cell
    {
      assert KeepsAt(p.files, p.ref, i, j);
    }
  }

  /** What the new image sees of the reference image. */
  function Left(ref: seq<File>, refBase: nat, base: nat): seq<File> {
    if base > refBase then TrimAll(ref, base) else ref
  }

  class RomFs {
    /** The offset of the file data in the new image. */
    const base: nat
    const space: Space
    var travel: seq<File>
    var level3Size: nat
    var waiting: seq<nat>
    ghost var placed: set<nat>

    ghost function State(): View
      reads this, space
    {
      View(space.buffers, travel, level3Size, waiting, placed)
    }

    constructor (base: nat, files: seq<File>)
      ensures this.base == base && travel == files && fresh(space) && space.Valid() && space.buffers == []
    {
      this.base := base;
      travel, level3Size, waiting, placed := files, 0, [], {};
      space := new Space();
    }

    method Release(offset: int, size: nat)
      requires space.Valid() && NoneFree(space.buffers, Buffer(offset, offset + size))
      modifies space
      ensures space.Valid() && Added(old(space.buffers), space.buffers, Buffer(offset, offset + size))
    {
      if size > 0 {
        DisjointAccepted(space.buffers, Buffer(offset, offset + size));
      }
      var _ := space.AddSpace(offset, size);
    }

    /** One reference file: its range is given up, or the file of the same name stays there. */
    method VisitFile(r: File, ghost p: Plan, ghost n: nat)
      requires PlanOk(p) && Visited(State(), p, n) && n < |p.ref| && r == p.ref[n] && p.base == base
      requires Ranked(p.files, p.ref, waiting, n)
      modifies this, space
      ensures Visited(State(), p, n + 1) && Ranked(p.files, p.ref, waiting, n + 1)
    {
      var k := Find(travel, r.path);
      MatchedQueue(State(), p, n, k);
      if k == |travel| {
        GiveUp(r, p, n, waiting);
      } else if Padded(travel[k]) > Padded(r) || travel[k].cell != NO_LEVEL {
        GiveUp(r, p, n, waiting + [k]);
        waiting := waiting + [k];
      } else {
        KeepFile(r, k, p, n);
      }
    }

    /** The range of a reference file becomes free. */
    method GiveUp(r: File, ghost p: Plan, ghost n: nat, ghost queue: seq<nat>)
      requires PlanOk(p) && Visited(State(), p, n) && n < |p.ref| && r == p.ref[n]
      requires Dropped(p, n, waiting, queue)
      modifies space
      ensures Visited(State().(waiting := queue), p, n + 1)
    {
      ghost var v := State();
      assert Within(r, p.lo, p.hi);
      NotYetFree(v, p, n, Buffer(r.cell, r.cell + Padded(r)));
      Release(r.cell, Padded(r));
      GivenUp(v, p, n, space.buffers, queue);
    }

    method KeepFile(r: File, k: nat, ghost p: Plan, ghost n: nat)
      requires PlanOk(p) && Visited(State(), p, n) && n < |p.ref| && r == p.ref[n] && p.base == base
      requires k < |travel| == |p.files| && KeepsAt(p.files, p.ref, n, k) && travel[k] == p.files[k] && k !in placed
      modifies this, space
      ensures Visited(State(), p, n + 1) && waiting == old(waiting)
    {
      ghost var v := State();
      assert Within(r, p.lo, p.hi);
      var f := travel[k];
      AlignShift(r.cell, f.size);
      NotYetFree(v, p, n, Rest(f, r));
      Release(Align(r.cell + f.size, FILE_ALIGN), Padded(r) - Padded(f));
      var cell := r.cell - base;
      travel := travel[k := f.(cell := cell)];
      if cell + f.size > level3Size {
        level3Size := cell + f.size;
      }
      placed := placed + {k};
      assert State() == Placing(v, k, cell, space.buffers, level3Size);
      StaysHere(v, p, n, k, space.buffers, level3Size);
    }

    /** The range behind the last file that stays is withdrawn. */
    method CutTail(refEnd: nat, ghost p: Plan)
      requires PlanOk(p) && Visited(State(), p, |p.ref|) && p.base == base
      requires p.hi == Max(base, Align(refEnd, FILE_ALIGN))
      modifies space
      ensures Ready(State(), p) && Holed(space.buffers, travel, placed, base, level3Size)
    {
      ghost var v := State();
      if level3Size == 0 {
        space.Clear();
        NothingLeft(v, p, space.buffers);
        NoHoles(v, p, space.buffers);
      } else {
        TailFree(v, p);
        var end := Align(base + level3Size, FILE_ALIGN);
        var _ := space.SubSpace(end, Align(refEnd, FILE_ALIGN) - end);
        TailCut(v, p, space.buffers);
        HolesLeft(v, p, space.buffers);
      }
    }

    /** The files that the reference image does not have wait as well. */
    method QueueNew(ref: seq<File>, ghost p: Plan)
      requires Ready(State(), p) && ref == p.ref && QueuedTo(waiting, placed, p, 0)
      requires Ranked(p.files, p.ref, waiting, |ref|)
      modifies this`waiting
      ensures Ready(State(), p) && QueuedTo(waiting, placed, p, |p.files|)
      ensures Ranked(p.files, p.ref, waiting, |ref| + |p.files|)
    {
      ghost var v := State();
      var m: nat := 0;
      while m < |travel|
        invariant m <= |travel| && QueuedTo(waiting, placed, p, m) && Ranked(p.files, p.ref, waiting, |ref| + m)
      {
        assert EntryOk(v, p, m);
        QueueIfNew(ref, m, p);
        m := m + 1;
      }
      Requeued(v, p, waiting);
    }

    method QueueIfNew(ref: seq<File>, m: nat, ghost p: Plan)
      requires ref == p.ref && m < |travel| == |p.files| && travel[m].path == p.files[m].path
      requires QueuedTo(waiting, placed, p, m) && Ranked(p.files, p.ref, waiting, |ref| + m)
      modifies this`waiting
      ensures QueuedTo(waiting, placed, p, m + 1) && Ranked(p.files, p.ref, waiting, |ref| + m + 1)
    {
      var k := Find(ref, travel[m].path);
      if k < |ref| {
        assert ref[k].path == p.files[m].path;
      }
      QueuedNext(waiting, placed, p, m, k < |ref|);
      RankNew(p, waiting, m, k < |ref|);
      if k == |ref| {
        waiting := waiting + [m];
      }
    }

    ghost function Now(): Stage
      reads this, space
    {
      Stage(space.buffers, level3Size)
    }

    /** One file that waits goes into the lowest hole that is long enough, or to the end. */
    method PlaceFile(k: nat, ghost p: Plan)
      requires PlanOk(p) && Ready(State(), p) && k < |travel| && k !in placed && p.base == base
      modifies this, space
      ensures Ready(State(), p) && placed == old(placed) + {k} && waiting == old(waiting)
      ensures |travel| == |old(travel)| && travel == old(travel)[k := travel[k]]
      ensures FirstFit(old(Now()), Now(), base, p.files[k], travel[k].cell)
    {
      ghost var v := State();
      ghost var s := Now();
      var f := travel[k];
      assert EntryOk(v, p, k);
      TopsPositive(v, base);
      var offset := space.GetSpace(Padded(f));
      if offset < 0 {
        PutAtEnd(k, f, p, v);
        FitsEnd(s, Now(), base, p.files[k], travel[k].cell);
      } else {
        PutInHole(k, f, offset, p, v);
        FitsHole(s, Now(), base, p.files[k], offset);
      }
    }

    method PutAtEnd(k: nat, f: File, ghost p: Plan, ghost v: View)
      requires v == State() && PlanOk(p) && Ready(v, p) && k < |travel| && k !in placed && p.base == base
      requires f == travel[k]
      modifies this
      ensures Ready(State(), p) && placed == old(placed) + {k} && waiting == old(waiting)
      ensures |travel| == |old(travel)| && travel == old(travel)[k := travel[k]]
      ensures travel[k].cell == Align(old(level3Size), 16) && level3Size == travel[k].cell + f.size
      ensures space.buffers == old(space.buffers)
    {
      AtEnd(v, p, k);
      var cell := Align(level3Size, FILE_ALIGN);
      travel := travel[k := f.(cell := cell)];
      level3Size := cell + f.size;
      placed := placed + {k};
      assert State() == Placing(v, k, cell, v.free, cell + f.size);
    }

    method PutInHole(k: nat, f: File, offset: nat, ghost p: Plan, ghost v: View)
      requires v == State() && PlanOk(p) && Ready(v, p) && k < |travel| && k !in placed && p.base == base
      requires f == travel[k]
      requires Padded(f) > 0 ==>
        RunAt(v.free, offset, Padded(f)) && forall x :: RunAt(v.free, x, Padded(f)) ==> offset <= x
      requires Padded(f) == 0 ==> v.free != [] && offset == v.free[0].top
      modifies this, space
      ensures Ready(State(), p) && placed == old(placed) + {k} && waiting == old(waiting)
      ensures |travel| == |old(travel)| && travel == old(travel)[k := travel[k]]
      ensures travel[k].cell == offset - base && level3Size == old(level3Size)
      ensures Removed(v.free, space.buffers, Buffer(offset, offset + Padded(f)))
    {
      FoundHole(v.free, offset, Padded(f));
      travel := travel[k := f.(cell := offset - base)];
      var _ := space.SubSpace(offset, Padded(f));
      placed := placed + {k};
      IntoHole(v, p, k, offset, space.buffers);
      assert State() == Placing(v, k, offset - base, space.buffers, v.size);
    }

    /** The files that wait, by rising ignore level. */
    method PlaceAll(ghost p: Plan) returns (ghost order: seq<nat>, ghost run: seq<Stage>)
      requires PlanOk(p) && Ready(State(), p) && AllOnce(waiting, placed, |p.files|) && p.base == base
      requires Settled(p, placed) && Ranked(p.files, p.ref, waiting, |p.ref| + |p.files|)
      modifies this, space
      ensures Relocated(p.files, travel, level3Size) && StayPut(p.files, travel, p.ref, base)
      ensures Turns(p.files, p.ref, order) && Fitted(order, run, |order|, base, p.files, travel)
      ensures run[0] == old(Now()) && run[|order|] == Now()
      ensures forall j :: 0 <= j < |travel| && Remains(p.files, p.ref, j) ==> travel[j] == old(travel)[j]
    {
      ghost var v := State();
      SortedOnce(travel, waiting, placed, |p.files|);
      SortTurns(v, p);
      Requeued(v, p, StableSort(travel, waiting));
      waiting := StableSort(travel, waiting);
      TurnsMade(State(), p);
      order := waiting;
      run := PlaceQueue(p);
    }

    method PlaceQueue(ghost p: Plan) returns (ghost run: seq<Stage>)
      requires PlanOk(p) && Ready(State(), p) && AllOnce(waiting, placed, |p.files|) && p.base == base
      requires forall a, b :: 0 <= a < b < |waiting| ==> waiting[a] != waiting[b]
      modifies this, space
      ensures Relocated(p.files, travel, level3Size) && StayPut(p.files, travel, p.ref, base)
      ensures waiting == old(waiting) && Fitted(waiting, run, |waiting|, base, p.files, travel)
      ensures run[0] == old(Now()) && run[|waiting|] == Now()
      ensures |travel| == |old(travel)|
      ensures forall j :: 0 <= j < |travel| && j in old(placed) ==> travel[j] == old(travel)[j]
    {
      ghost var kept := placed;
      var n := 0;
      run := [Now()];
      assert waiting[0..] == waiting;
      while n < |waiting|
        invariant n <= |waiting| && Ready(State(), p) && AllOnce(waiting[n..], placed, |p.files|)
        invariant waiting == old(waiting) && |travel| == |old(travel)| && kept <= placed
        invariant Fitted(waiting, run, n, base, p.files, travel) && run[0] == old(Now()) && run[n] == Now()
        invariant forall j :: 0 <= j < |travel| && j in kept ==> travel[j] == old(travel)[j]
      {
        NextOnce(waiting[n..], placed, |p.files|);
        assert waiting[n..][1..] == waiting[n + 1..];
        ghost var files := travel;
        PlaceFile(waiting[n], p);
        FittedMore(waiting, run, n, base, p.files, files, travel, Now());
        run := run + [Now()];
        n := n + 1;
      }
      assert waiting[n..] == [];
      AllPlaced(State(), p);
    }

    /** The first pass, over the reference image. */
    method VisitAll(ref: seq<File>, ghost p: Plan)
      requires PlanOk(p) && Visited(State(), p, 0) && ref == p.ref && p.base == base
      requires Ranked(p.files, p.ref, waiting, 0)
      modifies this, space
      ensures Visited(State(), p, |ref|) && Ranked(p.files, p.ref, waiting, |ref|)
    {
      for n := 0 to |ref|
        invariant Visited(State(), p, n) && Ranked(p.files, p.ref, waiting, n)
      {
        VisitFile(ref[n], p, n);
      }
    }

    /** remap, for a reference image whose files are aligned and lie back to back: afterwards every file has an
        aligned place inside the data, no two places overlap, and files that may stay have stayed. The others have gone
        one by one, in `order`, into the lowest hole or to the end: `run` holds the free space and the size between
        them. */
    method Remap(ref: seq<File>, refBase: nat, refEnd: nat) returns (ghost order: seq<nat>, ghost run: seq<Stage>)
      requires space.Valid() && space.buffers == [] && Distinct(travel) && Distinct(ref)
      requires Aligned(base) && Aligned(refBase) && Packed(ref, refBase, Align(refEnd, FILE_ALIGN))
      modifies this, space
      ensures Relocated(old(travel), travel, level3Size)
      ensures StayPut(old(travel), travel, Left(ref, refBase, base), base)
      ensures Turns(old(travel), Left(ref, refBase, base), order)
      ensures Fitted(order, run, |order|, base, old(travel), travel) && run[|order|] == Now()
      ensures Opening(run[0], base, old(travel), travel, Left(ref, refBase, base))
    {
      ghost var lo, hi := Max(base, refBase), Max(base, Align(refEnd, FILE_ALIGN));
      ghost var p := Plan(travel, Left(ref, refBase, base), base, lo, hi);
      PlanMade(p, ref, refBase, refEnd);
      var left := ref;
      if base > refBase {
        left := TrimAll(ref, base);
      } else if base < refBase {
        Release(base, refBase - base);
      }
      level3Size, waiting, placed := 0, [], {};
      Begins(p, State());
      VisitAll(left, p);
      MetQueued(State(), p);
      VisitedSettled(State(), p);
      CutTail(refEnd, p);
      order, run := PlaceRest(left, p);
    }

    method PlaceRest(ref: seq<File>, ghost p: Plan) returns (ghost order: seq<nat>, ghost run: seq<Stage>)
      requires PlanOk(p) && Ready(State(), p) && ref == p.ref && QueuedTo(waiting, placed, p, 0) && p.base == base
      requires Settled(p, placed) && Ranked(p.files, p.ref, waiting, |ref|)
      requires Holed(space.buffers, travel, placed, base, level3Size)
      modifies this, space
      ensures Relocated(p.files, travel, level3Size) && StayPut(p.files, travel, p.ref, base)
      ensures Turns(p.files, p.ref, order) && Fitted(order, run, |order|, base, p.files, travel)
      ensures run[|order|] == Now() && Opening(run[0], base, p.files, travel, p.ref)
    {
      ghost var s, files, kept := Now(), travel, placed;
      QueueNew(ref, p);
      QueuedOnce(waiting, placed, p);
      order, run := PlaceAll(p);
      Opened(s, p, files, travel, kept);
    }
  }

  /** At the start just what lies before the end of the files that remain, and in none of them, is free. */
  ghost predicate Opening(s: Stage, base: nat, before: seq<File>, files: seq<File>, ref: seq<File>)
    requires |files| == |before|
  {
    && (forall x :: Free(s.free, x) <==>
      base <= x < base + Align(s.size, 16) && !RemainsOver(base, before, files, ref, x))
    && (forall j :: 0 <= j < |files| && Remains(before, ref, j) ==> files[j].cell + files[j].size <= s.size)
    && (s.size == 0
        || exists j :: 0 <= j < |files| && Remains(before, ref, j) && files[j].cell + files[j].size == s.size)
  }

  ghost predicate RemainsOver(base: nat, before: seq<File>, files: seq<File>, ref: seq<File>, x: int)
    requires |files| == |before|
  {
    exists j ::
      && 0 <= j < |files| && Remains(before, ref, j)
      && base + files[j].cell <= x < base + files[j].cell + Align(files[j].size, 16)
  }

  lemma Opened(s: Stage, p: Plan, was: seq<File>, files: seq<File>, placed: set<nat>)
    requires |was| == |p.files| == |files| && Settled(p, placed) && Holed(s.free, was, placed, p.base, s.size)
    requires forall j :: 0 <= j < |files| && Remains(p.files, p.ref, j) ==> files[j] == was[j]
    ensures Opening(s, p.base, p.files, files, p.ref)
  {
    forall x ensures RemainsOver(p.base, p.files, files, p.ref, x) <==> TakenBy(was, placed, p.base, x) {
      SameOver(p, was, files, placed, x);
    }
  }

  lemma SameOver(p: Plan, was: seq<File>, files: seq<File>, placed: set<nat>, x: int)
    requires |was| == |p.files| == |files| && Settled(p, placed)
    requires forall j :: 0 <= j < |files| && Remains(p.files, p.ref, j) ==> files[j] == was[j]
    ensures RemainsOver(p.base, p.files, files, p.ref, x) <==> TakenBy(was, placed, p.base, x)
  {
    if TakenBy(was, placed, p.base, x) {
      var j :| 0 <= j < |was| && j in placed && Holds(Slot(p.base, was[j]), x);
      assert Remains(p.files, p.ref, j) && files[j] == was[j];
    }
    if RemainsOver(p.base, p.files, files, p.ref, x) {
      var j :| 0 <= j < |files| && Remains(p.files, p.ref, j)
        && p.base + files[j].cell <= x < p.base + files[j].cell + Align(files[j].size, 16);
      assert j in placed && Holds(Slot(p.base, was[j]), x);
    }
  }

  lemma PlanMade(p: Plan, ref: seq<File>, refBase: nat, refEnd: nat)
    requires Distinct(p.files) && Distinct(ref) && Aligned(p.base) && Aligned(refBase)
    requires Packed(ref, refBase, Align(refEnd, FILE_ALIGN)) && p.ref == Left(ref, refBase, p.base)
    requires p.lo == Max(p.base, refBase) && p.hi == Max(p.base, Align(refEnd, FILE_ALIGN))
    ensures PlanOk(p)
  {
    if p.base > refBase {
      TrimPacked(ref, p.base, refBase, Align(refEnd, FILE_ALIGN));
    }
  }
}
