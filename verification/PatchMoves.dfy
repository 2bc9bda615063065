/** The order in which the parts of a file are handled (src/patch.cpp, createNcchPatchFile and
    createNcsdPatchFile): no part is moved over one that still waits. */
module PatchMoves {

  datatype Part = Part(offset: nat, size: nat)

  function End(p: Part): nat { p.offset + p.size }

  /** Parts follow each other in the file. */
  predicate Ordered(l: seq<Part>) { forall i, j :: 0 <= i < j < |l| ==> End(l[i]) <= l[j].offset }

  predicate Apart(p: Part, q: Part) { End(p) <= q.offset || End(q) <= p.offset }

  // ----- Absent parts -----

  /** An absent part is recorded with offset and size 0. */
  predicate Absent(p: Part) { p == Part(0, 0) }

  /** The parts that are there follow each other. */
  predicate PresentOrdered(l: seq<Part>) {
    forall i, j :: 0 <= i < j < |l| && !Absent(l[i]) && !Absent(l[j]) ==> End(l[i]) <= l[j].offset
  }

  /** One past the last part that is there. */
  function PresentEnd(l: seq<Part>): (n: nat)
    ensures n <= |l| && (n > 0 ==> !Absent(l[n - 1])) && forall i :: n <= i < |l| ==> Absent(l[i])
  {
    if l == [] then 0 else if !Absent(l[|l| - 1]) then |l| else PresentEnd(l[..|l| - 1])
  }

  /** The first part behind `i` that is there. */
  predicate NextPresent(parts: seq<Part>, i: int, j: int) {
    0 <= i < j < |parts| && !Absent(parts[j]) && forall m :: i < m < j ==> Absent(parts[m])
  }

  /** From part `i` on, absent parts have the offset of the first part behind them that is there. */
  ghost predicate Borrowed(l: seq<Part>, parts: seq<Part>, i: int)
    requires |l| == |parts|
  {
    forall k, j :: i <= k && NextPresent(parts, k, j) && Absent(parts[k]) ==> l[k] == Part(parts[j].offset, 0)
  }

  lemma BorrowedMore(l: seq<Part>, parts: seq<Part>, i: nat, m: seq<Part>)
    requires |l| == |parts| && i + 1 < |l| && Borrowed(l, parts, i + 1) && FilledFrom(l, parts) && l[i] == parts[i]
    requires m == l[i := if Absent(l[i]) then Part(l[i + 1].offset, 0) else l[i]]
    ensures Borrowed(m, parts, i)
  {
    forall k, j | i <= k && NextPresent(parts, k, j) && Absent(parts[k]) ensures m[k] == Part(parts[j].offset, 0) {
      if k == i && j > i + 1 {
        assert NextPresent(parts, i + 1, j) && Absent(parts[i + 1]);
      }
    }
  }

  /** The first `n` parts follow each other. */
  predicate OrderedTo(l: seq<Part>, n: nat)
    requires n <= |l|
  {
    forall i, j :: 0 <= i < j < n ==> End(l[i]) <= l[j].offset
  }

  /** Only offsets of absent parts have been filled in. */
  predicate FilledFrom(l: seq<Part>, parts: seq<Part>) {
    && |l| == |parts|
    && forall i :: 0 <= i < |l| ==> l[i].size == parts[i].size && (!Absent(parts[i]) ==> l[i] == parts[i])
  }

  /** Parts from `i` on follow each other, up to `end`, and come after every part before them that is there. */
  ghost predicate OrderedFrom(l: seq<Part>, parts: seq<Part>, i: nat, end: nat)
    requires end <= |l| == |parts|
  {
    && (forall j, k :: i <= j < k < end ==> End(l[j]) <= l[k].offset)
    && forall j, k :: 0 <= j < i <= k < end && !Absent(parts[j]) ==> End(parts[j]) <= l[k].offset
  }

  lemma NextBefore(l: seq<Part>, parts: seq<Part>, i: nat, end: nat, k: nat)
    requires |l| == |parts| && i + 1 < |l| && end <= |l| && OrderedFrom(l, parts, i + 1, end)
    requires PresentOrdered(parts) && l[i] == parts[i] && i < k < end
    ensures End(if Absent(l[i]) then Part(l[i + 1].offset, 0) else l[i]) <= l[k].offset
  {
    if Absent(l[i]) && k > i + 1 {
      assert End(l[i + 1]) <= l[k].offset;
    }
  }

  lemma NextAfter(l: seq<Part>, parts: seq<Part>, i: nat, end: nat, j: nat)
    requires |l| == |parts| && i + 1 < |l| && end == PresentEnd(parts) && OrderedFrom(l, parts, i + 1, end)
    requires PresentOrdered(parts) && l[i] == parts[i] && j < i < end && !Absent(parts[j])
    ensures End(parts[j]) <= (if Absent(l[i]) then Part(l[i + 1].offset, 0) else l[i]).offset
  {
    if Absent(parts[i]) {
      assert i + 1 < end;
    }
  }

  lemma NextStep(l: seq<Part>, parts: seq<Part>, i: nat, end: nat, m: seq<Part>)
    requires PresentOrdered(parts) && |l| == |parts| && i + 1 < |l| && end == PresentEnd(parts)
    requires OrderedFrom(l, parts, i + 1, end) && l[i] == parts[i]
    requires m == l[i := if Absent(l[i]) then Part(l[i + 1].offset, 0) else l[i]]
    ensures OrderedFrom(m, parts, i, end)
  {
    forall j, k | i <= j < k < end ensures End(m[j]) <= m[k].offset {
      if j == i {
        NextBefore(l, parts, i, end, k);
      }
    }
    forall j, k | 0 <= j < i <= k < end && !Absent(parts[j]) ensures End(parts[j]) <= m[k].offset {
      if k == i {
        NextAfter(l, parts, i, end, j);
      }
    }
  }

  lemma StillAbsent(l: seq<Part>, i: nat, end: nat, m: seq<Part>)
    requires i + 1 < |l| && m == l[i := if Absent(l[i]) then Part(l[i + 1].offset, 0) else l[i]]
    requires forall k :: end <= k < |l| ==> Absent(l[k])
    ensures forall k :: end <= k < |m| ==> Absent(m[k])
  {
    forall k | end <= k < |m| ensures Absent(m[k]) {
      if k == i {
        assert Absent(l[i + 1]);
      }
    }
  }

  /** Parts from `i` on have been dealt with. */
  ghost predicate Borrowing(l: seq<Part>, parts: seq<Part>, i: nat, end: nat) {
    && FilledFrom(l, parts) && i <= |l| && l[..i] == parts[..i] && end <= |l| && OrderedFrom(l, parts, i, end)
    && (forall k :: end <= k < |l| ==> Absent(l[k])) && Borrowed(l, parts, i)
  }

  lemma BorrowStep(l: seq<Part>, parts: seq<Part>, i: nat, end: nat, m: seq<Part>)
    requires PresentOrdered(parts) && i + 1 < |l| && end == PresentEnd(parts) && Borrowing(l, parts, i + 1, end)
    requires m == l[i := if Absent(l[i]) then Part(l[i + 1].offset, 0) else l[i]]
    ensures Borrowing(m, parts, i, end)
  {
    assert l[i] == l[..i + 1][i] == parts[i];
    NextStep(l, parts, i, end, m);
    BorrowedMore(l, parts, i, m);
    StillAbsent(l, i, end, m);
    assert m[..i] == l[..i + 1][..i] == parts[..i + 1][..i] == parts[..i];
  }

  /** From the last part but one to the first, absent parts take the offset of the next part. */
  method BorrowNext(parts: seq<Part>) returns (l: seq<Part>)
    requires PresentOrdered(parts) && parts != []
    ensures FilledFrom(l, parts) && OrderedTo(l, PresentEnd(parts)) && Borrowed(l, parts, 0)
    ensures forall i :: PresentEnd(parts) <= i < |l| ==> Absent(l[i])
  {
    l := parts;
    var i := |l| - 1;
    while i > 0
      invariant 0 <= i < |l| && Borrowing(l, parts, i, PresentEnd(parts))
    {
      i := i - 1;
      BorrowStep(l, parts, i, PresentEnd(parts), l[i := if Absent(l[i]) then Part(l[i + 1].offset, 0) else l[i]]);
      if l[i] == Part(0, 0) {
        l := l[i := Part(l[i + 1].offset, 0)];
      } else {
        assert l == l[i := l[i]];
      }
    }
  }

  lemma PreviousStep(l: seq<Part>, k: nat, end: nat, m: seq<Part>)
    requires 1 <= k < |l| && end <= |l| && OrderedTo(l, if k < end then end else k)
    requires m == if Absent(l[k]) then l[k := Part(End(l[k - 1]), 0)] else l
    requires k >= end ==> Absent(l[k])
    ensures OrderedTo(m, if k + 1 < end then end else k + 1) && (k < end ==> m == l)
  {
    if k < end {
      assert m == l;
    }
  }

  /** From the second part to the last, parts that are still absent take the end of the part before. */
  /** The first `n` parts: the front has stayed, and behind it they stand empty at its end. */
  predicate Trailing(l: seq<Part>, parts: seq<Part>, end: nat, n: nat)
    requires n <= |l| == |parts| && end <= |parts|
  {
    && (forall i :: 0 <= i < n && i < end ==> l[i] == parts[i])
    && forall i :: end <= i < n ==> l[i] == Part(if end == 0 then 0 else End(parts[end - 1]), 0)
  }

  /** Only absent parts come behind part `j`. */
  predicate LastPresent(parts: seq<Part>, j: int) {
    0 <= j < |parts| && !Absent(parts[j]) && forall m :: j < m < |parts| ==> Absent(parts[m])
  }

  lemma TrailingStep(l: seq<Part>, parts: seq<Part>, k: nat, end: nat, m: seq<Part>)
    requires 1 <= k < |l| == |parts| && end <= |l| && Trailing(l, parts, end, k) && l[k] == parts[k]
    requires m == if Absent(l[k]) then l[k := Part(End(l[k - 1]), 0)] else l
    requires k < end ==> m == l
    requires forall i :: end <= i < |parts| ==> Absent(parts[i])
    ensures Trailing(m, parts, end, k + 1)
  {
    assert k >= end && k - 1 < end ==> l[k - 1] == parts[end - 1];
  }

  /** The parts before `k` have been dealt with. */
  predicate Backfilled(l: seq<Part>, parts: seq<Part>, k: nat, end: nat) {
    && 1 <= k <= |l| == |parts| && end <= |parts| && FilledFrom(l, parts)
    && OrderedTo(l, if k < end then end else k) && l[k..] == parts[k..] && Trailing(l, parts, end, k)
  }

  lemma BackfillStep(l: seq<Part>, parts: seq<Part>, k: nat, end: nat, m: seq<Part>)
    requires Backfilled(l, parts, k, end) && k < |l| && forall i :: end <= i < |parts| ==> Absent(parts[i])
    requires m == if Absent(l[k]) then l[k := Part(End(l[k - 1]), 0)] else l
    ensures Backfilled(m, parts, k + 1, end)
  {
    assert l[k] == l[k..][0] == parts[k..][0] == parts[k];
    PreviousStep(l, k, end, m);
    TrailingStep(l, parts, k, end, m);
    assert m[k + 1..] == l[k..][1..] == parts[k..][1..] == parts[k + 1..];
  }

  method BorrowPrevious(parts: seq<Part>, ghost end: nat) returns (l: seq<Part>)
    requires end <= |parts| && OrderedTo(parts, end) && forall i :: end <= i < |parts| ==> Absent(parts[i])
    requires parts != []
    ensures FilledFrom(l, parts) && Ordered(l) && Trailing(l, parts, end, |l|)
  {
    l := parts;
    var k := 1;
    while k < |l|
      invariant Backfilled(l, parts, k, end)
    {
      ghost var before := l;
      if l[k] == Part(0, 0) {
        l := l[k := Part(End(l[k - 1]), 0)];
      }
      BackfillStep(before, parts, k, end, l);
      k := k + 1;
    }
  }

  /** The end of Analyze (src/ncch.cpp, src/ncsd.cpp): absent parts get the offset of the next part, trailing
      ones the end of the part before, and then all the parts follow each other. */
  method PlaceAbsent(parts: seq<Part>) returns (l: seq<Part>)
    requires PresentOrdered(parts) && parts != []
    ensures FilledFrom(l, parts) && Ordered(l)
    ensures forall i, j :: NextPresent(parts, i, j) && Absent(parts[i]) ==> l[i].offset == parts[j].offset
    ensures forall i, j :: LastPresent(parts, j) && j < i < |parts| ==> l[i].offset == End(parts[j])
  {
    ghost var n := PresentEnd(parts);
    l := BorrowNext(parts);
    ghost var front := l;
    l := BorrowPrevious(l, n);
    forall i, j | NextPresent(parts, i, j) && Absent(parts[i]) ensures l[i].offset == parts[j].offset {
      assert front[i] == Part(parts[j].offset, 0) && i < n;
    }
  }

  // ----- The order of the parts -----

  /** A part that moves down waits until the part before it has been handled. */
  predicate Deferred(a: seq<Part>, b: seq<Part>, done: seq<bool>, i: nat)
    requires |a| == |b| == |done| && i < |a|
  {
    i != 0 && b[i].offset < a[i].offset && !done[i - 1]
  }

  /** The part that the loop handles next: the last one that neither is done nor has to wait. */
  predicate IsNext(a: seq<Part>, b: seq<Part>, done: seq<bool>, i: nat)
    requires |a| == |b| == |done|
  {
    && i < |a| && !done[i] && !Deferred(a, b, done, i)
    && forall j :: i < j < |a| ==> done[j] || Deferred(a, b, done, j)
  }

  /** A part that moved down was handled after the part before it. */
  predicate DoneInOrder(a: seq<Part>, b: seq<Part>, done: seq<bool>)
    requires |a| == |b| == |done|
  {
    forall k :: 0 < k < |a| && done[k] && b[k].offset < a[k].offset ==> done[k - 1]
  }

  lemma DoneStaysInOrder(a: seq<Part>, b: seq<Part>, done: seq<bool>, i: nat)
    requires |a| == |b| == |done| && DoneInOrder(a, b, done) && IsNext(a, b, done, i)
    ensures DoneInOrder(a, b, done[i := true])
  {
  }

  /** Every part behind `i` up to `j` moves down. */
  predicate AllDown(a: seq<Part>, b: seq<Part>, i: nat, j: nat)
    requires |a| == |b| && j < |a|
  {
    forall m :: i < m <= j ==> b[m].offset < a[m].offset
  }

  /** The order does not depend on the run: when a part is handled, a later one still waits exactly if all the
      parts from the next one up to it move down. */
  lemma {:induction false} LaterWaits(a: seq<Part>, b: seq<Part>, done: seq<bool>, i: nat, j: nat)
    requires |a| == |b| == |done| && DoneInOrder(a, b, done) && IsNext(a, b, done, i) && i <= j < |a|
    ensures !done[j] <==> AllDown(a, b, i, j)
    decreases j
  {
    if j > i {
      LaterWaits(a, b, done, i, j - 1);
      assert AllDown(a, b, i, j) <==> AllDown(a, b, i, j - 1) && b[j].offset < a[j].offset;
      assert done[j] || Deferred(a, b, done, j);
    }
  }

  /** If a later part still waits, so does the one right after the next part. */
  lemma {:induction false} WaitersAbove(a: seq<Part>, b: seq<Part>, done: seq<bool>, i: nat, j: nat)
    requires |a| == |b| == |done| && IsNext(a, b, done, i) && i < j < |a| && !done[j]
    ensures b[i + 1].offset < a[i + 1].offset
    decreases j
  {
    assert Deferred(a, b, done, j);
    if j > i + 1 {
      WaitersAbove(a, b, done, i, j - 1);
    }
  }

  /** If an earlier part still waits, the parts from some later one on have not moved below its end. */
  lemma {:induction false} WaitersBelow(a: seq<Part>, b: seq<Part>, done: seq<bool>, i: nat, j: nat)
    requires |a| == |b| == |done| && Ordered(a) && Ordered(b) && DoneInOrder(a, b, done) && IsNext(a, b, done, i)
    requires j < i && !done[j]
    ensures End(a[j]) <= b[i].offset
    decreases i - j
  {
    if j + 1 < i && !done[j + 1] {
      WaitersBelow(a, b, done, i, j + 1);
      assert End(a[j]) <= a[j + 1].offset;
    } else {
      assert a[j + 1].offset <= b[j + 1].offset;
      assert End(a[j]) <= a[j + 1].offset;
      assert j + 1 == i || End(b[j + 1]) <= b[i].offset;
    }
  }

  /** Safety of the order: where the next part goes, no other waiting part has its old bytes. */
  lemma NextIsSafe(a: seq<Part>, b: seq<Part>, done: seq<bool>, i: nat, j: nat)
    requires |a| == |b| == |done| && Ordered(a) && Ordered(b) && DoneInOrder(a, b, done) && IsNext(a, b, done, i)
    requires j < |a| && j != i && !done[j]
    ensures Apart(b[i], a[j])
  {
    if j < i {
      WaitersBelow(a, b, done, i, j);
    } else {
      WaitersAbove(a, b, done, i, j);
      assert End(b[i]) <= b[i + 1].offset;
      assert j == i + 1 || End(a[i + 1]) <= a[j].offset;
    }
  }

  /** The scan over the parts, from the last to the first. */
  method FindNext(a: seq<Part>, b: seq<Part>, done: seq<bool>) returns (i: nat)
    requires |a| == |b| == |done| && exists k :: 0 <= k < |done| && !done[k]
    ensures IsNext(a, b, done, i)
  {
    ghost var w := FirstWaiting(done);
    i := |a| - 1;
    while done[i] || (i != 0 && b[i].offset < a[i].offset && !done[i - 1])
      invariant w <= i < |a|
      invariant forall j :: i < j < |a| ==> done[j] || Deferred(a, b, done, j)
      decreases i
    {
      i := i - 1;
    }
  }

  lemma FirstWaiting(done: seq<bool>) returns (w: nat)
    requires exists k :: 0 <= k < |done| && !done[k]
    ensures w < |done| && !done[w] && forall k :: 0 <= k < w ==> done[k]
  {
    w := 0;
    while done[w]
      invariant w < |done| && forall k :: 0 <= k < w ==> done[k]
      decreases |done| - w
    {
      w := w + 1;
    }
  }
}
