/** Patching a file made of parts (src/patch.cpp, createNcchPatchFile): each part is moved, then patched where
    it stands, and where it has shrunk the rest of its old length is filled with zeros. The fill can destroy a
    part that moves in behind; it does so for exactly the layouts given here. */
module PatchParts {
  import opened Bytes
  import opened PatchFormat
  import opened PatchDiff
  import opened PatchMoves

  // ----- Handling a part -----

  /** The bytes that a part keeps are moved first. */
  function MovedFile(f: seq<byte>, p: Part, q: Part): seq<byte> {
    if q.offset != p.offset && p.size != 0 && q.size != 0 then
      MoveBytes(f, p.offset, q.offset, Min(p.size, q.size))
    else f
  }

  /** Then it gets its new bytes, where they differ from the old ones. */
  function DiffedFile(f: seq<byte>, x: seq<byte>, y: seq<byte>, q: Part): seq<byte>
    requires |y| == q.size
  {
    if q.size == 0 then f else WriteAt(f, q.offset, Effective(Job(x, y, q.offset, f)))
  }

  /** Then, where it has shrunk, zeros take the place of the rest of its old length. */
  function FilledFile(f: seq<byte>, p: Part, q: Part): seq<byte> {
    if q.size < p.size then WriteAt(f, End(q), Repeated(0, p.size - q.size)) else f
  }

  function HandledFile(f: seq<byte>, oldFile: seq<byte>, newFile: seq<byte>, p: Part, q: Part): seq<byte>
    requires End(p) <= |oldFile| && End(q) <= |newFile|
  {
    FilledFile(DiffedFile(MovedFile(f, p, q), oldFile[p.offset..End(p)], newFile[q.offset..End(q)], q), p, q)
  }

  /** Offset `x` belongs to a part. */
  predicate InPart(q: Part, x: nat) { q.offset <= x < End(q) }

  /** Offset `x` is filled with zeros when the part is handled. */
  predicate InFill(p: Part, q: Part, x: nat) { End(q) <= x < q.offset + p.size }

  /** The bytes of the old part that are still needed for the new one. */
  function Carried(p: Part, q: Part): Part { Part(p.offset, Min(p.size, q.size)) }

  predicate Holds(f: seq<byte>, p: Part, s: seq<byte>) {
    End(p) <= |f| && End(p) <= |s| && f[p.offset..End(p)] == s[p.offset..End(p)]
  }

  /** Byte `k` of the old part has come along. */
  predicate Brought(f: seq<byte>, g: seq<byte>, p: Part, q: Part, k: nat) {
    p.offset + k < |f| && q.offset + k < |g| && g[q.offset + k] == f[p.offset + k]
  }

  lemma MovedStands(f: seq<byte>, p: Part, q: Part)
    requires End(p) <= |f|
    ensures
      var g, n := MovedFile(f, p, q), Min(p.size, q.size);
      && |f| <= |g| && (n > 0 ==> q.offset + n <= |g|)
      && (forall k :: 0 <= k < n ==> Brought(f, g, p, q, k))
      && forall x :: 0 <= x < |f| && !InPart(q, x) ==> g[x] == f[x]
  {
  }

  lemma HoldsAt(f: seq<byte>, q: Part, s: seq<byte>, k: nat)
    requires k < q.size
    ensures Holds(f, q, s) ==> f[q.offset + k] == s[q.offset + k]
  {
    assert Holds(f, q, s) ==> f[q.offset..End(q)][k] == s[q.offset..End(q)][k];
  }

  /** The bytes that a part keeps have come along. */
  lemma MovedSlice(f: seq<byte>, p: Part, q: Part, n: nat)
    requires End(p) <= |f| && 0 < n == Min(p.size, q.size)
    ensures
      var g := MovedFile(f, p, q);
      q.offset + n <= |g| && g[q.offset..q.offset + n] == f[p.offset..p.offset + n]
  {
    MovedStands(f, p, q);
    var x, y := MovedFile(f, p, q)[q.offset..q.offset + n], f[p.offset..p.offset + n];
    forall k | 0 <= k < n ensures x[k] == y[k] {
      assert Brought(f, MovedFile(f, p, q), p, q, k);
    }
  }

  lemma BroughtCarries(j: Job, oldFile: seq<byte>, p: Part, n: nat)
    requires End(p) <= |oldFile| && j.a == oldFile[p.offset..End(p)] && n == Common(j)
    requires n > 0 ==> j.at + n <= |j.f| && j.f[j.at..j.at + n] == oldFile[p.offset..p.offset + n]
    ensures Effective(j) == j.b
  {
    assert n > 0 ==> j.a[..n] == oldFile[p.offset..p.offset + n];
    CarriedIsNew(j);
  }

  /** After the move, a part whose needed bytes were in place gets exactly its new bytes. */
  lemma DiffedStands(f: seq<byte>, oldFile: seq<byte>, newFile: seq<byte>, p: Part, q: Part)
    requires End(p) <= |f| && Holds(f, Carried(p, q), oldFile) && End(p) <= |oldFile| && End(q) <= |newFile|
    ensures Effective(Job(oldFile[p.offset..End(p)], newFile[q.offset..End(q)], q.offset, MovedFile(f, p, q)))
      == newFile[q.offset..End(q)]
  {
    var n := Min(p.size, q.size);
    var j := Job(oldFile[p.offset..End(p)], newFile[q.offset..End(q)], q.offset, MovedFile(f, p, q));
    if n > 0 {
      MovedSlice(f, p, q, n);
    }
    BroughtCarries(j, oldFile, p, n);
  }

  lemma FillOutside(f: seq<byte>, p: Part, q: Part)
    ensures
      var h := FilledFile(f, p, q);
      && |f| <= |h| && (forall x :: 0 <= x < |f| && !InFill(p, q, x) ==> h[x] == f[x])
      && forall x :: 0 <= x < |h| && InFill(p, q, x) ==> h[x] == 0
  {
  }

  lemma DiffedOutside(f: seq<byte>, x: seq<byte>, y: seq<byte>, q: Part)
    requires |y| == q.size
    ensures
      var g := DiffedFile(f, x, y, q);
      && |f| <= |g| && (q.size > 0 ==> End(q) <= |g|)
      && (forall k :: 0 <= k < |f| && !InPart(q, k) ==> g[k] == f[k])
      && (q.size > 0 ==> g[q.offset..End(q)] == Effective(Job(x, y, q.offset, f)))
  {
    if q.size > 0 {
      var g, e := DiffedFile(f, x, y, q), Effective(Job(x, y, q.offset, f));
      assert g[q.offset..End(q)] == e;
    }
  }

  /** Handling a part changes nothing outside its new range and its fill; the fill is zeros. */
  lemma HandledOutside(f: seq<byte>, oldFile: seq<byte>, newFile: seq<byte>, p: Part, q: Part)
    requires End(p) <= |f| && End(p) <= |oldFile| && End(q) <= |newFile|
    ensures
      var h := HandledFile(f, oldFile, newFile, p, q);
      && |f| <= |h| && (forall x :: 0 <= x < |f| && !InPart(q, x) && !InFill(p, q, x) ==> h[x] == f[x])
      && forall x :: 0 <= x < |h| && InFill(p, q, x) ==> h[x] == 0
  {
    var x, y := oldFile[p.offset..End(p)], newFile[q.offset..End(q)];
    var g := MovedFile(f, p, q);
    MovedStands(f, p, q);
    DiffedOutside(g, x, y, q);
    FillOutside(DiffedFile(g, x, y, q), p, q);
  }

  /** A part whose needed bytes were in place holds its new bytes. */
  lemma HandledStands(f: seq<byte>, oldFile: seq<byte>, newFile: seq<byte>, p: Part, q: Part)
    requires End(p) <= |f| && End(p) <= |oldFile| && End(q) <= |newFile| && Holds(f, Carried(p, q), oldFile)
    requires q.size > 0
    ensures Holds(HandledFile(f, oldFile, newFile, p, q), q, newFile)
  {
    var x, y := oldFile[p.offset..End(p)], newFile[q.offset..End(q)];
    var g := MovedFile(f, p, q);
    DiffedStands(f, oldFile, newFile, p, q);
    DiffedOutside(g, x, y, q);
    FillOutside(DiffedFile(g, x, y, q), p, q);
    assert HandledFile(f, oldFile, newFile, p, q)[q.offset..End(q)] == DiffedFile(g, x, y, q)[q.offset..End(q)];
  }

  // ----- The loop over the parts -----

  /** The number of parts still to be handled. */
  function Waiting(done: seq<bool>): nat {
    if done == [] then 0 else Waiting(done[..|done| - 1]) + if done[|done| - 1] then 0 else 1
  }

  lemma {:induction false} WaitingDrops(done: seq<bool>, i: nat)
    requires i < |done| && !done[i]
    ensures Waiting(done[i := true]) == Waiting(done) - 1
  {
    var rest, more := done[..|done| - 1], done[i := true];
    if i < |rest| {
      WaitingDrops(rest, i);
      assert more[..|more| - 1] == rest[i := true];
    } else {
      assert more[..|more| - 1] == rest;
    }
  }

  /** The next part, looked for from the last one to the first. */
  function NextFrom(a: seq<Part>, b: seq<Part>, done: seq<bool>, i: nat): (r: nat)
    requires |a| == |b| == |done| && i < |a| && exists k :: 0 <= k <= i && !done[k]
    requires forall j :: i < j < |a| ==> done[j] || Deferred(a, b, done, j)
    ensures IsNext(a, b, done, r)
  {
    if done[i] || Deferred(a, b, done, i) then NextFrom(a, b, done, i - 1) else i
  }

  lemma NextUnique(a: seq<Part>, b: seq<Part>, done: seq<bool>, i: nat, j: nat)
    requires |a| == |b| == |done| && IsNext(a, b, done, i) && IsNext(a, b, done, j)
    ensures i == j
  {
  }

  predicate Fit(l: seq<Part>, n: nat) { forall i :: 0 <= i < |l| ==> End(l[i]) <= n }

  /** The file once every part has been handled. */
  function HandleAll(
    f: seq<byte>, oldFile: seq<byte>, newFile: seq<byte>, a: seq<Part>, b: seq<Part>, done: seq<bool>): seq<byte>
    requires |a| == |b| == |done| && Fit(a, |oldFile|) && Fit(b, |newFile|)
    decreases Waiting(done)
  {
    if false !in done then f
    else
      var i := NextFrom(a, b, done, |a| - 1);
      WaitingDrops(done, i);
      HandleAll(HandledFile(f, oldFile, newFile, a[i], b[i]), oldFile, newFile, a, b, done[i := true])
  }

  function Undone(n: nat): (done: seq<bool>)
    ensures |done| == n && forall i :: 0 <= i < n ==> !done[i]
  {
    seq(n, _ => false)
  }

  /** What the commands make of the old file. */
  function Result(oldFile: seq<byte>, newFile: seq<byte>, a: seq<Part>, b: seq<Part>): seq<byte>
    requires |a| == |b| && Fit(a, |oldFile|) && Fit(b, |newFile|)
  {
    HandleAll(oldFile, oldFile, newFile, a, b, Undone(|a|))
  }

  // ----- Which layouts are safe -----

  /** The fill behind part `i` spares part `j`: the bytes that it still needs if it waits, its new bytes if it is
      done. */
  predicate FillSpares(a: seq<Part>, b: seq<Part>, i: nat, j: nat)
    requires |a| == |b| && i < j < |a|
  {
    var end := b[i].offset + a[i].size;
    if AllDown(a, b, i, j) then Min(a[j].size, b[j].size) == 0 || end <= a[j].offset
    else b[j].size == 0 || end <= b[j].offset
  }

  /** A condition on the two layouts alone. */
  predicate FillsClear(a: seq<Part>, b: seq<Part>)
    requires |a| == |b|
  {
    forall i, j :: 0 <= i < j < |a| && b[i].size < a[i].size ==> FillSpares(a, b, i, j)
  }

  /** A part that shrinks without moving up never harms another. */
  lemma NotUpSpares(a: seq<Part>, b: seq<Part>, i: nat, j: nat)
    requires |a| == |b| && Ordered(a) && Ordered(b) && i < j < |a| && b[i].offset <= a[i].offset
    ensures FillSpares(a, b, i, j)
  {
    assert End(a[i]) <= a[j].offset;
    if !AllDown(a, b, i, j) {
      var m :| i < m <= j && b[m].offset >= a[m].offset;
      assert End(a[i]) <= a[m].offset;
      assert m == j || End(b[m]) <= b[j].offset;
    }
  }

  // ----- Safe layouts: every part arrives -----

  /** Offset `x` has its old byte, or lies in a new part, or has been filled. */
  predicate Kept(f: seq<byte>, oldFile: seq<byte>, a: seq<Part>, b: seq<Part>, x: nat)
    requires x < |oldFile| && |a| == |b|
  {
    || (exists i :: 0 <= i < |b| && InPart(b[i], x))
    || (x < |f| && f[x] == oldFile[x])
    || (x < |f| && f[x] == 0 && exists i :: 0 <= i < |b| && InFill(a[i], b[i], x))
  }

  predicate StandsAt(f: seq<byte>, oldFile: seq<byte>, newFile: seq<byte>, p: Part, q: Part, done: bool) {
    if done then q.size > 0 ==> Holds(f, q, newFile) else Holds(f, Carried(p, q), oldFile)
  }

  /** Parts that have been handled hold their new bytes, the others what they still need; nothing outside the
      new parts and their fills has changed. */
  ghost predicate Standing(
    f: seq<byte>, oldFile: seq<byte>, newFile: seq<byte>, a: seq<Part>, b: seq<Part>, done: seq<bool>)
    requires |a| == |b| == |done|
  {
    && |oldFile| <= |f|
    && (forall i :: 0 <= i < |a| ==> StandsAt(f, oldFile, newFile, a[i], b[i], done[i]))
    && forall x :: 0 <= x < |oldFile| ==> Kept(f, oldFile, a, b, x)
  }

  /** A part that is clear of the new range and of the fill keeps what it holds. */
  lemma HoldsOutside(f: seq<byte>, h: seq<byte>, s: seq<byte>, p: Part, q: Part, r: Part)
    requires |f| <= |h| && forall x :: 0 <= x < |f| && !InPart(q, x) && !InFill(p, q, x) ==> h[x] == f[x]
    requires Holds(f, r, s) && (r.size > 0 ==> Apart(q, r))
    requires r.size > 0 ==> forall x :: InFill(p, q, x) ==> !InPart(r, x)
    ensures Holds(h, r, s)
  {
    if r.size > 0 {
      assert h[r.offset..End(r)] == f[r.offset..End(r)];
    } else {
      assert h[r.offset..End(r)] == [] == s[r.offset..End(r)];
    }
  }

  /** The fill of the next part misses what a part that waits still needs. */
  lemma FillMissesWaiting(a: seq<Part>, b: seq<Part>, done: seq<bool>, i: nat, j: nat, x: nat)
    requires |a| == |b| == |done| && Ordered(a) && Ordered(b) && DoneInOrder(a, b, done) && IsNext(a, b, done, i)
    requires FillsClear(a, b) && j < |a| && j != i && !done[j] && InFill(a[i], b[i], x)
    ensures !InPart(Carried(a[j], b[j]), x)
  {
    if j < i {
      WaitersBelow(a, b, done, i, j);
    } else {
      LaterWaits(a, b, done, i, j);
      assert FillSpares(a, b, i, j);
    }
  }

  lemma FillMissesDone(a: seq<Part>, b: seq<Part>, done: seq<bool>, i: nat, j: nat, x: nat)
    requires |a| == |b| == |done| && Ordered(a) && Ordered(b) && DoneInOrder(a, b, done) && IsNext(a, b, done, i)
    requires FillsClear(a, b) && j < |a| && j != i && done[j] && InFill(a[i], b[i], x)
    ensures !InPart(b[j], x)
  {
    if j < i {
      assert End(b[j]) <= b[i].offset;
    } else {
      LaterWaits(a, b, done, i, j);
      assert FillSpares(a, b, i, j);
    }
  }

  /** Handling the next part keeps every other part standing. */
  lemma OtherStands(
    f: seq<byte>, oldFile: seq<byte>, newFile: seq<byte>, a: seq<Part>, b: seq<Part>, done: seq<bool>, i: nat, k: nat)
    requires |a| == |b| == |done| && Ordered(a) && Ordered(b) && DoneInOrder(a, b, done) && IsNext(a, b, done, i)
    requires FillsClear(a, b) && Fit(a, |oldFile|) && Fit(b, |newFile|) && |oldFile| <= |f|
    requires k < |a| && k != i && StandsAt(f, oldFile, newFile, a[k], b[k], done[k])
    ensures StandsAt(HandledFile(f, oldFile, newFile, a[i], b[i]), oldFile, newFile, a[k], b[k], done[k])
  {
    var h := HandledFile(f, oldFile, newFile, a[i], b[i]);
    HandledOutside(f, oldFile, newFile, a[i], b[i]);
    if !done[k] {
      NextIsSafe(a, b, done, i, k);
      forall x | InFill(a[i], b[i], x) ensures !InPart(Carried(a[k], b[k]), x) {
        FillMissesWaiting(a, b, done, i, k, x);
      }
      HoldsOutside(f, h, oldFile, a[i], b[i], Carried(a[k], b[k]));
    } else if b[k].size > 0 {
      forall x | InFill(a[i], b[i], x) ensures !InPart(b[k], x) {
        FillMissesDone(a, b, done, i, k, x);
      }
      assert Apart(b[i], b[k]);
      HoldsOutside(f, h, newFile, a[i], b[i], b[k]);
    }
  }

  lemma KeptStep(
    f: seq<byte>, oldFile: seq<byte>, newFile: seq<byte>, a: seq<Part>, b: seq<Part>, i: nat, x: nat)
    requires |a| == |b| && i < |a| && Fit(a, |oldFile|) && Fit(b, |newFile|) && |oldFile| <= |f|
    requires x < |oldFile| && Kept(f, oldFile, a, b, x)
    ensures Kept(HandledFile(f, oldFile, newFile, a[i], b[i]), oldFile, a, b, x)
  {
    HandledOutside(f, oldFile, newFile, a[i], b[i]);
    if InPart(b[i], x) {
    } else if InFill(a[i], b[i], x) {
    }
  }

  lemma StandingStep(
    f: seq<byte>, oldFile: seq<byte>, newFile: seq<byte>, a: seq<Part>, b: seq<Part>, done: seq<bool>, i: nat)
    requires |a| == |b| == |done| && Ordered(a) && Ordered(b) && DoneInOrder(a, b, done) && IsNext(a, b, done, i)
    requires FillsClear(a, b) && Fit(a, |oldFile|) && Fit(b, |newFile|)
    requires Standing(f, oldFile, newFile, a, b, done)
    ensures Standing(HandledFile(f, oldFile, newFile, a[i], b[i]), oldFile, newFile, a, b, done[i := true])
  {
    var h := HandledFile(f, oldFile, newFile, a[i], b[i]);
    assert StandsAt(f, oldFile, newFile, a[i], b[i], done[i]);
    HandledOutside(f, oldFile, newFile, a[i], b[i]);
    forall k | 0 <= k < |a| ensures StandsAt(h, oldFile, newFile, a[k], b[k], done[i := true][k]) {
      assert StandsAt(f, oldFile, newFile, a[k], b[k], done[k]);
      if k != i {
        OtherStands(f, oldFile, newFile, a, b, done, i, k);
      } else if b[i].size > 0 {
        HandledStands(f, oldFile, newFile, a[i], b[i]);
      }
    }
    forall x | 0 <= x < |oldFile| ensures Kept(h, oldFile, a, b, x) {
      KeptStep(f, oldFile, newFile, a, b, i, x);
    }
  }

  function AllDone(n: nat): seq<bool> { seq(n, _ => true) }

  lemma NoneWaits(done: seq<bool>)
    requires false !in done
    ensures done == AllDone(|done|)
  {
    forall k | 0 <= k < |done| ensures done[k] == AllDone(|done|)[k] {
      assert done[k] in done;
    }
  }

  lemma {:induction false} StandingToEnd(
    f: seq<byte>, oldFile: seq<byte>, newFile: seq<byte>, a: seq<Part>, b: seq<Part>, done: seq<bool>)
    requires |a| == |b| == |done| && Ordered(a) && Ordered(b) && DoneInOrder(a, b, done)
    requires FillsClear(a, b) && Fit(a, |oldFile|) && Fit(b, |newFile|)
    requires Standing(f, oldFile, newFile, a, b, done)
    ensures Standing(HandleAll(f, oldFile, newFile, a, b, done), oldFile, newFile, a, b, AllDone(|a|))
    decreases Waiting(done)
  {
    if false !in done {
      NoneWaits(done);
    } else {
      var i := NextFrom(a, b, done, |a| - 1);
      WaitingDrops(done, i);
      StandingStep(f, oldFile, newFile, a, b, done, i);
      DoneStaysInOrder(a, b, done, i);
      StandingToEnd(HandledFile(f, oldFile, newFile, a[i], b[i]), oldFile, newFile, a, b, done[i := true]);
    }
  }

  lemma StartsStanding(oldFile: seq<byte>, newFile: seq<byte>, a: seq<Part>, b: seq<Part>)
    requires |a| == |b| && Fit(a, |oldFile|)
    ensures Standing(oldFile, oldFile, newFile, a, b, Undone(|a|)) && DoneInOrder(a, b, Undone(|a|))
  {
    forall x | 0 <= x < |oldFile| ensures Kept(oldFile, oldFile, a, b, x) {
    }
  }

  /** If every fill is clear, every part of the new file arrives, whatever the files hold, and nothing outside
      the new parts and the fills changes. */
  lemma ClearFillsArrive(oldFile: seq<byte>, newFile: seq<byte>, a: seq<Part>, b: seq<Part>)
    requires |a| == |b| && Ordered(a) && Ordered(b) && Fit(a, |oldFile|) && Fit(b, |newFile|) && FillsClear(a, b)
    ensures Standing(Result(oldFile, newFile, a, b), oldFile, newFile, a, b, AllDone(|a|))
  {
    StartsStanding(oldFile, newFile, a, b);
    StandingToEnd(oldFile, oldFile, newFile, a, b, Undone(|a|));
  }

  // ----- Other layouts: some part is lost -----

  /** Files that hold nothing but ones. */
  function Ones(n: nat): (s: seq<byte>)
    ensures |s| == n && forall i :: 0 <= i < n ==> s[i] == 1
  {
    seq(n, _ => 1)
  }

  /** Where byte `k` of part `j` stands: in the old place until the part is handled, then in the new one. */
  function Place(p: Part, q: Part, done: bool, k: nat): nat { (if done then q.offset else p.offset) + k }

  /** Byte `k` of part `j`, which the new file needs, has become zero. */
  predicate Lost(f: seq<byte>, p: Part, q: Part, done: bool, k: nat) {
    k < (if done then q.size else Min(p.size, q.size)) && Place(p, q, done, k) < |f| && f[Place(p, q, done, k)] == 0
  }

  /** A zero stays a zero where no part is put. */
  lemma ZeroStays(f: seq<byte>, oldFile: seq<byte>, newFile: seq<byte>, p: Part, q: Part, x: nat)
    requires End(p) <= |f| && End(p) <= |oldFile| && End(q) <= |newFile| && x < |f| && f[x] == 0 && !InPart(q, x)
    ensures var h := HandledFile(f, oldFile, newFile, p, q); x < |h| && h[x] == 0
  {
    HandledOutside(f, oldFile, newFile, p, q);
  }

  /** The move takes a lost byte along, and the diff does not restore it where the files agree. */
  lemma LostMoves(f: seq<byte>, oldFile: seq<byte>, newFile: seq<byte>, p: Part, q: Part, k: nat)
    requires End(p) <= |f| && End(p) <= |oldFile| && End(q) <= |newFile| && Lost(f, p, q, false, k)
    requires oldFile == Ones(|oldFile|) && newFile == Ones(|newFile|)
    ensures Lost(HandledFile(f, oldFile, newFile, p, q), p, q, true, k)
  {
    OnesAgree(oldFile, newFile, p, q, k);
    var x, y := oldFile[p.offset..End(p)], newFile[q.offset..End(q)];
    ZeroMoves(f, x, y, p, q, k);
    var h := HandledIs(f, oldFile, newFile, p, q, x, y);
    LostWhere(h, p, q, k);
  }

  lemma LostWhere(h: seq<byte>, p: Part, q: Part, k: nat)
    requires k < q.size && q.offset + k < |h| && h[q.offset + k] == 0
    ensures Lost(h, p, q, true, k)
  {
  }

  lemma HandledIs(
    f: seq<byte>, oldFile: seq<byte>, newFile: seq<byte>, p: Part, q: Part, x: seq<byte>, y: seq<byte>)
    returns (h: seq<byte>)
    requires End(p) <= |oldFile| && x == oldFile[p.offset..End(p)]
    requires End(q) <= |newFile| && y == newFile[q.offset..End(q)]
    ensures h == HandledFile(f, oldFile, newFile, p, q) == FilledFile(DiffedFile(MovedFile(f, p, q), x, y, q), p, q)
  {
    h := HandledFile(f, oldFile, newFile, p, q);
  }

  lemma ZeroMoves(f: seq<byte>, x: seq<byte>, y: seq<byte>, p: Part, q: Part, k: nat)
    requires End(p) <= |f| && k < |x| == p.size && k < |y| == q.size && x[k] == y[k] && f[p.offset + k] == 0
    ensures
      var h := FilledFile(DiffedFile(MovedFile(f, p, q), x, y, q), p, q);
      q.offset + k < |h| && h[q.offset + k] == 0
  {
    ByteBrought(f, p, q, k);
    Through(MovedFile(f, p, q), x, y, p, q, k);
  }

  lemma Through(g: seq<byte>, x: seq<byte>, y: seq<byte>, p: Part, q: Part, k: nat)
    requires k < |x| && k < |y| == q.size && x[k] == y[k] && q.offset + k < |g|
    ensures
      var h := FilledFile(DiffedFile(g, x, y, q), p, q);
      q.offset + k < |h| && h[q.offset + k] == g[q.offset + k]
  {
    DiffKeeps(g, x, y, q, k);
    FillKeeps(DiffedFile(g, x, y, q), p, q, k);
  }

  lemma OnesAgree(oldFile: seq<byte>, newFile: seq<byte>, p: Part, q: Part, k: nat)
    requires End(p) <= |oldFile| && End(q) <= |newFile| && k < p.size && k < q.size
    requires oldFile == Ones(|oldFile|) && newFile == Ones(|newFile|)
    ensures oldFile[p.offset..End(p)][k] == newFile[q.offset..End(q)][k]
  {
  }

  lemma ByteBrought(f: seq<byte>, p: Part, q: Part, k: nat)
    requires End(p) <= |f| && k < p.size && k < q.size
    ensures var g := MovedFile(f, p, q); q.offset + k < |g| && g[q.offset + k] == f[p.offset + k]
  {
    MovedStands(f, p, q);
    assert Brought(f, MovedFile(f, p, q), p, q, k);
  }

  lemma FillKeeps(f: seq<byte>, p: Part, q: Part, k: nat)
    requires k < q.size && q.offset + k < |f|
    ensures var h := FilledFile(f, p, q); |f| <= |h| && h[q.offset + k] == f[q.offset + k]
  {
    FillOutside(f, p, q);
  }

  /** The diff leaves a byte alone where the two parts agree. */
  lemma DiffKeeps(g: seq<byte>, x: seq<byte>, y: seq<byte>, q: Part, k: nat)
    requires k < |x| && k < |y| == q.size && x[k] == y[k] && q.offset + k < |g|
    ensures var e := DiffedFile(g, x, y, q); |g| <= |e| && e[q.offset + k] == g[q.offset + k]
  {
    var e := Effective(Job(x, y, q.offset, g));
    assert e[k] == EffectiveAt(Job(x, y, q.offset, g), k);
  }

  /** What is lost stays lost. */
  lemma LostStep(
    f: seq<byte>, oldFile: seq<byte>, newFile: seq<byte>, a: seq<Part>, b: seq<Part>, done: seq<bool>, i: nat,
    j: nat, k: nat)
    requires |a| == |b| == |done| && Ordered(a) && Ordered(b) && DoneInOrder(a, b, done) && IsNext(a, b, done, i)
    requires Fit(a, |oldFile|) && Fit(b, |newFile|) && |oldFile| <= |f|
    requires oldFile == Ones(|oldFile|) && newFile == Ones(|newFile|)
    requires j < |a| && Lost(f, a[j], b[j], done[j], k)
    ensures Lost(HandledFile(f, oldFile, newFile, a[i], b[i]), a[j], b[j], done[i := true][j], k)
  {
    if j == i {
      LostMoves(f, oldFile, newFile, a[i], b[i], k);
    } else {
      var x := Place(a[j], b[j], done[j], k);
      if done[j] {
        assert Apart(b[i], b[j]);
      } else {
        NextIsSafe(a, b, done, i, j);
      }
      ZeroStays(f, oldFile, newFile, a[i], b[i], x);
    }
  }

  /** A fill that is not clear destroys a byte. */
  lemma FillDestroys(
    f: seq<byte>, oldFile: seq<byte>, newFile: seq<byte>, a: seq<Part>, b: seq<Part>, done: seq<bool>, i: nat,
    j: nat)
    requires |a| == |b| == |done| && Ordered(a) && Ordered(b) && DoneInOrder(a, b, done) && IsNext(a, b, done, i)
    requires Fit(a, |oldFile|) && Fit(b, |newFile|) && |oldFile| <= |f|
    requires i < j < |a| && b[i].size < a[i].size && !FillSpares(a, b, i, j)
    ensures Lost(HandledFile(f, oldFile, newFile, a[i], b[i]), a[j], b[j], done[j], 0)
  {
    LaterWaits(a, b, done, i, j);
    var h := HandledFile(f, oldFile, newFile, a[i], b[i]);
    HandledOutside(f, oldFile, newFile, a[i], b[i]);
    assert End(b[i]) <= b[j].offset;
    assert InFill(a[i], b[i], Place(a[j], b[j], done[j], 0));
    FilledLength(f, oldFile, newFile, a[i], b[i]);
  }

  lemma FilledLength(f: seq<byte>, oldFile: seq<byte>, newFile: seq<byte>, p: Part, q: Part)
    requires End(p) <= |oldFile| && End(q) <= |newFile| && q.size < p.size
    ensures q.offset + p.size <= |HandledFile(f, oldFile, newFile, p, q)|
  {
  }

  lemma {:induction false} LostToEnd(
    f: seq<byte>, oldFile: seq<byte>, newFile: seq<byte>, a: seq<Part>, b: seq<Part>, done: seq<bool>, j: nat, k: nat)
    requires |a| == |b| == |done| && Ordered(a) && Ordered(b) && DoneInOrder(a, b, done)
    requires Fit(a, |oldFile|) && Fit(b, |newFile|) && |oldFile| <= |f|
    requires oldFile == Ones(|oldFile|) && newFile == Ones(|newFile|)
    requires j < |a| && Lost(f, a[j], b[j], done[j], k)
    ensures Lost(HandleAll(f, oldFile, newFile, a, b, done), a[j], b[j], true, k)
    decreases Waiting(done)
  {
    if false !in done {
      NoneWaits(done);
    } else {
      var i := NextFrom(a, b, done, |a| - 1);
      WaitingDrops(done, i);
      LostStep(f, oldFile, newFile, a, b, done, i, j, k);
      DoneStaysInOrder(a, b, done, i);
      HandledOutside(f, oldFile, newFile, a[i], b[i]);
      LostToEnd(HandledFile(f, oldFile, newFile, a[i], b[i]), oldFile, newFile, a, b, done[i := true], j, k);
    }
  }

  /** Sooner or later the part with the harmful fill is handled. */
  lemma {:induction false} FillComes(
    f: seq<byte>, oldFile: seq<byte>, newFile: seq<byte>, a: seq<Part>, b: seq<Part>, done: seq<bool>, i: nat, j: nat)
    requires |a| == |b| == |done| && Ordered(a) && Ordered(b) && DoneInOrder(a, b, done)
    requires Fit(a, |oldFile|) && Fit(b, |newFile|) && |oldFile| <= |f|
    requires oldFile == Ones(|oldFile|) && newFile == Ones(|newFile|)
    requires i < j < |a| && b[i].size < a[i].size && !FillSpares(a, b, i, j) && !done[i]
    ensures Lost(HandleAll(f, oldFile, newFile, a, b, done), a[j], b[j], true, 0)
    decreases Waiting(done)
  {
    assert done[i] in done;
    var n := NextFrom(a, b, done, |a| - 1);
    var h := HandledFile(f, oldFile, newFile, a[n], b[n]);
    WaitingDrops(done, n);
    DoneStaysInOrder(a, b, done, n);
    HandledOutside(f, oldFile, newFile, a[n], b[n]);
    if n == i {
      FillDestroys(f, oldFile, newFile, a, b, done, i, j);
      LostToEnd(h, oldFile, newFile, a, b, done[i := true], j, 0);
    } else {
      FillComes(h, oldFile, newFile, a, b, done[n := true], i, j);
    }
  }

  /** Every part of the new file has arrived. */
  predicate Arrived(f: seq<byte>, newFile: seq<byte>, b: seq<Part>) {
    forall i :: 0 <= i < |b| && b[i].size > 0 ==> Holds(f, b[i], newFile)
  }

  lemma LostNotArrived(f: seq<byte>, newFile: seq<byte>, p: Part, b: seq<Part>, j: nat, k: nat)
    requires j < |b| && Lost(f, p, b[j], true, k) && newFile == Ones(|newFile|)
    ensures !Arrived(f, newFile, b)
  {
    HoldsAt(f, b[j], newFile, k);
  }

  lemma HarmfulFillLoses(a: seq<Part>, b: seq<Part>, n: nat, m: nat)
    requires |a| == |b| && Ordered(a) && Ordered(b) && Fit(a, n) && Fit(b, m) && !FillsClear(a, b)
    ensures !Arrived(Result(Ones(n), Ones(m), a, b), Ones(m), b)
  {
    var i, j :| 0 <= i < j < |a| && b[i].size < a[i].size && !FillSpares(a, b, i, j);
    var f := Ones(n);
    StartsStanding(f, Ones(m), a, b);
    FillComes(f, f, Ones(m), a, b, Undone(|a|), i, j);
    LostNotArrived(Result(f, Ones(m), a, b), Ones(m), a[j], b, j, 0);
  }

  /** The condition is exact: the commands carry every part over, whatever bytes the two files hold, if and only
      if every fill is clear. */
  lemma ArriveIffClear(a: seq<Part>, b: seq<Part>, n: nat, m: nat)
    requires |a| == |b| && Ordered(a) && Ordered(b) && Fit(a, n) && Fit(b, m)
    ensures FillsClear(a, b) <==>
      forall oldFile: seq<byte>, newFile: seq<byte> :: |oldFile| == n && |newFile| == m ==>
        Arrived(Result(oldFile, newFile, a, b), newFile, b)
  {
    if FillsClear(a, b) {
      forall oldFile: seq<byte>, newFile: seq<byte> | |oldFile| == n && |newFile| == m
        ensures Arrived(Result(oldFile, newFile, a, b), newFile, b)
      {
        ClearFillsArrive(oldFile, newFile, a, b);
        forall i | 0 <= i < |b| && b[i].size > 0 ensures Holds(Result(oldFile, newFile, a, b), b[i], newFile) {
          assert StandsAt(Result(oldFile, newFile, a, b), oldFile, newFile, a[i], b[i], AllDone(|a|)[i]);
        }
      }
    } else {
      HarmfulFillLoses(a, b, n, m);
    }
  }

  /** A layout whose fill is not clear: the first part moves up and shrinks, the second moves down behind it. */
  lemma UpAndDown()
    ensures
      var a, b := [Part(0, 10), Part(10, 10)], [Part(3, 5), Part(8, 10)];
      && Ordered(a) && Ordered(b) && Fit(a, 20) && Fit(b, 18) && !FillsClear(a, b)
      && !Arrived(Result(Ones(20), Ones(18), a, b), Ones(18), b)
  {
    var a, b := [Part(0, 10), Part(10, 10)], [Part(3, 5), Part(8, 10)];
    assert AllDown(a, b, 0, 1) && !FillSpares(a, b, 0, 1);
    HarmfulFillLoses(a, b, 20, 18);
  }

  /** Such a layout of the five parts of a file that has the last two only, `x` and `y` before the offsets of absent
      parts have been filled in: an absent part stands at the offset of the next one. */
  lemma FiveParts(x: seq<Part>, y: seq<Part>, a: seq<Part>, b: seq<Part>, n: nat, m: nat)
    requires |x| == |y| == |a| == |b| == 5 && n == 0xC00 && m == 0xA00
    requires x[3] == a[3] == Part(0x200, 0x600) && x[4] == a[4] == Part(0x800, 0x400)
    requires y[3] == b[3] == Part(0x400, 0x200) && y[4] == b[4] == Part(0x600, 0x400)
    requires forall i :: 0 <= i < 3 ==>
      x[i] == y[i] == Part(0, 0) && a[i] == Part(a[3].offset, 0) && b[i] == Part(b[3].offset, 0)
    ensures FilledFrom(a, x) && FilledFrom(b, y) && Ordered(a) && Ordered(b) && Fit(a, n) && Fit(b, m)
    ensures !FillsClear(a, b) && !Arrived(Result(Ones(n), Ones(m), a, b), Ones(m), b)
  {
    FiveOrdered(x, a);
    FiveOrdered(y, b);
    assert AllDown(a, b, 3, 4) && !FillSpares(a, b, 3, 4);
    HarmfulFillLoses(a, b, n, m);
  }

  lemma FiveOrdered(x: seq<Part>, a: seq<Part>)
    requires |x| == |a| == 5 && x[3] == a[3] && x[4] == a[4] && End(a[3]) <= a[4].offset
    requires forall i :: 0 <= i < 3 ==> x[i] == Part(0, 0) && a[i] == Part(a[3].offset, 0)
    ensures FilledFrom(a, x) && Ordered(a) && Fit(a, End(a[4]))
  {
  }

  // ----- The moves alone -----

  /** The file once every part has been moved, and nothing else done. */
  function MoveAll(f: seq<byte>, a: seq<Part>, b: seq<Part>, done: seq<bool>): seq<byte>
    requires |a| == |b| == |done|
    decreases Waiting(done)
  {
    if false !in done then f
    else
      var i := NextFrom(a, b, done, |a| - 1);
      WaitingDrops(done, i);
      MoveAll(MovedFile(f, a[i], b[i]), a, b, done[i := true])
  }

  /** The bytes that part `j` keeps, where they are now. */
  predicate KeptBytes(f: seq<byte>, s: seq<byte>, p: Part, q: Part, done: bool) {
    var n, at := Min(p.size, q.size), if done then q.offset else p.offset;
    n > 0 ==> at + n <= |f| && End(p) <= |s| && f[at..at + n] == s[p.offset..p.offset + n]
  }

  lemma MoveStep(f: seq<byte>, s: seq<byte>, a: seq<Part>, b: seq<Part>, done: seq<bool>, i: nat, j: nat)
    requires |a| == |b| == |done| && Ordered(a) && Ordered(b) && DoneInOrder(a, b, done) && IsNext(a, b, done, i)
    requires Fit(a, |s|) && |s| <= |f| && j < |a| && KeptBytes(f, s, a[j], b[j], done[j])
    ensures KeptBytes(MovedFile(f, a[i], b[i]), s, a[j], b[j], done[i := true][j])
  {
    if j == i {
      MoveOwn(f, s, a[i], b[i]);
    } else {
      if done[j] {
        assert Apart(b[i], b[j]);
      } else {
        NextIsSafe(a, b, done, i, j);
      }
      MoveOther(f, s, a[i], b[i], a[j], b[j], done[j]);
    }
  }

  lemma MoveOwn(f: seq<byte>, s: seq<byte>, p: Part, q: Part)
    requires End(p) <= |f| && KeptBytes(f, s, p, q, false)
    ensures KeptBytes(MovedFile(f, p, q), s, p, q, true)
  {
    if Min(p.size, q.size) > 0 {
      MovedSlice(f, p, q, Min(p.size, q.size));
    }
  }

  lemma MoveOther(f: seq<byte>, s: seq<byte>, p: Part, q: Part, r: Part, u: Part, done: bool)
    requires End(p) <= |f| && KeptBytes(f, s, r, u, done) && Apart(q, if done then u else r)
    ensures KeptBytes(MovedFile(f, p, q), s, r, u, done)
  {
    var g, n, at := MovedFile(f, p, q), Min(r.size, u.size), if done then u.offset else r.offset;
    MovedStands(f, p, q);
    if n > 0 {
      assert g[at..at + n] == f[at..at + n];
    }
  }

  /** Running only the moves leaves, for every layout, each part's first bytes at its new offset. */
  lemma {:induction false} MovesLand(f: seq<byte>, s: seq<byte>, a: seq<Part>, b: seq<Part>, done: seq<bool>)
    requires |a| == |b| == |done| && Ordered(a) && Ordered(b) && DoneInOrder(a, b, done) && Fit(a, |s|) && |s| <= |f|
    requires forall j :: 0 <= j < |a| ==> KeptBytes(f, s, a[j], b[j], done[j])
    ensures forall j :: 0 <= j < |a| ==> KeptBytes(MoveAll(f, a, b, done), s, a[j], b[j], true)
    decreases Waiting(done)
  {
    if false !in done {
      NoneWaits(done);
    } else {
      var i := NextFrom(a, b, done, |a| - 1);
      WaitingDrops(done, i);
      MovedStands(f, a[i], b[i]);
      DoneStaysInOrder(a, b, done, i);
      forall j | 0 <= j < |a| ensures KeptBytes(MovedFile(f, a[i], b[i]), s, a[j], b[j], done[i := true][j]) {
        MoveStep(f, s, a, b, done, i, j);
      }
      MovesLand(MovedFile(f, a[i], b[i]), s, a, b, done[i := true]);
    }
  }

  /** From the start, for any two layouts. */
  lemma MovesCarry(oldFile: seq<byte>, a: seq<Part>, b: seq<Part>)
    requires |a| == |b| && Ordered(a) && Ordered(b) && Fit(a, |oldFile|)
    ensures forall j :: 0 <= j < |a| ==> KeptBytes(MoveAll(oldFile, a, b, Undone(|a|)), oldFile, a[j], b[j], true)
  {
    StartsKept(oldFile, a, b);
    MovesLand(oldFile, oldFile, a, b, Undone(|a|));
  }

  lemma StartsKept(oldFile: seq<byte>, a: seq<Part>, b: seq<Part>)
    requires |a| == |b| && Fit(a, |oldFile|)
    ensures DoneInOrder(a, b, Undone(|a|))
    ensures forall j :: 0 <= j < |a| ==> KeptBytes(oldFile, oldFile, a[j], b[j], Undone(|a|)[j])
  {
  }

  // ----- Writing the commands -----

  /** writeSet. */
  method WriteSet(d: Differ, start: nat, size: nat, value: byte) returns (ghost c: Command)
    modifies d
    ensures c == Set(start, size, value) && d.patch == old(d.patch) + Encode(c)
  {
    d.patch := d.patch + ([3] + (Le(start, 8) + Le(size, 8) + [value]));
    c := Set(start, size, value);
  }

  /** More commands follow, and no checks. */
  ghost predicate Extends(cmds: seq<Command>, more: seq<Command>) {
    cmds <= more && forall i :: |cmds| <= i < |more| ==> !more[i].Check?
  }

  lemma OneMore(start: seq<byte>, t: Target, cmds: seq<Command>, c: Command)
    requires Runnable(t, cmds) && WellFormed(c) && !c.Over? && InsideMove(ExecuteAll(t, cmds).data, c)
    ensures start + EncodeAll(cmds) + Encode(c) == start + EncodeAll(cmds + [c])
    ensures ExecuteAll(t, cmds + [c]) == Execute(ExecuteAll(t, cmds), c) && Runnable(t, cmds + [c])
  {
    Associate(start, EncodeAll(cmds), Encode(c));
    EncodeSnoc(cmds, c);
    ExecuteSnoc(t, cmds, c);
    RunnableSnoc(t, cmds, c);
  }

  method MovePart(d: Differ, p: Part, q: Part, ghost start: seq<byte>, ghost t: Target, ghost cmds: seq<Command>)
    returns (ghost cmds': seq<Command>)
    requires d.patch == start + EncodeAll(cmds) && Runnable(t, cmds)
    requires End(p) <= |ExecuteAll(t, cmds).data| && End(p) < N64_LIMIT && End(q) < N64_LIMIT
    modifies d
    ensures d.patch == start + EncodeAll(cmds') && Runnable(t, cmds') && Extends(cmds, cmds')
    ensures ExecuteAll(t, cmds').data == MovedFile(ExecuteAll(t, cmds).data, p, q)
  {
    cmds' := cmds;
    if q.offset != p.offset {
      if p.size != 0 && q.size != 0 {
        var n := if p.size < q.size then p.size else q.size;
        d.WriteMove(p.offset, q.offset, n);
        OneMore(start, t, cmds, Move(p.offset, q.offset, n));
        cmds' := cmds + [Move(p.offset, q.offset, n)];
      }
    }
  }

  /** The diff of a range, as part of a longer run of commands. */
  method DiffPart(d: Differ, p: Part, q: Part, ghost start: seq<byte>, ghost t: Target, ghost cmds: seq<Command>)
    returns (ghost cmds': seq<Command>)
    requires d.patch == start + EncodeAll(cmds) && Runnable(t, cmds)
    requires End(p) <= |d.oldFile| && End(q) <= |d.newFile| < N64_LIMIT
    requires Min(p.size, q.size) > 0 ==> q.offset + Min(p.size, q.size) <= |ExecuteAll(t, cmds).data|
    modifies d
    ensures d.patch == start + EncodeAll(cmds') && Runnable(t, cmds') && Extends(cmds, cmds')
    ensures ExecuteAll(t, cmds').data
      == DiffedFile(ExecuteAll(t, cmds).data, d.oldFile[p.offset..End(p)], d.newFile[q.offset..End(q)], q)
  {
    cmds' := cmds;
    if q.size != 0 {
      ghost var u := ExecuteAll(t, cmds);
      ghost var j := Job(d.oldFile[p.offset..End(p)], d.newFile[q.offset..End(q)], q.offset, u.data);
      ghost var writes := d.CreateRange(p.offset, p.size, q.offset, q.size, j, u.pos);
      Associate(start, EncodeAll(cmds), EncodeAll(writes));
      EncodeConcat(cmds, writes);
      ExecuteConcat(t, cmds, writes);
      RunnableWithoutMoves(t, cmds, writes);
      cmds' := cmds + writes;
    }
  }

  lemma FillAppended(p: Part, q: Part, start: seq<byte>, t: Target, cmds: seq<Command>, c: Command)
    returns (cmds': seq<Command>)
    requires Runnable(t, cmds) && q.size < p.size && End(p) < N64_LIMIT && End(q) < N64_LIMIT
    requires c == Set(End(q), p.size - q.size, 0)
    ensures start + EncodeAll(cmds) + Encode(c) == start + EncodeAll(cmds')
    ensures Runnable(t, cmds') && Extends(cmds, cmds')
    ensures ExecuteAll(t, cmds').data == FilledFile(ExecuteAll(t, cmds).data, p, q)
  {
    cmds' := cmds + [c];
    OneMore(start, t, cmds, c);
    FillIs(ExecuteAll(t, cmds), p, q, c);
  }

  lemma FillIs(t: Target, p: Part, q: Part, c: Command)
    requires q.size < p.size && c == Set(End(q), p.size - q.size, 0)
    ensures Execute(t, c).data == FilledFile(t.data, p, q)
  {
  }

  method FillPart(d: Differ, p: Part, q: Part, ghost start: seq<byte>, ghost t: Target, ghost cmds: seq<Command>)
    returns (ghost cmds': seq<Command>)
    requires d.patch == start + EncodeAll(cmds) && Runnable(t, cmds) && End(p) < N64_LIMIT && End(q) < N64_LIMIT
    modifies d
    ensures d.patch == start + EncodeAll(cmds') && Runnable(t, cmds') && Extends(cmds, cmds')
    ensures ExecuteAll(t, cmds').data == FilledFile(ExecuteAll(t, cmds).data, p, q)
  {
    cmds' := cmds;
    if q.size < p.size {
      ghost var c := WriteSet(d, q.offset + q.size, p.size - q.size, 0);
      cmds' := FillAppended(p, q, start, t, cmds, c);
    }
  }

  method HandlePart(d: Differ, p: Part, q: Part, ghost start: seq<byte>, ghost t: Target, ghost cmds: seq<Command>)
    returns (ghost cmds': seq<Command>)
    requires End(p) <= |d.oldFile| <= |ExecuteAll(t, cmds).data| && End(q) <= |d.newFile| < N64_LIMIT
    requires d.patch == start + EncodeAll(cmds) && Runnable(t, cmds) && |d.oldFile| < N64_LIMIT
    modifies d
    ensures d.patch == start + EncodeAll(cmds') && Runnable(t, cmds') && Extends(cmds, cmds')
    ensures ExecuteAll(t, cmds').data == HandledFile(ExecuteAll(t, cmds).data, d.oldFile, d.newFile, p, q)
  {
    MovedStands(ExecuteAll(t, cmds).data, p, q);
    cmds' := MovePart(d, p, q, start, t, cmds);
    cmds' := DiffPart(d, p, q, start, t, cmds');
    cmds' := FillPart(d, p, q, start, t, cmds');
  }

  /** createNcchPatchFile's loop: each part is handled exactly once, in the order of the scan; the commands move only
      bytes that exist, and running them on the old file, behind commands that have not changed it, gives `Result`. */
  method PatchParts(
    d: Differ, a: seq<Part>, b: seq<Part>, ghost start: seq<byte>, ghost t: Target, ghost first: seq<Command>)
    returns (ghost cmds: seq<Command>)
    requires |a| == |b| && Fit(a, |d.oldFile|) && Fit(b, |d.newFile|)
    requires |d.oldFile| < N64_LIMIT && |d.newFile| < N64_LIMIT
    requires d.patch == start + EncodeAll(first) && Runnable(t, first) && ExecuteAll(t, first).data == d.oldFile
    modifies d
    ensures d.patch == start + EncodeAll(cmds) && Runnable(t, cmds) && Extends(first, cmds)
    ensures ExecuteAll(t, cmds).data == Result(d.oldFile, d.newFile, a, b)
  {
    var done := Undone(|a|);
    cmds := first;
    while false in done
      invariant |done| == |a| && d.patch == start + EncodeAll(cmds) && |d.oldFile| <= |ExecuteAll(t, cmds).data|
      invariant Runnable(t, cmds) && Extends(first, cmds)
      invariant HandleAll(ExecuteAll(t, cmds).data, d.oldFile, d.newFile, a, b, done)
        == Result(d.oldFile, d.newFile, a, b)
      decreases Waiting(done)
    {
      var i := FindNext(a, b, done);
      NextUnique(a, b, done, i, NextFrom(a, b, done, |a| - 1));
      HandledOutside(ExecuteAll(t, cmds).data, d.oldFile, d.newFile, a[i], b[i]);
      cmds := HandlePart(d, a[i], b[i], start, t, cmds);
      WaitingDrops(done, i);
      done := done[i := true];
    }
  }
}
