/** The list of free ranges (src/space.cpp): sorted, disjoint and coalesced, and so one list for each set. */
module Space {

  /** A range of offsets, the bottom excluded. */
  datatype Buffer = Buffer(top: int, bottom: int)

  ghost predicate Holds(r: Buffer, x: int) { r.top <= x < r.bottom }

  /** Offset `x` is free. */
  ghost predicate Free(b: seq<Buffer>, x: int) { exists i :: 0 <= i < |b| && Holds(b[i], x) }

  /** Every range of `a` ends before every range of `c` begins, with a gap between. */
  ghost predicate Before(a: seq<Buffer>, c: seq<Buffer>) {
    forall i, j :: 0 <= i < |a| && 0 <= j < |c| ==> a[i].bottom < c[j].top
  }

  /** Nonempty ranges in increasing order that neither overlap nor touch. */
  ghost predicate Canonical(b: seq<Buffer>) {
    && (forall i :: 0 <= i < |b| ==> b[i].top < b[i].bottom)
    && (forall i, j :: 0 <= i < j < |b| ==> b[i].bottom < b[j].top)
  }

  ghost predicate AllFree(b: seq<Buffer>, r: Buffer) { forall x :: Holds(r, x) ==> Free(b, x) }

  ghost predicate NoneFree(b: seq<Buffer>, r: Buffer) { forall x :: Holds(r, x) ==> !Free(b, x) }

  lemma FreeConcat(a: seq<Buffer>, c: seq<Buffer>, x: int)
    ensures Free(a + c, x) <==> Free(a, x) || Free(c, x)
  {
    var s := a + c;
    if Free(a, x) {
      var i :| 0 <= i < |a| && Holds(a[i], x);
      assert Holds(s[i], x);
    }
    if Free(c, x) {
      var i :| 0 <= i < |c| && Holds(c[i], x);
      assert Holds(s[|a| + i], x);
    }
    if Free(s, x) {
      var i :| 0 <= i < |s| && Holds(s[i], x);
      assert i < |a| ==> Holds(a[i], x);
      assert i >= |a| ==> Holds(c[i - |a|], x);
    }
  }

  lemma FreeThree(a: seq<Buffer>, m: seq<Buffer>, c: seq<Buffer>, x: int)
    ensures Free(a + m + c, x) <==> Free(a, x) || Free(m, x) || Free(c, x)
  {
    FreeConcat(a + m, c, x);
    FreeConcat(a, m, x);
  }

  lemma FreeOne(r: Buffer, x: int)
    ensures Free([r], x) <==> Holds(r, x)
  {
    if Holds(r, x) {
      assert Holds([r][0], x);
    }
  }

  lemma FreeTwo(r: Buffer, u: Buffer, x: int)
    ensures Free([r, u], x) <==> Holds(r, x) || Holds(u, x)
  {
    assert [r, u] == [r] + [u];
    FreeConcat([r], [u], x);
    FreeOne(r, x);
    FreeOne(u, x);
  }

  lemma CanonicalConcat(a: seq<Buffer>, c: seq<Buffer>)
    ensures Canonical(a + c) <==> Canonical(a) && Canonical(c) && Before(a, c)
  {
    var s := a + c;
    if Canonical(s) {
      assert forall i :: 0 <= i < |a| ==> a[i] == s[i];
      assert forall i :: 0 <= i < |c| ==> c[i] == s[|a| + i];
    }
  }

  /** Replacing the middle of a canonical list. */
  lemma CanonicalReplace(a: seq<Buffer>, m: seq<Buffer>, c: seq<Buffer>, n: seq<Buffer>)
    requires Canonical(a + m + c) && Canonical(n) && Before(a, n) && Before(n, c) && Before(a, c)
    ensures Canonical(a + n + c)
  {
    CanonicalConcat(a + m, c);
    CanonicalConcat(a, m);
    CanonicalConcat(a, n);
    CanonicalConcat(a + n, c);
  }

  /** What becomes free and what does not when the middle is replaced. */
  lemma FreeReplace(a: seq<Buffer>, m: seq<Buffer>, c: seq<Buffer>, n: seq<Buffer>, x: int)
    ensures Free(a + m + c, x) && !Free(m, x) ==> Free(a + n + c, x)
    ensures Free(a + n + c, x) && !Free(n, x) ==> Free(a + m + c, x)
    ensures Free(n, x) ==> Free(a + n + c, x)
    ensures Canonical(a + m + c) && Free(m, x) ==> !Free(a, x) && !Free(c, x)
  {
    FreeThree(a, m, c, x);
    FreeThree(a, n, c, x);
    if Canonical(a + m + c) && Free(m, x) {
      CanonicalConcat(a + m, c);
      CanonicalConcat(a, m);
      BeforeApart(a, m, x);
      BeforeApart(a + m, c, x);
      FreeConcat(a, m, x);
    }
  }

  lemma BeforeApart(a: seq<Buffer>, c: seq<Buffer>, x: int)
    requires Before(a, c)
    ensures !(Free(a, x) && Free(c, x))
  {
  }

  // ----- One list for each set -----

  lemma FreeFrom(b: seq<Buffer>, x: int)
    requires Canonical(b) && b != [] && x >= b[0].bottom
    ensures Free(b, x) <==> Free(b[1..], x)
  {
    FreeConcat([b[0]], b[1..], x);
    assert [b[0]] + b[1..] == b;
    FreeOne(b[0], x);
  }

  /** The first range is where the set begins, up to its first gap. */
  lemma FirstRange(b: seq<Buffer>)
    requires Canonical(b) && b != []
    ensures forall x :: b[0].top <= x < b[0].bottom ==> Free(b, x)
    ensures forall x :: x < b[0].top ==> !Free(b, x)
    ensures !Free(b, b[0].bottom)
  {
    assert forall x :: Holds(b[0], x) ==> Free(b, x);
  }

  /** Two canonical lists that denote the same set are the same list: the order in which ranges were added
      and removed leaves no trace. */
  lemma {:induction false} CanonicalUnique(a: seq<Buffer>, b: seq<Buffer>)
    requires Canonical(a) && Canonical(b) && forall x :: Free(a, x) <==> Free(b, x)
    ensures a == b
  {
    if a != [] {
      FirstRange(a);
      assert Free(a, a[0].top);
      assert b != [];
    }
    if b != [] {
      FirstRange(b);
      assert Free(b, b[0].top);
      assert a != [];
      assert a[0] == b[0] by {
        assert Free(a, a[0].top) && Free(b, b[0].top) && !Free(a, a[0].bottom) && !Free(b, b[0].bottom);
      }
      forall x ensures Free(a[1..], x) <==> Free(b[1..], x) {
        if x >= a[0].bottom {
          FreeFrom(a, x);
          FreeFrom(b, x);
        }
      }
      CanonicalUnique(a[1..], b[1..]);
      assert [a[0]] + a[1..] == a && [b[0]] + b[1..] == b;
    }
  }

  // ----- Adding -----

  ghost predicate Added(b: seq<Buffer>, c: seq<Buffer>, r: Buffer) {
    forall x :: Free(c, x) <==> Free(b, x) || Holds(r, x)
  }

  ghost predicate Removed(b: seq<Buffer>, c: seq<Buffer>, r: Buffer) {
    forall x :: Free(c, x) <==> Free(b, x) && !Holds(r, x)
  }

  /** The overlap that AddSpace looks for: an end of `r` lies in `u`. */
  predicate EndsIn(u: Buffer, r: Buffer) {
    u.top <= r.top < u.bottom || u.top < r.bottom <= u.bottom
  }

  /** Adding a range that is not turned away: the set grows by the range if they were disjoint, and the
      list is spoilt if they were not. */
  ghost predicate AddOutcome(b: seq<Buffer>, c: seq<Buffer>, r: Buffer) {
    && (NoneFree(b, r) ==> Canonical(c) && Added(b, c, r))
    && (!NoneFree(b, r) ==> !Canonical(c))
  }

  lemma Disjoint(b: seq<Buffer>, r: Buffer, i: nat)
    requires Canonical(b) && NoneFree(b, r) && r.top < r.bottom && i < |b|
    ensures b[i].bottom <= r.top || r.bottom <= b[i].top
  {
    var x := if r.top < b[i].top then b[i].top else r.top;
    if b[i].bottom > r.top && r.bottom > b[i].top {
      assert Holds(r, x) && Holds(b[i], x);
    }
  }

  /** A range that overlaps nothing free is not turned away. */
  lemma DisjointAccepted(b: seq<Buffer>, r: Buffer)
    requires Canonical(b) && NoneFree(b, r) && r.top < r.bottom
    ensures forall i :: 0 <= i < |b| ==> !EndsIn(b[i], r)
  {
    forall i | 0 <= i < |b| ensures !EndsIn(b[i], r) {
      Disjoint(b, r, i);
    }
  }

  /** An overlap that goes unnoticed is with a range strictly inside the new one. */
  lemma Unnoticed(b: seq<Buffer>, r: Buffer) returns (e: nat)
    requires !NoneFree(b, r) && forall i :: 0 <= i < |b| ==> !EndsIn(b[i], r)
    ensures e < |b| && r.top < b[e].top && b[e].bottom < r.bottom
  {
    var x :| Holds(r, x) && Free(b, x);
    e :| 0 <= e < |b| && Holds(b[e], x);
    assert !EndsIn(b[e], r);
  }

  lemma SpoiltBy(c: seq<Buffer>, i: nat, j: nat, x: int)
    requires i < |c| && j < |c| && i != j && Holds(c[i], x) && Holds(c[j], x)
    ensures !Canonical(c)
  {
  }

  /** What the loop knows of the ranges it has passed. */
  ghost predicate PassedAt(b: seq<Buffer>, r: Buffer, k: nat)
    requires k < |b|
  {
    && !EndsIn(b[k], r) && b[k].top < r.bottom
    && (b[k].bottom == r.top ==> k + 1 < |b| && r.bottom > b[k + 1].top)
  }

  ghost predicate Passed(b: seq<Buffer>, r: Buffer, i: nat) {
    i <= |b| && r.top < r.bottom && forall k :: 0 <= k < i ==> PassedAt(b, r, k)
  }

  lemma PassedGap(b: seq<Buffer>, r: Buffer, i: nat, k: nat)
    requires Canonical(b) && Passed(b, r, i) && k < i && NoneFree(b, r)
    ensures b[k].bottom < r.top
  {
    assert PassedAt(b, r, k);
    Disjoint(b, r, k);
    if b[k].bottom == r.top {
      Disjoint(b, r, k + 1);
    }
  }

  /** The new range goes in before range `i`, or at the end. */
  lemma AddInserts(b: seq<Buffer>, r: Buffer, i: nat)
    requires Canonical(b) && Passed(b, r, i) && (i < |b| ==> r.bottom < b[i].top)
    ensures AddOutcome(b, b[..i] + [r] + b[i..], r)
  {
    var a, c := b[..i], b[i..];
    var s := a + [r] + c;
    assert a + [] + c == b;
    if NoneFree(b, r) {
      forall k | 0 <= k < i ensures b[k].bottom < r.top {
        PassedGap(b, r, i, k);
      }
      CanonicalReplace(a, [], c, [r]);
      forall x ensures Free(s, x) <==> Free(b, x) || Holds(r, x) {
        FreeThree(a, [r], c, x);
        FreeThree(a, [], c, x);
        FreeOne(r, x);
      }
    } else {
      forall k | 0 <= k < |b| ensures !EndsIn(b[k], r) {
        assert k < i ==> PassedAt(b, r, k);
      }
      var e := Unnoticed(b, r);
      assert s[i] == r && s[if e < i then e else e + 1] == b[e];
      SpoiltBy(s, i, if e < i then e else e + 1, b[e].top);
    }
  }

  /** The new range ends where range `i` begins. */
  lemma AddExtendsTop(b: seq<Buffer>, r: Buffer, i: nat)
    requires Canonical(b) && Passed(b, r, i) && i < |b| && r.bottom == b[i].top
    ensures AddOutcome(b, b[i := b[i].(top := r.top)], r)
  {
    var a, c, u := b[..i], b[i + 1..], Buffer(r.top, b[i].bottom);
    var s := b[i := u];
    assert a + [b[i]] + c == b && a + [u] + c == s;
    if NoneFree(b, r) {
      forall k | 0 <= k < i ensures b[k].bottom < r.top {
        PassedGap(b, r, i, k);
      }
      CanonicalReplace(a, [b[i]], c, [u]);
      forall x ensures Free(s, x) <==> Free(b, x) || Holds(r, x) {
        FreeThree(a, [u], c, x);
        FreeThree(a, [b[i]], c, x);
        FreeOne(u, x);
        FreeOne(b[i], x);
      }
    } else {
      forall k | 0 <= k < |b| ensures !EndsIn(b[k], r) {
        assert k < i ==> PassedAt(b, r, k);
      }
      var e := Unnoticed(b, r);
      SpoiltBy(s, i, e, b[e].top);
    }
  }

  /** The new range begins where range `i` ends, and ends before the next one begins. */
  lemma AddExtendsBottom(b: seq<Buffer>, r: Buffer, i: nat)
    requires Canonical(b) && Passed(b, r, i) && i < |b| && r.top == b[i].bottom
    requires i + 1 < |b| ==> r.bottom < b[i + 1].top
    ensures AddOutcome(b, b[i := b[i].(bottom := r.bottom)], r)
  {
    var a, c, u := b[..i], b[i + 1..], Buffer(b[i].top, r.bottom);
    var s := b[i := u];
    assert a + [b[i]] + c == b && a + [u] + c == s;
    CanonicalReplace(a, [b[i]], c, [u]);
    forall x ensures (Free(s, x) <==> Free(b, x) || Holds(r, x)) && !(Free(b, x) && Holds(r, x)) {
      FreeThree(a, [u], c, x);
      FreeThree(a, [b[i]], c, x);
      FreeOne(u, x);
      FreeOne(b[i], x);
    }
  }

  /** The new range fills the gap between two ranges. */
  lemma AddMerges(b: seq<Buffer>, r: Buffer, i: nat)
    requires Canonical(b) && Passed(b, r, i) && i + 1 < |b| && r.top == b[i].bottom && r.bottom == b[i + 1].top
    ensures AddOutcome(b, b[..i] + [Buffer(b[i].top, b[i + 1].bottom)] + b[i + 2..], r)
  {
    var a, c, u := b[..i], b[i + 2..], Buffer(b[i].top, b[i + 1].bottom);
    var s, m := a + [u] + c, [b[i], b[i + 1]];
    assert a + m + c == b;
    CanonicalReplace(a, m, c, [u]);
    forall x ensures (Free(s, x) <==> Free(b, x) || Holds(r, x)) && !(Free(b, x) && Holds(r, x)) {
      FreeThree(a, [u], c, x);
      FreeThree(a, m, c, x);
      FreeOne(u, x);
      FreeTwo(b[i], b[i + 1], x);
    }
  }

  /** The `size` offsets from `x` on are free. */
  ghost predicate RunAt(b: seq<Buffer>, x: int, size: int) { AllFree(b, Buffer(x, x + size)) }

  // ----- Removing -----

  ghost predicate SubOutcome(b: seq<Buffer>, c: seq<Buffer>, r: Buffer) {
    Canonical(c) && AllFree(b, r) && Removed(b, c, r)
  }

  /** Cutting `r` out of range `i` leaves the parts `n` of it. */
  lemma Cuts(b: seq<Buffer>, i: nat, r: Buffer, n: seq<Buffer>)
    requires Canonical(b) && i < |b| && b[i].top <= r.top < r.bottom <= b[i].bottom && Canonical(n)
    requires forall x :: Free(n, x) <==> Holds(b[i], x) && !Holds(r, x)
    requires forall k :: 0 <= k < |n| ==> b[i].top <= n[k].top && n[k].bottom <= b[i].bottom
    ensures SubOutcome(b, b[..i] + n + b[i + 1..], r)
  {
    var a, c, m := b[..i], b[i + 1..], [b[i]];
    var s := a + n + c;
    assert a + m + c == b;
    CanonicalReplace(a, m, c, n);
    forall x
      ensures Free(s, x) <==> Free(b, x) && !Holds(r, x)
      ensures Holds(r, x) ==> Free(b, x)
    {
      FreeThree(a, m, c, x);
      FreeThree(a, n, c, x);
      FreeOne(b[i], x);
      FreeReplace(a, m, c, n, x);
    }
  }

  /** A range that is free throughout lies in a single range of the list. */
  lemma InOneBuffer(b: seq<Buffer>, r: Buffer) returns (i: nat)
    requires Canonical(b) && r.top < r.bottom && AllFree(b, r)
    ensures i < |b| && b[i].top <= r.top && r.bottom <= b[i].bottom
  {
    assert Holds(r, r.top);
    i :| 0 <= i < |b| && Holds(b[i], r.top);
    BottomNotFree(b, i);
    assert !Holds(r, b[i].bottom);
  }

  lemma BottomNotFree(b: seq<Buffer>, i: nat)
    requires Canonical(b) && i < |b|
    ensures !Free(b, b[i].bottom)
  {
    forall j | 0 <= j < |b| ensures !Holds(b[j], b[i].bottom) {
      assert j < i ==> b[j].bottom < b[i].top;
    }
  }

  class Space {
    var buffers: seq<Buffer>

    ghost predicate Valid()
      reads this
    {
      Canonical(buffers)
    }

    constructor ()
      ensures Valid() && buffers == []
    {
      buffers := [];
    }

    /** AddSpace. It turns a range away exactly when one of its ends lies in a free range, and then changes
        nothing; otherwise the set grows by the range, unless the range strictly encloses a free one. */
    method AddSpace(offset: int, size: nat) returns (ok: bool)
      requires Valid()
      modifies this
      ensures ok == (size == 0 || forall i :: 0 <= i < |old(buffers)| ==>
        !EndsIn(old(buffers)[i], Buffer(offset, offset + size)))
      ensures !ok || size == 0 ==> buffers == old(buffers)
      ensures ok && size > 0 ==> AddOutcome(old(buffers), buffers, Buffer(offset, offset + size))
    {
      if size == 0 {
        return true;
      }
      var r := Buffer(offset, offset + size);
      var i := 0;
      while i < |buffers|
        invariant buffers == old(buffers) && Passed(buffers, r, i)
      {
        var u := buffers[i];
        if EndsIn(u, r) {
          return false;
        }
        if r.bottom < u.top {
          NotEnding(buffers, r, i);
          AddInserts(buffers, r, i);
          buffers := buffers[..i] + [r] + buffers[i..];
          return true;
        } else if r.bottom == u.top {
          NotEnding(buffers, r, i);
          AddExtendsTop(buffers, r, i);
          buffers := buffers[i := u.(top := r.top)];
          return true;
        } else if r.top == u.bottom {
          if i + 1 == |buffers| || r.bottom < buffers[i + 1].top {
            NotEnding(buffers, r, i);
            AddExtendsBottom(buffers, r, i);
            buffers := buffers[i := u.(bottom := r.bottom)];
            return true;
          } else if r.bottom == buffers[i + 1].top {
            NotEnding(buffers, r, i);
            AddMerges(buffers, r, i);
            buffers := buffers[..i] + [Buffer(u.top, buffers[i + 1].bottom)] + buffers[i + 2..];
            return true;
          }
        }
        i := i + 1;
      }
      NotEnding(buffers, r, i);
      AddInserts(buffers, r, i);
      buffers := buffers + [r];
      assert old(buffers)[..i] + [r] + old(buffers)[i..] == buffers;
      return true;
    }

    /** SubSpace. It succeeds exactly for ranges that are free throughout, and takes them out of the set. */
    method SubSpace(offset: int, size: nat) returns (ok: bool)
      requires Valid()
      modifies this
      ensures Valid() && (ok <==> AllFree(old(buffers), Buffer(offset, offset + size)))
      ensures ok ==> Removed(old(buffers), buffers, Buffer(offset, offset + size))
      ensures !ok ==> buffers == old(buffers)
    {
      if size == 0 {
        return true;
      }
      var r := Buffer(offset, offset + size);
      var i := 0;
      while i < |buffers|
        invariant i <= |buffers| && buffers == old(buffers)
        invariant forall k :: 0 <= k < i ==> !(buffers[k].top <= r.top && r.bottom <= buffers[k].bottom)
      {
        var u := buffers[i];
        if r.top == u.top && r.bottom == u.bottom {
          Cuts(buffers, i, r, []);
          buffers := buffers[..i] + buffers[i + 1..];
          assert old(buffers)[..i] + [] + old(buffers)[i + 1..] == buffers;
          return true;
        } else if r.top == u.top && r.bottom < u.bottom {
          CutOne(buffers, i, r, Buffer(r.bottom, u.bottom));
          buffers := buffers[i := u.(top := r.bottom)];
          return true;
        } else if r.top > u.top && r.bottom == u.bottom {
          CutOne(buffers, i, r, Buffer(u.top, r.top));
          buffers := buffers[i := u.(bottom := r.top)];
          return true;
        } else if r.top > u.top && r.bottom < u.bottom {
          CutTwo(buffers, i, r);
          buffers := buffers[..i] + [u.(bottom := r.top), Buffer(r.bottom, u.bottom)] + buffers[i + 1..];
          return true;
        }
        i := i + 1;
      }
      if AllFree(buffers, r) {
        ghost var k := InOneBuffer(buffers, r);
      }
      return false;
    }

    /** Clear. */
    method Clear()
      modifies this
      ensures Valid() && forall x :: !Free(buffers, x)
    {
      buffers := [];
    }

    /** GetSpace: the lowest run of free offsets that is long enough, or -1 if there is none. */
    method GetSpace(size: int) returns (offset: int)
      requires Valid() && forall i :: 0 <= i < |buffers| ==> buffers[i].top >= 0
      ensures size > 0 ==>
        && (offset != -1 ==> RunAt(buffers, offset, size))
        && forall x :: RunAt(buffers, x, size) ==> 0 <= offset <= x
      ensures size <= 0 ==> offset == if buffers == [] then -1 else buffers[0].top
    {
      for i := 0 to |buffers|
        invariant forall k :: 0 <= k < i ==> buffers[k].bottom - buffers[k].top < size
      {
        if buffers[i].bottom - buffers[i].top >= size {
          LowestFit(buffers, size, i);
          return buffers[i].top;
        }
      }
      LowestFit(buffers, size, |buffers|);
      return -1;
    }
  }

  lemma NotEnding(b: seq<Buffer>, r: Buffer, i: nat)
    requires Canonical(b) && Passed(b, r, i) && i <= |b|
    requires i < |b| ==>
      && !EndsIn(b[i], r)
      && (r.bottom <= b[i].top || (r.top == b[i].bottom && (i + 1 < |b| ==> r.bottom <= b[i + 1].top)))
    ensures forall k :: 0 <= k < |b| ==> !EndsIn(b[k], r)
  {
    forall k | 0 <= k < |b| ensures !EndsIn(b[k], r) {
      if k < i {
        assert PassedAt(b, r, k);
      }
    }
  }

  lemma CutOne(b: seq<Buffer>, i: nat, r: Buffer, n: Buffer)
    requires Canonical(b) && i < |b| && b[i].top <= r.top < r.bottom <= b[i].bottom && n.top < n.bottom
    requires (n == Buffer(r.bottom, b[i].bottom) && r.top == b[i].top)
      || (n == Buffer(b[i].top, r.top) && r.bottom == b[i].bottom)
    ensures SubOutcome(b, b[i := n], r)
  {
    forall x ensures Free([n], x) <==> Holds(b[i], x) && !Holds(r, x) {
      FreeOne(n, x);
    }
    Cuts(b, i, r, [n]);
    assert b[..i] + [n] + b[i + 1..] == b[i := n];
  }

  lemma CutTwo(b: seq<Buffer>, i: nat, r: Buffer)
    requires Canonical(b) && i < |b| && b[i].top < r.top < r.bottom < b[i].bottom
    ensures SubOutcome(b, b[..i] + [Buffer(b[i].top, r.top), Buffer(r.bottom, b[i].bottom)] + b[i + 1..], r)
  {
    var n := [Buffer(b[i].top, r.top), Buffer(r.bottom, b[i].bottom)];
    forall x ensures Free(n, x) <==> Holds(b[i], x) && !Holds(r, x) {
      FreeTwo(n[0], n[1], x);
    }
    Cuts(b, i, r, n);
  }

  lemma LowestFit(b: seq<Buffer>, size: int, i: nat)
    requires Canonical(b) && i <= |b| && forall k :: 0 <= k < i ==> b[k].bottom - b[k].top < size
    requires i < |b| ==> b[i].bottom - b[i].top >= size
    ensures i < |b| ==> RunAt(b, b[i].top, size)
    ensures size > 0 ==> forall x :: RunAt(b, x, size) ==> i < |b| && b[i].top <= x
  {
    forall x | size > 0 && RunAt(b, x, size) ensures i < |b| && b[i].top <= x {
      var j := InOneBuffer(b, Buffer(x, x + size));
    }
    if i < |b| {
      forall x | Holds(Buffer(b[i].top, b[i].top + size), x) ensures Free(b, x) {
        assert Holds(b[i], x);
      }
    }
  }

  /** A free range that the new one strictly encloses goes unnoticed, and spoils the list. */
  lemma EnclosedSpoils()
    ensures
      var b, r := [Buffer(2, 3)], Buffer(1, 4);
      && Canonical(b) && !NoneFree(b, r) && (forall i :: 0 <= i < |b| ==> !EndsIn(b[i], r))
      && forall c :: AddOutcome(b, c, r) ==> !Canonical(c)
  {
    var b, r := [Buffer(2, 3)], Buffer(1, 4);
    FreeOne(b[0], 2);
    assert Holds(r, 2) && Free(b, 2);
  }
}
