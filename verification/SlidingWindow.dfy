/** The encoders' circular window: for every byte value a doubly linked list, threaded through flat
    tables, of the places in the last `size` bytes where that value stands. LZ77, Yaz0 and backward
    LZ77 share it; LZ77 does not keep the reversed links. */
module SlidingWindow {
  import opened Bytes

  /** The positions of byte `b` in `hist[lo..]`, in ascending order. */
  function Positions(hist: seq<byte>, lo: nat, b: byte): seq<nat>
    decreases |hist|
  {
    if |hist| <= lo then []
    else
      var n := |hist| - 1;
      Positions(hist[..n], lo, b) + if hist[n] == b then [n] else []
  }

  /** `ps` lists exactly the positions of `b`, oldest first. */
  ghost predicate ListsAll(hist: seq<byte>, lo: nat, b: byte, ps: seq<nat>) {
    && (forall i :: 0 <= i < |ps| ==> lo <= ps[i] < |hist| && hist[ps[i]] == b)
    && (forall i, j :: 0 <= i < j < |ps| ==> ps[i] < ps[j])
    && (forall q :: lo <= q < |hist| && hist[q] == b ==> q in ps)
  }

  lemma {:induction false} PositionsListAll(hist: seq<byte>, lo: nat, b: byte)
    ensures ListsAll(hist, lo, b, Positions(hist, lo, b))
    decreases |hist|
  {
    if |hist| > lo {
      var n := |hist| - 1;
      PositionsListAll(hist[..n], lo, b);
      forall q | lo <= q < |hist| && hist[q] == b ensures q in Positions(hist, lo, b) {
        if q < n {
          assert hist[..n][q] == b;
        }
      }
    }
  }

  /** Forgetting the oldest byte drops the head of its list and leaves the other lists alone. */
  lemma {:induction false} PositionsEvict(hist: seq<byte>, lo: nat, b: byte)
    requires lo < |hist|
    ensures hist[lo] == b ==> Positions(hist, lo, b) == [lo] + Positions(hist, lo + 1, b)
    ensures hist[lo] != b ==> Positions(hist, lo, b) == Positions(hist, lo + 1, b)
    decreases |hist|
  {
    var n := |hist| - 1;
    if lo < n {
      PositionsEvict(hist[..n], lo, b);
    } else {
      assert Positions(hist[..n], lo, b) == [];
    }
  }

  /** Between two listed positions the byte does not occur. */
  lemma GapsAreForeign(hist: seq<byte>, lo: nat, b: byte, ps: seq<nat>, i: nat)
    requires ListsAll(hist, lo, b, ps) && i <= |ps|
    ensures forall q :: (if i == 0 then lo else ps[i - 1] + 1) <= q < (if i == |ps| then |hist| else ps[i]) ==>
      hist[q] != b
  {
    forall q | (if i == 0 then lo else ps[i - 1] + 1) <= q < (if i == |ps| then |hist| else ps[i])
      ensures hist[q] != b
    {
      forall j | 0 <= j < |ps| ensures ps[j] != q {
        assert j < i ==> ps[j] <= ps[i - 1];
        assert i < j ==> ps[i] < ps[j];
      }
    }
  }

  // ----- The tables as values -----

  datatype Tables = Tables(next: seq<int>, prev: seq<int>, first: seq<int>, last: seq<int>)

  ghost predicate Shaped(t: Tables, size: nat) {
    |t.next| == size && |t.prev| == size && |t.first| == 256 && |t.last| == 256
  }

  ghost predicate InRing(slots: seq<nat>, size: nat) {
    forall p :: 0 <= p < |slots| ==> slots[p] < size
  }

  /** `slots` gives every position its place in the ring; live positions do not share places. */
  ghost predicate SlotsFor(slots: seq<nat>, lo: nat, size: nat) {
    && InRing(slots, size)
    && (forall p, q :: lo <= p < q < |slots| ==> slots[p] != slots[q])
  }

  /** The links at the `i`-th position of a chain. */
  ghost predicate LinkedAt(t: Tables, slots: seq<nat>, size: nat, ps: seq<nat>, i: nat)
    requires Shaped(t, size) && InRing(slots, size) && i < |ps|
    requires forall j :: 0 <= j < |ps| ==> ps[j] < |slots|
  {
    && t.next[slots[ps[i]]] == (if i + 1 < |ps| then slots[ps[i + 1]] else -1)
    && t.prev[slots[ps[i]]] == (if i > 0 then slots[ps[i - 1]] else -1)
  }

  /** The chain of byte `b` runs through the positions `ps`, forwards and backwards. */
  ghost predicate Linked(t: Tables, slots: seq<nat>, size: nat, b: byte, ps: seq<nat>)
    requires Shaped(t, size) && InRing(slots, size)
  {
    && (forall i :: 0 <= i < |ps| ==> ps[i] < |slots|)
    && (ps == [] ==> t.first[b] == -1 && t.last[b] == -1)
    && (ps != [] ==> t.first[b] == slots[ps[0]] && t.last[b] == slots[ps[|ps| - 1]])
    && (forall i :: 0 <= i < |ps| ==> LinkedAt(t, slots, size, ps, i))
  }

  ghost predicate AllLinked(t: Tables, slots: seq<nat>, size: nat, hist: seq<byte>, lo: nat)
    requires Shaped(t, size) && InRing(slots, size)
  {
    forall b: byte :: Linked(t, slots, size, b, Positions(hist, lo, b))
  }

  /** The effect of forgetting the oldest byte `b`. */
  ghost function Evict(t: Tables, b: byte): Tables
    requires |t.first| == 256 && |t.last| == 256 && 0 <= t.first[b] < |t.next|
    requires t.next[t.first[b]] < |t.prev|
  {
    var h := t.next[t.first[b]];
    if h < 0 then t.(first := t.first[b := h], last := t.last[b := -1])
    else t.(first := t.first[b := h], prev := t.prev[h := -1])
  }

  /** The effect of appending byte `b` at ring place `slot`. */
  ghost function Insert(t: Tables, b: byte, slot: nat): Tables
    requires |t.first| == 256 && |t.last| == 256 && slot < |t.next| && slot < |t.prev|
    requires t.last[b] < |t.next|
  {
    var e := t.last[b];
    Tables((if e < 0 then t.next else t.next[e := slot])[slot := -1], t.prev[slot := e],
           if e < 0 then t.first[b := slot] else t.first, t.last[b := slot])
  }

  lemma EvictOwn(t: Tables, slots: seq<nat>, size: nat, b: byte, lo: nat, ps: seq<nat>)
    requires Shaped(t, size) && SlotsFor(slots, lo, size) && lo < |slots|
    requires Linked(t, slots, size, b, [lo] + ps)
    requires forall i :: 0 <= i < |ps| ==> lo < ps[i] < |slots|
    requires forall i, j :: 0 <= i < j < |ps| ==> ps[i] < ps[j]
    ensures 0 <= t.first[b] < size && -1 <= t.next[t.first[b]] < size
    ensures Linked(Evict(t, b), slots, size, b, ps)
  {
    var qs := [lo] + ps;
    assert qs[0] == lo;
    assert LinkedAt(t, slots, size, qs, 0);
    var t' := Evict(t, b);
    forall i | 0 <= i < |ps|
      ensures LinkedAt(t', slots, size, ps, i)
    {
      assert LinkedAt(t, slots, size, qs, i + 1);
      assert qs[i + 1] == ps[i];
      if i > 0 {
        assert qs[i] == ps[i - 1];
        assert slots[ps[i]] != slots[ps[0]];
      }
      if i + 1 < |ps| {
        assert qs[i + 2] == ps[i + 1];
      }
    }
    if |ps| > 0 {
      assert qs[1] == ps[0] && qs[|qs| - 1] == ps[|ps| - 1];
    }
  }

  /** Eviction rewrites one `prev` link only, at a place that belongs to the evicted byte's chain. */
  lemma EvictOther(t: Tables, slots: seq<nat>, size: nat, b: byte, c: byte, ps: seq<nat>)
    requires Shaped(t, size) && InRing(slots, size) && b != c
    requires Linked(t, slots, size, c, ps)
    requires 0 <= t.first[b] < size && t.next[t.first[b]] < size
    requires forall i :: 0 <= i < |ps| ==> slots[ps[i]] != t.next[t.first[b]]
    ensures Linked(Evict(t, b), slots, size, c, ps)
  {
    forall i | 0 <= i < |ps|
      ensures LinkedAt(Evict(t, b), slots, size, ps, i)
    {
      assert LinkedAt(t, slots, size, ps, i);
    }
  }

  lemma InsertOwn(t: Tables, slots: seq<nat>, size: nat, b: byte, lo: nat, ps: seq<nat>, slot: nat)
    requires Shaped(t, size) && SlotsFor(slots + [slot], lo, size) && slot < size && InRing(slots, size)
    requires Linked(t, slots, size, b, ps)
    requires forall i :: 0 <= i < |ps| ==> lo <= ps[i] < |slots|
    requires forall i, j :: 0 <= i < j < |ps| ==> ps[i] < ps[j]
    ensures -1 <= t.last[b] < size
    ensures Linked(Insert(t, b, slot), slots + [slot], size, b, ps + [|slots|])
  {
    var t', qs, sl := Insert(t, b, slot), ps + [|slots|], slots + [slot];
    forall i | 0 <= i < |ps|
      ensures sl[ps[i]] == slots[ps[i]] && slots[ps[i]] != slot
      ensures i + 1 < |ps| ==> slots[ps[i]] != slots[ps[|ps| - 1]]
    {
      assert sl[ps[i]] != sl[|slots|];
      if i + 1 < |ps| {
        assert ps[i] < ps[|ps| - 1];
        assert sl[ps[i]] != sl[ps[|ps| - 1]];
      }
    }
    assert sl[|slots|] == slot && t'.prev[slot] == t.last[b];
    assert qs[|ps|] == |slots|;
    forall i | 0 <= i < |qs|
      ensures LinkedAt(t', sl, size, qs, i)
    {
      if i < |ps| {
        assert LinkedAt(t, slots, size, ps, i);
        assert qs[i] == ps[i];
      }
      if i > 0 {
        assert qs[i - 1] == ps[i - 1];
      }
    }
  }

  /** Insertion rewrites links only at the new place and at the end of the inserted byte's chain. */
  lemma InsertOther(t: Tables, slots: seq<nat>, size: nat, b: byte, c: byte, ps: seq<nat>, slot: nat)
    requires Shaped(t, size) && InRing(slots + [slot], size) && slot < size && b != c
    requires InRing(slots, size)
    requires Linked(t, slots, size, c, ps) && t.last[b] < size
    requires forall i :: 0 <= i < |ps| ==> slots[ps[i]] != slot && slots[ps[i]] != t.last[b]
    ensures Linked(Insert(t, b, slot), slots + [slot], size, c, ps)
  {
    var t', sl := Insert(t, b, slot), slots + [slot];
    forall i | 0 <= i < |ps|
      ensures LinkedAt(t', sl, size, ps, i)
    {
      assert LinkedAt(t, slots, size, ps, i);
      assert sl[ps[i]] == slots[ps[i]];
    }
  }

  // ----- All 256 chains -----

  lemma EvictAll(t: Tables, slots: seq<nat>, size: nat, hist: seq<byte>, lo: nat)
    requires Shaped(t, size) && SlotsFor(slots, lo, size) && |slots| == |hist| && lo < |hist|
    requires AllLinked(t, slots, size, hist, lo)
    ensures 0 <= t.first[hist[lo]] < size && -1 <= t.next[t.first[hist[lo]]] < size
    ensures AllLinked(Evict(t, hist[lo]), slots, size, hist, lo + 1)
  {
    var b := hist[lo];
    var ps := Positions(hist, lo + 1, b);
    PositionsEvict(hist, lo, b);
    PositionsListAll(hist, lo + 1, b);
    assert Linked(t, slots, size, b, [lo] + ps);
    EvictOwn(t, slots, size, b, lo, ps);
    var lo' := lo + 1;
    forall c: byte
      ensures Linked(Evict(t, b), slots, size, c, Positions(hist, lo', c))
    {
      assert Linked(t, slots, size, c, Positions(hist, lo, c));
      if c != b {
        EvictKeeps(t, slots, size, hist, lo, c);
      }
    }
  }

  lemma EvictKeeps(t: Tables, slots: seq<nat>, size: nat, hist: seq<byte>, lo: nat, c: byte)
    requires Shaped(t, size) && SlotsFor(slots, lo, size) && |slots| == |hist| && lo < |hist| && c != hist[lo]
    requires Linked(t, slots, size, hist[lo], Positions(hist, lo, hist[lo]))
    requires Linked(t, slots, size, c, Positions(hist, lo, c))
    requires 0 <= t.first[hist[lo]] < size && t.next[t.first[hist[lo]]] < size
    ensures Linked(Evict(t, hist[lo]), slots, size, c, Positions(hist, lo + 1, c))
  {
    var b := hist[lo];
    var ps, qs := Positions(hist, lo, c), Positions(hist, lo, b);
    PositionsEvict(hist, lo, c);
    PositionsEvict(hist, lo, b);
    PositionsListAll(hist, lo, c);
    PositionsListAll(hist, lo, b);
    assert t.first[b] == slots[qs[0]];
    forall i | 0 <= i < |ps| ensures slots[ps[i]] != t.next[t.first[b]] {
      assert LinkedAt(t, slots, size, qs, 0);
      if |qs| > 1 {
        assert hist[ps[i]] == c && hist[qs[1]] == b;
        assert ps[i] < qs[1] || qs[1] < ps[i];
      }
    }
    EvictOther(t, slots, size, b, c, ps);
  }

  lemma PositionsSnoc(hist: seq<byte>, x: byte, lo: nat, c: byte)
    requires lo <= |hist|
    ensures Positions(hist + [x], lo, c) == Positions(hist, lo, c) + if c == x then [|hist|] else []
  {
    assert (hist + [x])[..|hist|] == hist;
  }

  lemma InsertAll(t: Tables, slots: seq<nat>, size: nat, hist: seq<byte>, lo: nat, x: byte, slot: nat)
    requires Shaped(t, size) && InRing(slots, size) && slot < size && SlotsFor(slots + [slot], lo, size)
    requires |slots| == |hist| && lo <= |hist|
    requires AllLinked(t, slots, size, hist, lo)
    ensures -1 <= t.last[x] < size
    ensures AllLinked(Insert(t, x, slot), slots + [slot], size, hist + [x], lo)
  {
    var ps := Positions(hist, lo, x);
    PositionsListAll(hist, lo, x);
    assert Linked(t, slots, size, x, ps);
    InsertOwn(t, slots, size, x, lo, ps, slot);
    forall c: byte
      ensures Linked(Insert(t, x, slot), slots + [slot], size, c, Positions(hist + [x], lo, c))
    {
      PositionsSnoc(hist, x, lo, c);
      if c != x {
        assert Linked(t, slots, size, c, Positions(hist, lo, c));
        InsertKeeps(t, slots, size, hist, lo, x, slot, c);
        assert Positions(hist + [x], lo, c) == Positions(hist, lo, c);
      }
    }
  }

  lemma InsertKeeps(t: Tables, slots: seq<nat>, size: nat, hist: seq<byte>, lo: nat, x: byte, slot: nat, c: byte)
    requires Shaped(t, size) && InRing(slots, size) && slot < size && SlotsFor(slots + [slot], lo, size)
    requires |slots| == |hist| && lo <= |hist| && c != x && t.last[x] < size
    requires Linked(t, slots, size, x, Positions(hist, lo, x))
    requires Linked(t, slots, size, c, Positions(hist, lo, c))
    ensures Linked(Insert(t, x, slot), slots + [slot], size, c, Positions(hist, lo, c))
  {
    var sl := slots + [slot];
    var ps, qs := Positions(hist, lo, c), Positions(hist, lo, x);
    PositionsListAll(hist, lo, c);
    PositionsListAll(hist, lo, x);
    forall i | 0 <= i < |ps| ensures slots[ps[i]] != slot && slots[ps[i]] != t.last[x] {
      assert sl[ps[i]] != sl[|slots|];
      if qs != [] {
        var q := qs[|qs| - 1];
        assert hist[ps[i]] != hist[q];
        assert sl[ps[i]] != sl[q];
      }
    }
    InsertOther(t, slots, size, x, c, ps, slot);
  }

  /** The ring places of the first `n` positions. */
  function Ring(n: nat, size: nat): (s: seq<nat>)
    requires size > 0
    ensures |s| == n && forall p :: 0 <= p < n ==> s[p] == p % size < size
  {
    seq(n, p requires 0 <= p < n => p % size)
  }

  lemma RingSlots(n: nat, lo: nat, size: nat)
    requires size > 0 && n <= lo + size
    ensures SlotsFor(Ring(n, size), lo, size)
  {
    var s := Ring(n, size);
    forall p, q | lo <= p < q < n ensures s[p] != s[q] {
      DistinctResidues(p, q, size);
    }
  }

  lemma DistinctResidues(p: nat, q: nat, size: nat)
    requires size > 0 && p < q < p + size
    ensures p % size != q % size
  {
    if p % size == q % size {
      var k := q / size - p / size;
      assert q - p == k * size by {
        assert q == q / size * size + q % size && p == p / size * size + p % size;
        assert k * size == q / size * size - p / size * size;
      }
      if k > 0 {
        NextMultiple(0, k, size);
      }
    }
  }

  /** The encoder's arithmetic recovers a position from its ring place. */
  lemma PositionOfSlot(q: nat, n: nat, size: nat)
    requires size > 0 && q < n <= q + size
    ensures
      var windowPos := if n < size then 0 else n % size;
      var windowLen := if n < size then n else size;
      q == if q % size < windowPos then n - windowPos + q % size else n - windowLen - windowPos + q % size
  {
    if n < size {
      DivModUnique(q, 0, q, size);
    } else {
      var a, w := n / size, n % size;
      var start := n - w;
      assert start == a * size;
      if q >= start {
        DivModUnique(q, a, q - start, size);
      } else {
        assert (a - 1) * size == a * size - size;
        assert a >= 1;
        DivModUnique(q, a - 1, q - (start - size), size);
      }
    }
  }

  // ----- The window itself -----

  class Window {
    const size: nat
    var windowPos: nat
    var windowLen: nat
    const next: array<int>
    const prev: array<int>
    const first: array<int>
    const last: array<int>
    /** Every byte slid in so far. */
    ghost var hist: seq<byte>

    ghost function Contents(): Tables
      reads next, prev, first, last
    {
      Tables(next[..], prev[..], first[..], last[..])
    }

    /** The first position still in the window. */
    ghost function Lo(): nat
      reads this
    {
      if |hist| < size then 0 else |hist| - size
    }

    ghost predicate Separate() {
      && size > 0
      && next.Length == size && prev.Length == size && first.Length == 256 && last.Length == 256
      && next != prev && next != first && next != last && prev != first && prev != last && first != last
    }

    /** The index agrees with the data: each chain lists exactly the window's positions of its byte. */
    ghost predicate Valid()
      reads this, next, prev, first, last
    {
      && Separate()
      && windowLen == Min(|hist|, size)
      && windowPos == (if |hist| < size then 0 else |hist| % size)
      && InRing(Ring(|hist|, size), size)
      && AllLinked(Contents(), Ring(|hist|, size), size, hist, Lo())
    }

    constructor (size: nat)
      requires size > 0
      ensures Valid() && this.size == size && hist == []
      ensures fresh(next) && fresh(prev) && fresh(first) && fresh(last)
    {
      this.size := size;
      windowPos, windowLen := 0, 0;
      next := new int[size];
      prev := new int[size];
      first := new int[256];
      last := new int[256];
      hist := [];
      new;
      for i := 0 to 256
        invariant Separate() && fresh(next) && fresh(prev) && fresh(first) && fresh(last)
        invariant hist == [] && windowPos == 0 && windowLen == 0
        invariant forall j :: 0 <= j < i ==> first[j] == -1 && last[j] == -1
      {
        first[i] := -1;
        last[i] := -1;
      }
      forall c: byte ensures Linked(Contents(), [], size, c, Positions(hist, 0, c)) {
        assert Positions(hist, 0, c) == [];
      }
    }

    /** Takes the head off the list of `outData`. */
    method DropOldest(outData: byte)
      requires Separate()
      requires 0 <= first[outData] < size && -1 <= next[first[outData]] < size
      modifies prev, first, last
      ensures Contents() == Evict(old(Contents()), outData)
    {
      var head := next[first[outData]];
      first[outData] := head;
      if head == -1 {
        last[outData] := -1;
      } else {
        prev[head] := -1;
      }
    }

    /** Puts a new place at the end of the list of `inData`. */
    method Append(inData: byte, insertOffset: nat)
      requires Separate() && insertOffset < size && -1 <= last[inData] < size
      modifies next, prev, first, last
      ensures Contents() == Insert(old(Contents()), inData, insertOffset)
    {
      var tail := last[inData];
      if tail == -1 {
        first[inData] := insertOffset;
      } else {
        next[tail] := insertOffset;
      }
      last[inData] := insertOffset;
      next[insertOffset] := -1;
      prev[insertOffset] := tail;
    }

    /** The oldest byte of a full window leaves it. */
    method Leave(outData: byte)
      requires Valid() && windowLen == size && outData == hist[|hist| - size]
      modifies prev, first, last
      ensures Separate() && InRing(Ring(|hist|, size), size)
      ensures AllLinked(Contents(), Ring(|hist|, size), size, hist, Lo() + 1)
    {
      RingSlots(|hist|, Lo(), size);
      EvictAll(Contents(), Ring(|hist|, size), size, hist, Lo());
      DropOldest(outData);
    }

    /** A byte joins the window at the next place of the ring. */
    method Join(inData: byte, insertOffset: nat, ghost lo: nat)
      requires Separate() && insertOffset == |hist| % size && lo <= |hist| < lo + size
      requires InRing(Ring(|hist|, size), size) && AllLinked(Contents(), Ring(|hist|, size), size, hist, lo)
      modifies next, prev, first, last
      ensures Separate() && InRing(Ring(|hist| + 1, size), size)
      ensures AllLinked(Contents(), Ring(|hist| + 1, size), size, hist + [inData], lo)
    {
      ghost var ring := Ring(|hist|, size);
      RingSlots(|hist| + 1, lo, size);
      assert Ring(|hist| + 1, size) == ring + [insertOffset];
      InsertAll(Contents(), ring, size, hist, lo, inData, insertOffset);
      Append(inData, insertOffset);
    }

    /** Slides one byte in. When the window is full the byte `size` places back, `outData`, leaves it. */
    method SlideByte(inData: byte, outData: byte)
      requires Valid()
      requires windowLen == size ==> outData == hist[|hist| - size]
      modifies this, next, prev, first, last
      ensures Valid() && hist == old(hist) + [inData]
    {
      NextCounters(|hist|, size, windowPos, windowLen);
      var insertOffset := windowLen;
      if windowLen == size {
        Leave(outData);
        insertOffset := windowPos;
      }
      Join(inData, insertOffset, if windowLen == size then Lo() + 1 else 0);
      Advance(inData, |hist| + 1);
    }

    /** Counts the byte that has joined. */
    method Advance(inData: byte, ghost n: nat)
      requires Separate() && n == |hist| + 1 && windowLen == Min(|hist|, size)
      requires windowPos == if |hist| < size then 0 else |hist| % size
      requires InRing(Ring(n, size), size)
      requires AllLinked(Contents(), Ring(n, size), size, hist + [inData], if n < size then 0 else n - size)
      modifies this
      ensures Valid() && hist == old(hist) + [inData]
    {
      NextCounters(|hist|, size, windowPos, windowLen);
      if windowLen == size {
        windowPos := (windowPos + 1) % size;
      } else {
        windowLen := windowLen + 1;
      }
      hist := hist + [inData];
      assert |hist| == n;
    }
  }

  /** The counters after one more byte. */
  lemma NextCounters(n: nat, size: nat, pos: nat, len: nat)
    requires size > 0 && len == Min(n, size) && pos == if n < size then 0 else n % size
    ensures (if len == size then pos else len) == n % size
    ensures (if n + 1 < size then 0 else (n + 1) % size) == if len == size then (pos + 1) % size else pos
    ensures Min(n + 1, size) == if len == size then len else len + 1
  {
    SlotIsResidue(n, size);
  }

  lemma SlotIsResidue(n: nat, size: nat)
    requires size > 0
    ensures n < size ==> n % size == n
    ensures (n % size + 1) % size == (n + 1) % size
    ensures n + 1 == size ==> (n + 1) % size == 0
  {
    if n < size {
      DivModUnique(n, 0, n, size);
    }
    ResidueStep(n / size, n % size, size, n);
  }

  lemma ResidueStep(q: nat, m: nat, size: nat, n: nat)
    requires n == q * size + m && m < size
    ensures (m + 1) % size == (n + 1) % size && (m + 1 == size ==> (n + 1) % size == 0)
  {
    if m + 1 < size {
      DivModUnique(n + 1, q, m + 1, size);
      DivModUnique(m + 1, 0, m + 1, size);
    } else {
      assert (q + 1) * size == q * size + size;
      DivModUnique(n + 1, q + 1, 0, size);
      DivModUnique(m + 1, 1, 0, size);
    }
  }
}
