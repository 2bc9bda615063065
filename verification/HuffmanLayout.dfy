/** How a code tree is laid out in byte pairs linked by six-bit offsets (src/huffman.cpp, makeHuffTree), and
    why the offsets are exact. */
module HuffmanLayout {
  import opened Bytes
  import opened HuffmanTable

  /** One byte of the layout: the subtree it stands for, whether its node still waits for a place, the value
      stored, the byte of its parent, and the byte pair of its children once it has been placed. */
  datatype Cell = Cell(tree: Tree, pending: bool, value: byte, owner: nat, pair: nat)

  /** A parent byte: bit 7 and bit 6 mark a leaf on the left and right, six bits hold the distance in byte
      pairs. The distance is combined by OR, so that one too large runs into the marks. */
  function ParentByte(leftLeaf: bool, rightLeaf: bool, distance: nat): (b: byte)
    ensures distance < 64 ==>
      b == distance + (if leftLeaf then 128 else 0) + if rightLeaf then 64 else 0
  {
    var d := distance % 256;
    d % 64 + (if leftLeaf || d / 128 % 2 == 1 then 128 else 0) + if rightLeaf || d / 64 % 2 == 1 then 64 else 0
  }

  function Child(t: Tree, owner: nat): Cell {
    if t.Leaf? then Cell(t, false, t.no % 256, owner, 0) else Cell(t, true, 0, owner, 0)
  }

  /** The first byte will hold the size; the second one stands for the root. */
  function Start(t: Tree): (s: seq<Cell>)
    requires t.Node?
    ensures |s| == 2
  {
    [Cell(Leaf(0), false, 0, 0, 0), Cell(t, true, 0, 0, 0)]
  }

  predicate Waiting(s: seq<Cell>, k: nat) { k < |s| && |s| % 2 == 0 && s[k].pending && s[k].tree.Node? }

  /** Whole byte pairs, in which only nodes wait. */
  predicate WellShaped(s: seq<Cell>) {
    |s| % 2 == 0 && forall k :: 0 <= k < |s| && s[k].pending ==> Waiting(s, k)
  }

  /** setOneNodeOffset: gives the node of byte `i` the next byte pair. */
  function Place(s: seq<Cell>, i: nat): (r: seq<Cell>)
    requires Waiting(s, i)
    ensures |r| == |s| + 2
  {
    var t := s[i].tree;
    var b := ParentByte(t.left.Leaf?, t.right.Leaf?, |s| / 2 - i / 2 - 1);
    s[i := s[i].(pending := false, value := b, pair := |s| / 2)] + [Child(t.left, i), Child(t.right, i)]
  }

  lemma PlaceShape(s: seq<Cell>, i: nat)
    requires WellShaped(s) && Waiting(s, i)
    ensures WellShaped(Place(s, i))
  {
    var r := Place(s, i);
    forall k | 0 <= k < |r| && r[k].pending ensures Waiting(r, k) {
      if k < |s| {
        assert Waiting(s, k);
      }
    }
  }

  // ----- Counting -----

  /** The number of waiting nodes among the first `k` bytes. */
  function Count(s: seq<Cell>, k: nat): (n: nat)
    requires k <= |s|
    ensures n <= k
  {
    if k == 0 then 0 else Count(s, k - 1) + if s[k - 1].pending then 1 else 0
  }

  /** The number of internal nodes not placed yet below the first `k` bytes. */
  function Rem(s: seq<Cell>, k: nat): nat
    requires k <= |s|
  {
    if k == 0 then 0 else Rem(s, k - 1) + if s[k - 1].pending then Internals(s[k - 1].tree) else 0
  }

  lemma {:induction false} CountPrefix(s: seq<Cell>, r: seq<Cell>, k: nat)
    requires k <= |s| && k <= |r| && forall j :: 0 <= j < k ==> r[j].pending == s[j].pending
    ensures Count(r, k) == Count(s, k)
  {
    if k > 0 {
      CountPrefix(s, r, k - 1);
    }
  }

  lemma {:induction false} CountMonotone(s: seq<Cell>, j: nat, k: nat)
    requires j <= k <= |s|
    ensures Count(s, j) <= Count(s, k)
    ensures (forall m :: j <= m < k ==> !s[m].pending) ==> Count(s, j) == Count(s, k)
    ensures j < k && s[j].pending ==> Count(s, j) < Count(s, k)
  {
    if j < k {
      CountMonotone(s, j, k - 1);
    }
  }

  lemma {:induction false} RemPrefix(s: seq<Cell>, r: seq<Cell>, k: nat)
    requires k <= |s| && k <= |r|
    requires forall j :: 0 <= j < k ==> r[j].pending == s[j].pending && r[j].tree == s[j].tree
    ensures Rem(r, k) == Rem(s, k)
  {
    if k > 0 {
      RemPrefix(s, r, k - 1);
    }
  }

  lemma {:induction false} RemMonotone(s: seq<Cell>, j: nat, k: nat)
    requires j <= k <= |s|
    ensures Rem(s, j) <= Rem(s, k)
    ensures j < k && s[j].pending ==> Rem(s, j) + Internals(s[j].tree) <= Rem(s, k)
    ensures (forall m :: j <= m < k ==> !s[m].pending) ==> Rem(s, j) == Rem(s, k)
  {
    if j < k {
      RemMonotone(s, j, k - 1);
    }
  }

  lemma {:induction false} PlaceCounts(s: seq<Cell>, i: nat, k: nat)
    requires Waiting(s, i) && k <= |s|
    ensures Count(Place(s, i), k) == Count(s, k) - if i < k then 1 else 0
    ensures Rem(Place(s, i), k) == Rem(s, k) - if i < k then Internals(s[i].tree) else 0
  {
    if k > 0 {
      PlaceCounts(s, i, k - 1);
    }
  }

  function One(t: Tree): nat { if t.Node? then 1 else 0 }

  /** Placing a node takes one off the work left, and lets its internal children wait. */
  lemma PlaceTotals(s: seq<Cell>, i: nat)
    requires Waiting(s, i)
    ensures
      var r, t := Place(s, i), s[i].tree;
      && Rem(r, |r|) == Rem(s, |s|) - 1
      && Count(r, |r|) == Count(s, |s|) - 1 + One(t.left) + One(t.right)
  {
    var r := Place(s, i);
    PlaceCounts(s, i, |s|);
    assert Count(r, |s| + 2) == Count(r, |s| + 1) + if r[|s| + 1].pending then 1 else 0;
    assert Rem(r, |s| + 2) == Rem(r, |s| + 1) + if r[|s| + 1].pending then Internals(r[|s| + 1].tree) else 0;
  }

  // ----- The scheduler -----

  /** A waiting node of byte `k` that still reaches the end after `cost` more pairs, whatever waits before
      it is placed first. */
  predicate Reach(s: seq<Cell>, k: nat, cost: nat)
    requires k < |s|
  {
    s[k].pending ==> |s| / 2 - k / 2 + Count(s, k) + cost <= 64
  }

  /** remainingNodeCanSetOffset. */
  predicate CanSet(s: seq<Cell>, cost: nat) {
    forall k :: 0 <= k < |s| ==> Reach(s, k, cost)
  }

  /** A whole subtree may be placed now. */
  predicate Feasible(s: seq<Cell>, k: nat)
    requires WellShaped(s) && k < |s|
  {
    s[k].pending && Internals(s[k].tree) + Count(s, |s|) <= 64 && CanSet(s, Internals(s[k].tree))
  }

  /** The last feasible byte among the first `n`. */
  function LastFeasible(s: seq<Cell>, n: nat): (r: Option<nat>)
    requires WellShaped(s) && n <= |s|
    ensures r.Some? ==> r.value < n && Feasible(s, r.value)
    ensures forall k :: (if r.Some? then r.value + 1 else 0) <= k < n ==> !Feasible(s, k)
  {
    if n == 0 then None else if Feasible(s, n - 1) then Some(n - 1) else LastFeasible(s, n - 1)
  }

  /** The first waiting byte from `n` on. */
  function FirstWaiting(s: seq<Cell>, n: nat): (r: Option<nat>)
    requires WellShaped(s) && n <= |s|
    ensures r.Some? ==> n <= r.value < |s| && s[r.value].pending
    ensures forall k :: n <= k < (if r.Some? then r.value else |s|) ==> !s[k].pending
    decreases |s| - n
  {
    if n == |s| then None else if s[n].pending then Some(n) else FirstWaiting(s, n + 1)
  }

  /** In the first pair with a waiting node, the larger of the two subtrees, the left one among equals. */
  function SingleChoice(s: seq<Cell>, k: nat): (i: nat)
    requires WellShaped(s) && k < |s| && s[k].pending
    ensures i < |s| && s[i].pending && i / 2 == k / 2 && k <= i <= k + 1
  {
    EvenPair(s, k);
    if k % 2 == 0 && s[k + 1].pending && Internals(s[k + 1].tree) > Internals(s[k].tree) then k + 1 else k
  }

  /** In the first pair with a waiting node no waiting node is larger than the one chosen, and the left one is chosen
      among equals. */
  lemma LargestFirst(s: seq<Cell>, k: nat, m: nat)
    requires WellShaped(s) && FirstWaiting(s, 0) == Some(k) && m < |s| && m / 2 == k / 2 && s[m].pending
    ensures
      var i := SingleChoice(s, k);
      && Internals(s[m].tree) <= Internals(s[i].tree)
      && (Internals(s[m].tree) == Internals(s[i].tree) ==> i <= m)
  {
    EvenPair(s, k);
    SamePair(k, m);
  }

  lemma SamePair(k: nat, m: nat)
    requires m / 2 == k / 2 && k <= m
    ensures m == k || (k % 2 == 0 && m == k + 1)
  {
  }

  lemma EvenPair(s: seq<Cell>, k: nat)
    requires |s| % 2 == 0 && k < |s|
    ensures k % 2 == 0 ==> k + 1 < |s| && (k + 1) / 2 == k / 2
  {
  }

  /** Places every waiting node from byte `k` on, in order. */
  function Fill(s: seq<Cell>, k: nat): (r: seq<Cell>)
    requires WellShaped(s) && k <= |s|
    ensures WellShaped(r) && |s| <= |r|
    ensures Rem(r, |r|) <= Rem(s, |s|)
    decreases 2 * Rem(s, |s|) + |s| - k
  {
    if k == |s| then s
    else if s[k].pending then
      PlaceTotals(s, k);
      PlaceShape(s, k);
      Fill(Place(s, k), k + 1)
    else Fill(s, k + 1)
  }

  /** Whether filling from byte `k` on gives the node of byte `i` a place. */
  predicate GetsPlace(s: seq<Cell>, k: nat, r: seq<Cell>, i: int)
  {
    0 <= k <= i < |r| && r[i].tree.Node? && (i < |s| ==> s[i].pending)
  }

  /** Filling leaves what comes before byte `k`, and every byte that does not wait. */
  lemma {:induction false} FillKeeps(s: seq<Cell>, k: nat)
    requires WellShaped(s) && k <= |s|
    ensures forall i :: 0 <= i < |s| && (i < k || !s[i].pending) ==> Fill(s, k)[i] == s[i]
    ensures forall i :: 0 <= i < |s| ==> Fill(s, k)[i].tree == s[i].tree
    decreases 2 * Rem(s, |s|) + |s| - k
  {
    if k < |s| {
      if s[k].pending {
        PlaceTotals(s, k);
        PlaceShape(s, k);
        FillKeeps(Place(s, k), k + 1);
      } else {
        FillKeeps(s, k + 1);
      }
    }
  }

  lemma PlaceGets(s: seq<Cell>, k: nat, r: seq<Cell>, i: nat)
    requires WellShaped(s) && Waiting(s, k) && r == Fill(Place(s, k), k + 1) && WellShaped(Place(s, k))
    requires GetsPlace(s, k, r, i) && i != k
    ensures GetsPlace(Place(s, k), k + 1, r, i)
  {
    FillKeeps(Place(s, k), k + 1);
  }

  /** Byte pairs are given out level by level: to the nodes in the order of their bytes. */
  lemma {:induction false} FillInOrder(s: seq<Cell>, k: nat, r: seq<Cell>)
    requires WellShaped(s) && k <= |s| && r == Fill(s, k)
    ensures forall i :: GetsPlace(s, k, r, i) ==> !r[i].pending && r[i].pair >= |s| / 2
    ensures forall i, j :: GetsPlace(s, k, r, i) && GetsPlace(s, k, r, j) && i < j ==> r[i].pair < r[j].pair
    decreases 2 * Rem(s, |s|) + |s| - k
  {
    if k == |s| {
    } else if s[k].pending {
      PlaceTotals(s, k);
      PlaceShape(s, k);
      var p := Place(s, k);
      FillInOrder(p, k + 1, r);
      FillKeeps(p, k + 1);
      assert r[k] == p[k];
      forall i | GetsPlace(s, k, r, i) && i != k ensures GetsPlace(p, k + 1, r, i) {
        PlaceGets(s, k, r, i);
      }
    } else {
      FillInOrder(s, k + 1, r);
      forall i | GetsPlace(s, k, r, i) ensures GetsPlace(s, k + 1, r, i) {
      }
    }
  }

  /** makeSubsetHuffTree: a node and everything below it. */
  function Subset(s: seq<Cell>, i: nat): (r: seq<Cell>)
    requires WellShaped(s) && i < |s| && s[i].pending
    ensures WellShaped(r) && |r| >= 2 && Rem(r, |r|) < Rem(s, |s|)
  {
    PlaceTotals(s, i);
    PlaceShape(s, i);
    Fill(Place(s, i), |s|)
  }

  /** One turn of makeHuffTree's loop while something waits from byte `k` on. */
  function Turn(s: seq<Cell>, k: nat): (r: seq<Cell>)
    requires WellShaped(s) && k < |s| && s[k].pending
    ensures WellShaped(r) && Rem(r, |r|) < Rem(s, |s|)
  {
    var c := LastFeasible(s, |s|);
    if c.Some? then Subset(s, c.value)
    else
      var i := SingleChoice(s, k);
      PlaceTotals(s, i);
      PlaceShape(s, i);
      Place(s, i)
  }

  /** makeHuffTree, from a given state to the end. */
  function Run(s: seq<Cell>): (r: seq<Cell>)
    requires WellShaped(s)
    ensures WellShaped(r)
    decreases Rem(s, |s|)
  {
    var k := FirstWaiting(s, 0);
    if k.None? then s else Run(Turn(s, k.value))
  }

  /** The states of a run never have more than 64 nodes waiting. */
  predicate Fits(s: seq<Cell>)
    requires WellShaped(s)
    decreases Rem(s, |s|)
  {
    var k := FirstWaiting(s, 0);
    Count(s, |s|) <= 64 && (k.Some? ==> Fits(Turn(s, k.value)))
  }

  // ----- What every state keeps -----

  /** A placed node knows its children's pair, and its byte holds their distance. */
  predicate PlacedAt(s: seq<Cell>, k: nat)
    requires k < |s|
  {
    var c := s[k];
    c.tree.Node? && !c.pending ==>
      && k / 2 < c.pair && 2 * c.pair + 1 < |s|
      && s[2 * c.pair].tree == c.tree.left && s[2 * c.pair + 1].tree == c.tree.right
      && s[2 * c.pair].owner == k && s[2 * c.pair + 1].owner == k
      && c.value == ParentByte(c.tree.left.Leaf?, c.tree.right.Leaf?, c.pair - k / 2 - 1)
  }

  /** Every byte but the first two belongs to a placed node; leaves hold their symbol. */
  predicate OwnedAt(s: seq<Cell>, k: nat)
    requires k < |s|
  {
    && (k >= 2 ==>
          && s[k].owner < k && s[s[k].owner].tree.Node? && !s[s[k].owner].pending && s[s[k].owner].pair == k / 2)
    && (s[k].tree.Leaf? ==> !s[k].pending && (k >= 2 ==> s[k].value == s[k].tree.no % 256))
  }

  predicate CellOk(s: seq<Cell>, k: nat)
    requires k < |s|
  {
    PlacedAt(s, k) && OwnedAt(s, k) && (s[k].pending ==> s[k].value == 0)
  }

  predicate Structured(s: seq<Cell>, t: Tree) {
    && |s| >= 2 && |s| % 2 == 0 && s[1].tree == t && s[0].tree == Leaf(0) && s[0].value == 0
    && forall k :: 0 <= k < |s| ==> CellOk(s, k)
  }

  lemma StartStructured(t: Tree)
    requires t.Node?
    ensures Structured(Start(t), t) && WellShaped(Start(t))
  {
    var s := Start(t);
    assert Waiting(s, 1);
    forall k | 0 <= k < |s| ensures CellOk(s, k) {
    }
  }

  lemma PlaceCell(s: seq<Cell>, i: nat, k: nat)
    requires Waiting(s, i) && k < |s| + 2
    requires forall j :: 0 <= j < |s| ==> CellOk(s, j)
    ensures CellOk(Place(s, i), k)
  {
    var r := Place(s, i);
    if k == i {
      assert r[k].pair == |s| / 2 && 2 * (|s| / 2) == |s|;
      assert CellOk(s, i);
    } else if k < |s| {
      assert CellOk(s, k);
      assert r[k] == s[k];
    } else {
      assert k / 2 == |s| / 2;
    }
  }

  lemma PlaceStructured(s: seq<Cell>, i: nat, t: Tree)
    requires Structured(s, t) && Waiting(s, i)
    ensures Structured(Place(s, i), t)
  {
    forall k | 0 <= k < |s| + 2 ensures CellOk(Place(s, i), k) {
      PlaceCell(s, i, k);
    }
    assert CellOk(s, 0);
  }

  // ----- Exact offsets -----

  /** The distance to the children fits in six bits. */
  predicate Exact(s: seq<Cell>) {
    forall k :: 0 <= k < |s| ==> ExactAt(s, k)
  }

  predicate ExactAt(s: seq<Cell>, k: nat)
    requires k < |s|
  {
    s[k].tree.Node? && !s[k].pending ==> s[k].pair - k / 2 <= 64
  }

  lemma PlaceExact(s: seq<Cell>, i: nat)
    requires Exact(s) && Waiting(s, i) && |s| / 2 - i / 2 <= 64
    ensures Exact(Place(s, i))
  {
    var r := Place(s, i);
    forall k | 0 <= k < |r| ensures ExactAt(r, k) {
      if k < |s| {
        assert ExactAt(s, k);
      }
    }
  }

  /** The number of pairs once everything waiting from byte `k` on has been placed. */
  function FilledPairs(s: seq<Cell>, k: nat): int
    requires k <= |s|
  {
    |s| / 2 + Rem(s, |s|) - Rem(s, k)
  }

  lemma FillStep(s: seq<Cell>, k: nat)
    requires WellShaped(s) && k < |s|
    ensures s[k].pending ==> FilledPairs(Place(s, k), k + 1) == FilledPairs(s, k) && |s| / 2 < FilledPairs(s, k)
    ensures !s[k].pending ==> FilledPairs(s, k + 1) == FilledPairs(s, k)
  {
    if s[k].pending {
      PlaceTotals(s, k);
      PlaceCounts(s, k, k + 1);
      RemMonotone(s, k, |s|);
    }
  }

  /** Filling leaves what lies before `k` alone and nothing waiting after it. */
  lemma {:induction false} FillResult(s: seq<Cell>, k: nat)
    requires WellShaped(s) && k <= |s|
    ensures
      var r := Fill(s, k);
      && (forall j :: 0 <= j < k ==> r[j] == s[j])
      && (forall j :: 0 <= j < |s| && !s[j].pending ==> r[j] == s[j])
      && (forall j :: k <= j < |r| ==> !r[j].pending)
      && |r| / 2 == FilledPairs(s, k)
    decreases 2 * Rem(s, |s|) + |s| - k
  {
    if k < |s| {
      FillStep(s, k);
      if s[k].pending {
        PlaceTotals(s, k);
        PlaceShape(s, k);
        FillResult(Place(s, k), k + 1);
      } else {
        FillResult(s, k + 1);
      }
    }
  }

  lemma {:induction false} FillStructured(s: seq<Cell>, k: nat, t: Tree)
    requires WellShaped(s) && k <= |s| && Structured(s, t)
    ensures Structured(Fill(s, k), t)
    decreases 2 * Rem(s, |s|) + |s| - k
  {
    if k < |s| {
      if s[k].pending {
        PlaceTotals(s, k);
        PlaceShape(s, k);
        PlaceStructured(s, k, t);
        FillStructured(Place(s, k), k + 1, t);
      } else {
        FillStructured(s, k + 1, t);
      }
    }
  }

  lemma {:induction false} FillExact(s: seq<Cell>, k: nat)
    requires WellShaped(s) && k <= |s| && Exact(s) && FilledPairs(s, k) - k / 2 <= 65
    ensures Exact(Fill(s, k))
    decreases 2 * Rem(s, |s|) + |s| - k
  {
    if k < |s| {
      FillStep(s, k);
      if s[k].pending {
        PlaceTotals(s, k);
        PlaceShape(s, k);
        PlaceExact(s, k);
        FillExact(Place(s, k), k + 1);
      } else {
        FillExact(s, k + 1);
      }
    }
  }

  /** Placing a whole subtree: one node fewer waits, and nothing else below the old end changes. */
  lemma SubsetResult(s: seq<Cell>, i: nat)
    requires WellShaped(s) && i < |s| && s[i].pending
    ensures
      var r := Subset(s, i);
      && |r| == |s| + 2 * Internals(s[i].tree)
      && (forall j :: 0 <= j < |s| ==> r[j] == Place(s, i)[j])
      && (forall j :: |s| <= j < |r| ==> !r[j].pending)
      && Count(r, |r|) == Count(s, |s|) - 1
  {
    var p := Place(s, i);
    PlaceTotals(s, i);
    PlaceCounts(s, i, |s|);
    PlaceShape(s, i);
    FillResult(p, |s|);
    var r := Fill(p, |s|);
    CountPrefix(p, r, |s|);
    CountMonotone(r, |s|, |r|);
    assert FilledPairs(p, |s|) == |s| / 2 + Internals(s[i].tree);
  }

  lemma SubsetExact(s: seq<Cell>, i: nat)
    requires WellShaped(s) && i < |s| && Feasible(s, i) && Exact(s)
    ensures Exact(Subset(s, i)) && CanSet(Subset(s, i), 0)
  {
    var p, r, cost := Place(s, i), Subset(s, i), Internals(s[i].tree);
    assert Reach(s, i, cost);
    PlaceExact(s, i);
    PlaceShape(s, i);
    PlaceTotals(s, i);
    PlaceCounts(s, i, |s|);
    FillExact(p, |s|);
    SubsetResult(s, i);
    forall j | 0 <= j < |r| ensures Reach(r, j, 0) {
      if j < |s| {
        assert Reach(s, j, cost);
        CountPrefix(p, r, j);
        PlaceCounts(s, i, j);
      }
    }
  }

  /** A single step keeps every waiting node in reach as long as no more than 64 wait afterwards. */
  lemma SingleExact(s: seq<Cell>, k: nat)
    requires WellShaped(s) && FirstWaiting(s, 0) == Some(k) && CanSet(s, 0) && Exact(s)
    requires Waiting(s, SingleChoice(s, k)) && Count(Place(s, SingleChoice(s, k)), |s| + 2) <= 64
    ensures Exact(Place(s, SingleChoice(s, k))) && CanSet(Place(s, SingleChoice(s, k)), 0)
  {
    var i := SingleChoice(s, k);
    var r := Place(s, i);
    assert Reach(s, i, 0);
    PlaceExact(s, i);
    forall j | 0 <= j < |r| ensures Reach(r, j, 0) {
      if j < |s| {
        assert Reach(s, j, 0);
        PlaceCounts(s, i, j);
        if j < i {
          CountMonotone(s, j, i);
        }
      } else {
        CountMonotone(r, j, |r|);
      }
    }
  }

  /** A turn either places a whole subtree or one node. */
  lemma TurnStructured(s: seq<Cell>, k: nat, t: Tree)
    requires WellShaped(s) && FirstWaiting(s, 0) == Some(k) && Structured(s, t)
    ensures Structured(Turn(s, k), t)
    ensures |Turn(s, k)| / 2 + Rem(Turn(s, k), |Turn(s, k)|) == |s| / 2 + Rem(s, |s|)
  {
    var c := LastFeasible(s, |s|);
    var i := if c.Some? then c.value else SingleChoice(s, k);
    PlaceTotals(s, i);
    PlaceShape(s, i);
    PlaceStructured(s, i, t);
    if c.Some? {
      FillStructured(Place(s, i), |s|, t);
      SubsetResult(s, i);
      var r := Subset(s, i);
      PlaceCounts(s, i, |s|);
      RemPrefix(Place(s, i), r, |s|);
      RemMonotone(r, |s|, |r|);
    }
  }

  lemma TurnExact(s: seq<Cell>, k: nat)
    requires WellShaped(s) && FirstWaiting(s, 0) == Some(k) && CanSet(s, 0) && Exact(s)
    requires Count(Turn(s, k), |Turn(s, k)|) <= 64
    ensures Exact(Turn(s, k)) && CanSet(Turn(s, k), 0)
  {
    var c := LastFeasible(s, |s|);
    if c.Some? {
      SubsetExact(s, c.value);
    } else {
      SingleExact(s, k);
    }
  }

  /** The finished layout places every internal node once and leaves nothing waiting. */
  lemma {:induction false} RunStructured(s: seq<Cell>, t: Tree)
    requires WellShaped(s) && Structured(s, t)
    ensures
      var r := Run(s);
      && Structured(r, t) && (forall k :: 0 <= k < |r| ==> !r[k].pending)
      && |r| / 2 == |s| / 2 + Rem(s, |s|)
    decreases Rem(s, |s|)
  {
    var k := FirstWaiting(s, 0);
    if k.Some? {
      TurnStructured(s, k.value, t);
      RunStructured(Turn(s, k.value), t);
    } else {
      RemMonotone(s, 0, |s|);
    }
  }

  /** Safety over the whole run: while at most 64 nodes wait, every offset is exact. */
  lemma {:induction false} FittingRunIsExact(s: seq<Cell>)
    requires WellShaped(s) && CanSet(s, 0) && Exact(s) && Fits(s)
    ensures Exact(Run(s))
    decreases Rem(s, |s|)
  {
    var k := FirstWaiting(s, 0);
    if k.Some? {
      TurnExact(s, k.value);
      FittingRunIsExact(Turn(s, k.value));
    }
  }

  // ----- What goes wrong otherwise -----

  /** A node that has fallen out of reach. */
  predicate Stuck(s: seq<Cell>, q: nat) {
    q < |s| && s[q].pending && |s| / 2 - q / 2 + Count(s, q) >= 65
  }

  /** Placed nodes stay as they are. */
  lemma {:induction false} RunKeeps(s: seq<Cell>, j: nat)
    requires WellShaped(s) && j < |s| && !s[j].pending
    ensures j < |Run(s)| && Run(s)[j] == s[j]
    decreases Rem(s, |s|)
  {
    var k := FirstWaiting(s, 0);
    if k.Some? {
      if LastFeasible(s, |s|).Some? {
        SubsetResult(s, LastFeasible(s, |s|).value);
      }
      RunKeeps(Turn(s, k.value), j);
    }
  }

  lemma StuckBlocksSubsets(s: seq<Cell>, q: nat)
    requires WellShaped(s) && Stuck(s, q)
    ensures LastFeasible(s, |s|) == None
  {
    forall k | 0 <= k < |s| ensures !Feasible(s, k) {
      if s[k].pending {
        assert Waiting(s, k);
        assert !Reach(s, q, Internals(s[k].tree));
      }
    }
  }

  /** After a single step that did not place it too far away, some node is still out of reach. */
  lemma StuckStep(s: seq<Cell>, q: nat, k: nat) returns (q': nat)
    requires WellShaped(s) && Stuck(s, q) && FirstWaiting(s, 0) == Some(k)
    requires Waiting(s, SingleChoice(s, k)) && |s| / 2 - SingleChoice(s, k) / 2 <= 64
    ensures Stuck(Place(s, SingleChoice(s, k)), q')
  {
    var i := SingleChoice(s, k);
    CountMonotone(s, 0, k);
    q' := q;
    if q == i {
      CountMonotone(s, k, i);
      q' := k;
    }
    assert q >= k;
    PlaceCounts(s, i, q');
  }

  /** A node out of reach is placed too far away in the end. */
  lemma {:induction false} StuckOverruns(s: seq<Cell>, q: nat)
    requires WellShaped(s) && Stuck(s, q)
    ensures !Exact(Run(s))
    decreases Rem(s, |s|)
  {
    StuckBlocksSubsets(s, q);
    var k := FirstWaiting(s, 0).value;
    var i := SingleChoice(s, k);
    assert Waiting(s, i);
    if |s| / 2 - i / 2 <= 64 {
      var q' := StuckStep(s, q, k);
      StuckOverruns(Turn(s, k), q');
    } else {
      assert Turn(s, k)[i].pair == |s| / 2;
      RunKeeps(Turn(s, k), i);
      assert !ExactAt(Run(s), i);
    }
  }

  /** The step that makes 65 nodes wait puts the last one out of reach. */
  lemma CrowdedIsStuck(s: seq<Cell>, k: nat)
    requires WellShaped(s) && FirstWaiting(s, 0) == Some(k) && Count(s, |s|) <= 64
    requires Count(Turn(s, k), |Turn(s, k)|) > 64
    ensures Stuck(Turn(s, k), |Turn(s, k)| - 1)
  {
    var c := LastFeasible(s, |s|);
    if c.Some? {
      SubsetResult(s, c.value);
    } else {
      PlaceTotals(s, SingleChoice(s, k));
    }
  }

  lemma {:induction false} CrowdedRunOverruns(s: seq<Cell>)
    requires WellShaped(s) && Count(s, |s|) <= 64 && !Fits(s)
    ensures !Exact(Run(s))
    decreases Rem(s, |s|)
  {
    var k := FirstWaiting(s, 0).value;
    var r := Turn(s, k);
    if Count(r, |r|) <= 64 {
      CrowdedRunOverruns(r);
    } else {
      CrowdedIsStuck(s, k);
      StuckOverruns(r, |r| - 1);
    }
  }

  lemma StartReaches(t: Tree)
    requires t.Node?
    ensures CanSet(Start(t), 0) && Exact(Start(t)) && Count(Start(t), 2) == 1 && Rem(Start(t), 2) == Internals(t)
  {
    var s := Start(t);
    assert Count(s, 1) == 0 && Rem(s, 1) == 0;
    forall k | 0 <= k < |s| ensures Reach(s, k, 0) && ExactAt(s, k) {
    }
  }

  /** Every six-bit offset is exact if and only if no more than 64 nodes ever wait at once. */
  lemma OffsetsExactIff(t: Tree)
    requires t.Node?
    ensures WellShaped(Start(t)) && (Exact(Run(Start(t))) <==> Fits(Start(t)))
  {
    StartStructured(t);
    StartReaches(t);
    if Fits(Start(t)) {
      FittingRunIsExact(Start(t));
    } else {
      CrowdedRunOverruns(Start(t));
    }
  }
}
