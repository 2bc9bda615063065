/** Why the six-bit offsets of a byte file's code tree are always exact (src/huffman.cpp, makeHuffTree): with at
    most 256 leaves there are never more than 64 nodes waiting. A node is placed alone only when no whole subtree
    fits, and so only late, and later the more nodes wait. */
module HuffmanFits {
  import opened Bytes
  import opened HuffmanTable
  import opened HuffmanLayout

  const MOST_PAIRS: nat := 256

  // ----- How late a node may first be placed alone -----

  function Slack(m: nat): int {
    if m < 5 then -8 else if m < 7 then 3 else if m < 11 then 17 else if m < 14 then 39 else if m < 22 then 53 else 67
  }

  /** With `m` nodes waiting, no node is placed alone before this many pairs are in place. */
  function Earliest(m: nat): int { Slack(m) + 2 * m }

  /** Between two bounds a product with one falling and one rising factor lies above its chord. */
  lemma AboveChord(k: int, m: int, lo: int, hi: int)
    requires lo <= m <= hi
    ensures (k - m) * (m - 1) >= (k + 1 - lo - hi) * m + lo * hi - k
  {
    assert (m - lo) * (hi - m) >= 0;
    assert (m - lo) * (hi - m) == (lo + hi) * m - lo * hi - m * m;
    assert (k - m) * (m - 1) == (k + 1) * m - k - m * m;
  }

  lemma ProductOrder(h: int, e: int, n: nat)
    ensures h >= e ==> h * n >= e * n
  {
    assert (h - e) * n == h * n - e * n;
    assert h >= e ==> (h - e) * n >= 0;
  }

  /** From the size of the smallest waiting subtree, `h`, to the number of pairs, `t`. */
  lemma LateIfProduct(m: nat, t: nat, h: nat, b: int, g: int)
    requires m >= 2 && h * m <= MOST_PAIRS - t && t + h >= b && (b - g + 1) * (m - 1) > MOST_PAIRS - b
    ensures t >= g
  {
    ProductOrder(h, b - g + 1, m - 1);
    assert h * m == h * (m - 1) + h;
  }

  /** The product for each pair of steps of `Slack`; `c` is how many waited when the blocking node was born. */
  lemma SlackProduct(m: nat, c: nat, k: int)
    requires 5 <= m <= 64 && c < m <= 2 * c + 1 && k == Slack(c) - Slack(m) + 65
    ensures (k - m) * (m - 1) > MOST_PAIRS - (Slack(c) + 64 + m)
  {
    var lo, hi := SlackPiece(m, c);
    AboveChord(k, m, lo, hi);
  }

  /** Bounds between which both slacks are constant. */
  lemma SlackPiece(m: nat, c: nat) returns (lo: nat, hi: nat)
    requires 5 <= m <= 64 && c < m <= 2 * c + 1
    ensures lo <= m <= hi
    ensures
      var k := Slack(c) - Slack(m) + 65;
      (k + 1 - lo - hi) * m + lo * hi - k > MOST_PAIRS - (Slack(c) + 64 + m)
  {
    if m < 7 {
      lo, hi := 5, 6;
    } else if m < 11 {
      lo, hi := 7, 10;
    } else if m < 14 {
      lo, hi := 11, 13;
    } else if m < 22 {
      lo, hi := 14, 21;
    } else if c < 14 {
      lo, hi := 22, 27;
    } else if c < 22 {
      lo, hi := 22, 43;
    } else {
      lo, hi := 23, 64;
    }
  }

  /** When `m` nodes wait and none of their subtrees, of which `h` is the least size, can be placed: the blocking
      node was born in pair `x`, while `c` nodes waited. */
  lemma LateEnough(m: nat, c: nat, x: nat, t: nat, h: nat)
    requires 1 <= m <= 64 && c < 64 && m <= 2 * c + 1 && x < t && x >= Earliest(c) && h >= 1
    requires h * m <= MOST_PAIRS - t && t + h >= x + 64 + m - 2 * c
    ensures t >= Earliest(m) && m < 64
  {
    if m >= 5 && c < m {
      SlackProduct(m, c, Slack(c) - Slack(m) + 65);
      LateIfProduct(m, t, h, Slack(c) + 64 + m, Earliest(m));
    }
    ProductOrder(h, 1, m);
  }

  // ----- What the states of a run keep -----

  /** A waiting node of byte `k` was born by a single step, which came late for the number of nodes that waited
      then; and since then, whatever was placed, more of the older ones have gone than new ones have come. */
  ghost predicate BornOk(s: seq<Cell>, born: seq<nat>, k: nat)
    requires k < |s| && |s| % 2 == 0 && |born| == |s| / 2
  {
    s[k].pending ==>
      && born[k / 2] < 64 && k / 2 >= Earliest(born[k / 2])
      && Count(s, |s|) + Count(s, k / 2 * 2 + 2) <= 2 * born[k / 2] + 2
  }

  ghost predicate Timely(s: seq<Cell>, born: seq<nat>) {
    && WellShaped(s) && |born| == |s| / 2 && |s| / 2 + Rem(s, |s|) <= MOST_PAIRS && Count(s, |s|) <= 64
    && forall k :: 0 <= k < |s| ==> BornOk(s, born, k)
  }

  /** The smaller of a least size `h` among `m` and one more size `g`. */
  lemma OneMoreSize(h: nat, g: nat, m: nat, total: nat)
    requires h * m <= total
    ensures (if g < h then g else h) * (m + 1) <= total + g
  {
    ProductOrder(h, g, m);
    assert g * (m + 1) == g * m + g && h * (m + 1) == h * m + h;
  }

  /** The smallest waiting subtree. */
  lemma {:induction false} Smallest(s: seq<Cell>, n: nat) returns (k: nat)
    requires WellShaped(s) && n <= |s| && Count(s, n) > 0
    ensures k < n && s[k].pending && Internals(s[k].tree) >= 1 && Internals(s[k].tree) * Count(s, n) <= Rem(s, n)
  {
    if !s[n - 1].pending {
      k := Smallest(s, n - 1);
    } else {
      assert Waiting(s, n - 1);
      k := n - 1;
      if Count(s, n - 1) > 0 {
        k := Smallest(s, n - 1);
        var h, g := Internals(s[k].tree), Internals(s[n - 1].tree);
        OneMoreSize(h, g, Count(s, n - 1), Rem(s, n - 1));
        k := if g < h then n - 1 else k;
      }
    }
  }

  /** The last waiting node has all the others before it. */
  lemma {:induction false} LastWaiting(s: seq<Cell>, n: nat) returns (j: nat)
    requires n <= |s| && Count(s, n) > 0
    ensures j < n && s[j].pending && Count(s, j) == Count(s, n) - 1
  {
    if s[n - 1].pending {
      j := n - 1;
    } else {
      j := LastWaiting(s, n - 1);
    }
  }

  /** A subtree that cannot be placed is blocked by some waiting node, which it would put out of reach. */
  lemma Blocker(s: seq<Cell>, k: nat) returns (j: nat)
    requires WellShaped(s) && k < |s| && s[k].pending && !Feasible(s, k) && Count(s, |s|) > 0
    ensures j < |s| && s[j].pending && |s| / 2 - j / 2 + Count(s, j) + Internals(s[k].tree) >= 65
  {
    var h := Internals(s[k].tree);
    j := LastWaiting(s, |s|);
    if !CanSet(s, h) {
      j :| 0 <= j < |s| && !Reach(s, j, h);
    }
  }

  /** A node is placed alone only late, and only while fewer than 64 wait. */
  lemma SingleIsLate(s: seq<Cell>, born: seq<nat>, k: nat)
    requires Timely(s, born) && FirstWaiting(s, 0) == Some(k) && LastFeasible(s, |s|) == None
    ensures |s| / 2 >= Earliest(Count(s, |s|)) && Count(s, |s|) < 64
  {
    CountMonotone(s, k, |s|);
    var i := Smallest(s, |s|);
    var j := Blocker(s, i);
    assert BornOk(s, born, j);
    CountMonotone(s, j, j / 2 * 2 + 2);
    LateEnough(Count(s, |s|), born[j / 2], j / 2, |s| / 2, Internals(s[i].tree));
  }

  /** Placing one node alone. */
  lemma SingleTimely(s: seq<Cell>, born: seq<nat>, k: nat)
    requires Timely(s, born) && FirstWaiting(s, 0) == Some(k) && LastFeasible(s, |s|) == None
    ensures Timely(Turn(s, k), born + [Count(s, |s|)])
  {
    SingleIsLate(s, born, k);
    var i, m := SingleChoice(s, k), Count(s, |s|);
    var r, next := Place(s, i), born + [m];
    PlaceTotals(s, i);
    PlaceShape(s, i);
    forall j | 0 <= j < |r| ensures BornOk(r, next, j) {
      if j < |s| {
        assert BornOk(s, born, j);
        if r[j].pending {
          PlaceCounts(s, i, j / 2 * 2 + 2);
        }
      } else {
        CountMonotone(r, j / 2 * 2 + 2, |r|);
      }
    }
  }

  /** Placing a whole subtree. */
  lemma SubsetTimely(s: seq<Cell>, born: seq<nat>, i: nat)
    requires Timely(s, born) && i < |s| && s[i].pending
    ensures Timely(Subset(s, i), born + seq(Internals(s[i].tree), _ => 0))
  {
    var r, next := Subset(s, i), born + seq(Internals(s[i].tree), _ => 0);
    SubsetResult(s, i);
    PlaceShape(s, i);
    PlaceCounts(s, i, |s|);
    forall j | 0 <= j < |r| ensures BornOk(r, next, j) {
      if j < |s| && r[j].pending {
        assert BornOk(s, born, j);
        PlaceCounts(s, i, j / 2 * 2 + 2);
        CountPrefix(Place(s, i), r, j / 2 * 2 + 2);
      }
    }
    RemAfterSubset(s, i);
  }

  lemma RemAfterSubset(s: seq<Cell>, i: nat)
    requires WellShaped(s) && i < |s| && s[i].pending
    ensures |Subset(s, i)| / 2 + Rem(Subset(s, i), |Subset(s, i)|) <= |s| / 2 + Rem(s, |s|)
  {
    var r := Subset(s, i);
    SubsetResult(s, i);
    PlaceCounts(s, i, |s|);
    RemPrefix(Place(s, i), r, |s|);
    RemMonotone(r, |s|, |r|);
  }

  lemma {:induction false} TimelyFits(s: seq<Cell>, born: seq<nat>)
    requires Timely(s, born)
    ensures Fits(s)
    decreases Rem(s, |s|)
  {
    var k := FirstWaiting(s, 0);
    if k.Some? {
      var c := LastFeasible(s, |s|);
      if c.Some? {
        SubsetTimely(s, born, c.value);
        TimelyFits(Turn(s, k.value), born + seq(Internals(s[c.value].tree), _ => 0));
      } else {
        SingleTimely(s, born, k.value);
        TimelyFits(Turn(s, k.value), born + [Count(s, |s|)]);
      }
    }
  }

  /** Every code tree with at most 256 leaves is laid out with exact offsets. */
  lemma AlwaysFits(t: Tree)
    requires t.Node? && Internals(t) < 256
    ensures WellShaped(Start(t)) && Fits(Start(t)) && Exact(Run(Start(t)))
  {
    OffsetsExactIff(t);
    StartReaches(t);
    var s := Start(t);
    forall k | 0 <= k < |s| ensures BornOk(s, [1], k) {
    }
    TimelyFits(s, [1]);
  }
}
