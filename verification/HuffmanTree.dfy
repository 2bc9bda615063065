/** The greedy construction of the code tree (src/huffman.cpp, constructTree): what every round keeps, and
    how deep the finished tree can be. */
module HuffmanTree {
  import opened Bytes
  import opened HuffmanTable

  // ----- Weights -----

  function Weight(w: seq<nat>, t: Tree): nat {
    if t.Leaf? then (if t.no < |w| then w[t.no] else 0) else Weight(w, t.left) + Weight(w, t.right)
  }

  function Sum(w: seq<nat>): nat { if w == [] then 0 else Sum(w[..|w| - 1]) + w[|w| - 1] }

  /** The sum of the first `n` weights that belong to `s`. */
  ghost function SumIn(w: seq<nat>, s: set<nat>, n: nat): nat
    requires n <= |w|
  {
    if n == 0 then 0 else SumIn(w, s, n - 1) + if n - 1 in s then w[n - 1] else 0
  }

  lemma {:induction false} SumInUnion(w: seq<nat>, s: set<nat>, u: set<nat>, n: nat)
    requires n <= |w| && s !! u
    ensures SumIn(w, s + u, n) == SumIn(w, s, n) + SumIn(w, u, n)
  {
    if n > 0 {
      SumInUnion(w, s, u, n - 1);
    }
  }

  lemma {:induction false} SumInSum(w: seq<nat>, s: set<nat>, n: nat)
    requires n <= |w|
    ensures SumIn(w, s, n) <= Sum(w[..n])
  {
    if n > 0 {
      SumInSum(w, s, n - 1);
      assert w[..n][..n - 1] == w[..n - 1];
    }
  }

  lemma {:induction false} SumInOne(w: seq<nat>, k: nat, n: nat)
    requires n <= |w|
    ensures SumIn(w, {k}, n) == if k < n then w[k] else 0
  {
    if n > 0 {
      SumInOne(w, k, n - 1);
    }
  }

  /** Leaves are symbols, internal nodes are numbered after them. */
  ghost predicate Numbered(t: Tree, dataNum: nat) {
    if t.Leaf? then t.no < dataNum
    else t.no >= dataNum && Numbered(t.left, dataNum) && Numbered(t.right, dataNum)
  }

  lemma {:induction false} WeightIsSum(w: seq<nat>, t: Tree)
    requires Distinct(t) && Numbered(t, |w|)
    ensures Weight(w, t) == SumIn(w, Nodes(t), |w|)
  {
    SumInOne(w, t.no, |w|);
    if t.Node? {
      WeightIsSum(w, t.left);
      WeightIsSum(w, t.right);
      SumInUnion(w, Nodes(t.left), Nodes(t.right), |w|);
      SumInUnion(w, {t.no}, Nodes(t.left) + Nodes(t.right), |w|);
      assert Nodes(t) == {t.no} + (Nodes(t.left) + Nodes(t.right));
    }
  }

  lemma WeightAtMostTotal(w: seq<nat>, t: Tree)
    requires Distinct(t) && Numbered(t, |w|)
    ensures Weight(w, t) <= Sum(w)
  {
    WeightIsSum(w, t);
    SumInSum(w, Nodes(t), |w|);
    assert w[..|w|] == w;
  }

  lemma WeightsAtMostTotal(w: seq<nat>, l: Tree, r: Tree)
    requires Distinct(l) && Numbered(l, |w|) && Distinct(r) && Numbered(r, |w|) && Nodes(l) !! Nodes(r)
    ensures Weight(w, l) + Weight(w, r) <= Sum(w)
  {
    WeightIsSum(w, l);
    WeightIsSum(w, r);
    SumInUnion(w, Nodes(l), Nodes(r), |w|);
    SumInSum(w, Nodes(l) + Nodes(r), |w|);
    assert w[..|w|] == w;
  }

  // ----- The depth bound -----

  function Fib(n: nat): nat { if n < 2 then n else Fib(n - 1) + Fib(n - 2) }

  /** Every child of an internal node weighs no more than that node's sibling. */
  ghost predicate Greedy(w: seq<nat>, t: Tree) {
    t.Node? ==>
      && Outweighs(w, t.right, t.left) && Outweighs(w, t.left, t.right)
      && Greedy(w, t.left) && Greedy(w, t.right)
  }

  /** `a` weighs at least as much as each child of `b`. */
  ghost predicate Outweighs(w: seq<nat>, a: Tree, b: Tree) {
    b.Node? ==> Weight(w, b.left) <= Weight(w, a) && Weight(w, b.right) <= Weight(w, a)
  }

  ghost predicate AllCounted(w: seq<nat>, t: Tree) {
    if t.Leaf? then t.no < |w| && w[t.no] > 0 else AllCounted(w, t.left) && AllCounted(w, t.right)
  }

  /** A tall tree is heavy: height h needs a total of Fib(h + 2). */
  lemma {:induction false} TallIsHeavy(w: seq<nat>, t: Tree, h: nat)
    requires Greedy(w, t) && AllCounted(w, t) && h == Height(t)
    ensures Weight(w, t) >= Fib(h + 2)
    decreases t, 1
  {
    SomeWeight(w, t);
    if t.Node? {
      if Height(t.left) >= Height(t.right) {
        TallerSide(w, t.left, t.right, h - 1);
      } else {
        TallerSide(w, t.right, t.left, h - 1);
      }
    } else {
      FibBase(h, Weight(w, t), 1);
    }
  }

  lemma {:induction false} TallerSide(w: seq<nat>, a: Tree, b: Tree, h: nat)
    requires Outweighs(w, b, a) && AllCounted(w, a) && Greedy(w, a) && AllCounted(w, b) && h == Height(a)
    ensures Weight(w, a) + Weight(w, b) >= Fib(h + 3)
    decreases a, 2
  {
    TallIsHeavy(w, a, h);
    SomeWeight(w, b);
    if a.Node? {
      if Height(a.left) >= Height(a.right) {
        TallIsHeavy(w, a.left, h - 1);
      } else {
        TallIsHeavy(w, a.right, h - 1);
      }
      FibJoin(h, h - 1, Weight(w, a), Weight(w, b));
    } else {
      FibBase(h, Weight(w, a), Weight(w, b));
    }
  }

  lemma FibBase(h: nat, x: nat, y: nat)
    requires h == 0 && x >= 1 && y >= 1
    ensures x >= Fib(h + 2) && x + y >= Fib(h + 3)
  {
    assert Fib(2) == 1 && Fib(3) == 2;
  }

  lemma {:induction false} SomeWeight(w: seq<nat>, t: Tree)
    requires AllCounted(w, t)
    ensures Weight(w, t) >= 1
  {
    if t.Node? {
      SomeWeight(w, t.left);
    }
  }

  lemma FibJoin(h: nat, k: nat, x: nat, y: nat)
    requires h == k + 1 && x >= Fib(h + 2) && y >= Fib(k + 2)
    ensures x + y >= Fib(h + 3)
  {
  }

  // ----- How many nodes -----

  /** One for each symbol that occurs. */
  function Occurring(w: seq<nat>): (r: seq<nat>)
    ensures |r| == |w|
  {
    seq(|w|, i requires 0 <= i < |w| => if w[i] > 0 then 1 else 0)
  }

  function DistinctSymbols(w: seq<nat>): nat { Sum(Occurring(w)) }

  lemma {:induction false} LeavesWeighOne(w: seq<nat>, t: Tree)
    requires AllCounted(w, t)
    ensures Weight(Occurring(w), t) == Internals(t) + 1
  {
    if t.Node? {
      LeavesWeighOne(w, t.left);
      LeavesWeighOne(w, t.right);
    }
  }

  /** A tree has one leaf for each symbol at most. */
  lemma FewInternals(w: seq<nat>, t: Tree)
    requires Distinct(t) && Numbered(t, |w|) && AllCounted(w, t)
    ensures Internals(t) + 1 <= DistinctSymbols(w)
  {
    LeavesWeighOne(w, t);
    WeightAtMostTotal(Occurring(w), t);
  }

  lemma {:induction false} AtMostAll(w: seq<nat>)
    requires forall i :: 0 <= i < |w| ==> w[i] <= 1
    ensures Sum(w) <= |w|
  {
    if w != [] {
      AtMostAll(w[..|w| - 1]);
    }
  }

  lemma {:induction false} HeightBelowInternals(t: Tree)
    ensures Height(t) <= Internals(t)
  {
    if t.Node? {
      HeightBelowInternals(t.left);
      HeightBelowInternals(t.right);
    }
  }

  lemma {:induction false} FibMonotone(m: nat, n: nat)
    requires m <= n
    ensures Fib(m) <= Fib(n)
    decreases n - m
  {
    if m < n {
      FibMonotone(m + 1, n);
    }
  }

  lemma FibTwentyEight()
    ensures Fib(28) == 317811
  {
    assert Fib(8) == 21 && Fib(9) == 34;
    assert Fib(14) == 377 && Fib(15) == 610;
    assert Fib(21) == 10946 && Fib(22) == 17711;
  }

  /** The depth bound: fewer than 317811 symbols give codes of at most 25 bits. */
  lemma DepthAtMost25(w: seq<nat>, t: Tree)
    requires Bounded(w, t) && Sum(w) < 317811
    ensures Height(t) <= 25
  {
    if Height(t) > 25 {
      FibTwentyEight();
      FibMonotone(28, Height(t) + 2);
    }
  }

  // ----- The table during construction -----

  /** The table holds `t` with its root at depth `d`: shapes, depths and bits. */
  ghost predicate Held(table: seq<Data>, t: Tree, d: nat) {
    && t.no < |table| && table[t.no].paDepth == d && table[t.no].leafDepth == Height(t)
    && (t.Node? ==>
          && table[t.no].ch0 == t.left.no && table[t.no].ch1 == t.right.no
          && Held(table, t.left, d + 1) && Held(table, t.right, d + 1)
          && table[t.left.no].bit == 0 && table[t.right.no].bit == (if t.right == t.left then 0 else 1))
  }

  lemma {:induction false} HeldRepresents(table: seq<Data>, t: Tree, d: nat)
    requires Held(table, t, d)
    ensures Represents(table, t)
  {
    if t.Node? {
      HeldRepresents(table, t.left, d + 1);
      HeldRepresents(table, t.right, d + 1);
    }
  }

  lemma {:induction false} HeldFrame(a: seq<Data>, b: seq<Data>, t: Tree, d: nat)
    requires Held(a, t, d) && |a| <= |b| && forall i :: i in Nodes(t) && i < |a| ==> b[i] == a[i]
    ensures Held(b, t, d)
  {
    if t.Node? {
      HeldFrame(a, b, t.left, d + 1);
      HeldFrame(a, b, t.right, d + 1);
      assert t.left.no in Nodes(t) && t.right.no in Nodes(t);
    }
  }

  lemma {:induction false} HeldDeepened(a: seq<Data>, b: seq<Data>, t: Tree, d: nat, s: set<nat>)
    requires Held(a, t, d) && Deepened(a, b, s) && Nodes(t) <= s
    ensures Held(b, t, d + 1)
  {
    if t.Node? {
      HeldDeepened(a, b, t.left, d + 1, s);
      HeldDeepened(a, b, t.right, d + 1, s);
    }
  }

  /** Giving a root its parent and bit leaves its tree in place. */
  lemma HeldAdopted(a: seq<Data>, b: seq<Data>, t: Tree, d: nat, pa: nat, bit: nat)
    requires Held(a, t, d) && Distinct(t) && b == a[t.no := a[t.no].(paNo := pa, bit := bit)]
    ensures Held(b, t, d)
  {
    if t.Node? {
      HeldFrame(a, b, t.left, d + 1);
      HeldFrame(a, b, t.right, d + 1);
    }
  }

  /** A tree still waiting for a parent. */
  predicate Alive(d: Data) { d.freq != 0 && d.paNo == 0 }

  const BLANK := Data(0, 0, -1, -1, 0, 0, 0, 0, 0)

  ghost predicate Under(t: Tree, top: nat) { forall i :: i in Nodes(t) ==> i < top }

  /** What holds of each waiting tree. */
  ghost predicate RootOk(table: seq<Data>, w: seq<nat>, t: Tree, no: nat, top: nat) {
    && t.no == no < top <= |table| && Under(t, top)
    && Distinct(t) && Numbered(t, |w|) && AllCounted(w, t) && Greedy(w, t) && Held(table, t, 0)
    && Alive(table[no]) && table[no].freq == Weight(w, t) && table[no].bit == 0
  }

  /** What holds of each pair of waiting trees. */
  ghost predicate PairOk(w: seq<nat>, t: Tree, u: Tree) {
    Nodes(t) !! Nodes(u) && Outweighs(w, t, u)
  }

  ghost predicate Rooted(table: seq<Data>, w: seq<nat>, f: map<nat, Tree>, top: nat) {
    forall i :: i in f ==> RootOk(table, w, f[i], i, top)
  }

  ghost predicate Paired(w: seq<nat>, f: map<nat, Tree>) {
    forall i, j :: i in f && j in f && i != j ==> PairOk(w, f[i], f[j])
  }

  /** Every symbol that occurs has a place in some waiting tree; the others have not been touched. */
  ghost predicate Placed(table: seq<Data>, w: seq<nat>, f: map<nat, Tree>, home: seq<nat>) {
    && |home| == |w| <= |table|
    && forall j :: 0 <= j < |w| ==> HomeOk(table, w, f, home, j)
  }

  ghost predicate HomeOk(table: seq<Data>, w: seq<nat>, f: map<nat, Tree>, home: seq<nat>, j: nat)
    requires |home| == |w| <= |table| && j < |w|
  {
    if w[j] > 0 then home[j] in f && j in Nodes(f[home[j]]) else table[j] == BLANK
  }

  ghost predicate Forest(table: seq<Data>, w: seq<nat>, f: map<nat, Tree>, home: seq<nat>, top: nat) {
    && |w| <= top <= |table| == 2 * |w| && |f| + top <= 2 * |w|
    && Rooted(table, w, f, top) && Paired(w, f) && Placed(table, w, f, home)
    && (forall i :: 0 <= i < top && Alive(table[i]) ==> i in f)
    && (forall i :: top <= i < |table| ==> table[i] == BLANK)
  }

  // ----- One round -----

  /** The lightest waiting entry other than `skip`, the first among equals; -1 when there is none. */
  method FindLightest(table: array<Data>, top: nat, skip: int) returns (no: int)
    requires top <= table.Length
    ensures no < 0 ==> forall i :: 0 <= i < top && i != skip ==> !Alive(table[i])
    ensures no >= 0 ==>
      && no < top && no != skip && Alive(table[no])
      && forall i :: 0 <= i < top && i != skip && Alive(table[i]) ==>
           table[no].freq <= table[i].freq && (i < no ==> table[no].freq < table[i].freq)
  {
    no := -1;
    for i := 0 to top
      invariant no < 0 ==> forall k :: 0 <= k < i && k != skip ==> !Alive(table[k])
      invariant no >= 0 ==>
        && no < i && no != skip && Alive(table[no])
        && forall k :: 0 <= k < i && k != skip && Alive(table[k]) ==>
             table[no].freq <= table[k].freq && (k < no ==> table[no].freq < table[k].freq)
    {
      if table[i].freq == 0 || table[i].paNo != 0 || i == skip {
        continue;
      }
      if no < 0 {
        no := i;
      } else if table[i].freq < table[no].freq {
        no := i;
      }
    }
  }

  function Parent(a: seq<Data>, l: nat, r: nat): Data
    requires l < |a| && r < |a|
  {
    Data(a[l].freq + a[r].freq, 0, l, r, 0, 1 + Max(a[l].leafDepth, a[r].leafDepth), 0, 0, 0)
  }

  /** The table after entry `top` has adopted `l` and `r`, before their trees sink. */
  function Adopted(a: seq<Data>, l: nat, r: nat, top: nat): (b: seq<Data>)
    requires l < top < |a| && r < top
    ensures |b| == |a|
  {
    a[top := Parent(a, l, r)][l := a[l].(paNo := top, bit := 0)][r := a[r].(paNo := top, bit := 1)]
  }

  /** What one round does to the table. */
  ghost predicate Merged(a: seq<Data>, d: seq<Data>, l: Tree, r: Tree, top: nat) {
    && l.no < top < |a| && r.no < top && l.no != r.no
    && Deepened(Adopted(a, l.no, r.no, top), d, Nodes(l) + Nodes(r))
  }

  ghost predicate BothHeld(table: seq<Data>, l: Tree, r: Tree) { Held(table, l, 0) && Held(table, r, 0) }

  lemma AdoptedHeld(a: seq<Data>, l: Tree, r: Tree, top: nat)
    requires l.no < top < |a| && r.no < top && Under(l, top) && Under(r, top)
    requires Distinct(l) && Distinct(r) && Nodes(l) !! Nodes(r) && Held(a, l, 0) && Held(a, r, 0)
    ensures BothHeld(Adopted(a, l.no, r.no, top), l, r)
  {
    var b := a[top := Parent(a, l.no, r.no)];
    HeldFrame(a, b, l, 0);
    HeldFrame(a, b, r, 0);
    AdoptBoth(b, l, r, top);
    assert b[l.no] == a[l.no] && b[r.no] == a[r.no];
  }

  lemma AdoptBoth(b: seq<Data>, l: Tree, r: Tree, top: nat)
    requires Held(b, l, 0) && Held(b, r, 0) && Distinct(l) && Distinct(r) && Nodes(l) !! Nodes(r)
    ensures
      var e := b[l.no := b[l.no].(paNo := top, bit := 0)][r.no := b[r.no].(paNo := top, bit := 1)];
      BothHeld(e, l, r)
  {
    var c := b[l.no := b[l.no].(paNo := top, bit := 0)];
    AdoptOne(b, c, l, r, top, 0);
    AdoptOne(c, c[r.no := c[r.no].(paNo := top, bit := 1)], r, l, top, 1);
    assert c[r.no] == b[r.no];
  }

  /** Adopting one root leaves both trees in place. */
  lemma AdoptOne(a: seq<Data>, b: seq<Data>, t: Tree, other: Tree, top: nat, bit: nat)
    requires Held(a, t, 0) && Held(a, other, 0) && Distinct(t) && Nodes(t) !! Nodes(other)
    requires b == a[t.no := a[t.no].(paNo := top, bit := bit)]
    ensures Held(b, t, 0) && Held(b, other, 0)
  {
    HeldAdopted(a, b, t, 0, top, bit);
    HeldFrame(a, b, other, 0);
  }

  lemma MergedHeld(a: seq<Data>, d: seq<Data>, l: Tree, r: Tree, top: nat)
    requires Merged(a, d, l, r, top) && Under(l, top) && Under(r, top)
    requires Distinct(l) && Distinct(r) && Nodes(l) !! Nodes(r) && Held(a, l, 0) && Held(a, r, 0)
    ensures Held(d, Node(top, l, r), 0)
  {
    AdoptedHeld(a, l, r, top);
    var e := Adopted(a, l.no, r.no, top);
    HeldDeepened(e, d, l, 0, Nodes(l) + Nodes(r));
    HeldDeepened(e, d, r, 0, Nodes(l) + Nodes(r));
    assert l != r && e[l.no].bit == 0 && e[r.no].bit == 1 && d[top] == Parent(a, l.no, r.no);
  }

  /** The new tree meets everything a waiting tree must. */
  lemma MergedRoot(a: seq<Data>, d: seq<Data>, w: seq<nat>, l: Tree, r: Tree, top: nat)
    requires Merged(a, d, l, r, top) && |w| <= top
    requires RootOk(a, w, l, l.no, top) && RootOk(a, w, r, r.no, top) && PairOk(w, l, r) && PairOk(w, r, l)
    ensures RootOk(d, w, Node(top, l, r), top, top + 1)
  {
    MergedHeld(a, d, l, r, top);
    assert d[top] == Parent(a, l.no, r.no);
    assert Distinct(Node(top, l, r));
  }

  lemma MergedFrame(a: seq<Data>, d: seq<Data>, l: Tree, r: Tree, top: nat, i: nat)
    requires Merged(a, d, l, r, top) && i < |a| && i != top && i !in Nodes(l) && i !in Nodes(r)
    ensures |d| == |a| && d[i] == a[i]
  {
    var e := Adopted(a, l.no, r.no, top);
    assert i != l.no && i != r.no && e[i] == a[i];
  }

  /** A tree not taking part stays as it was. */
  lemma MergedOther(a: seq<Data>, d: seq<Data>, w: seq<nat>, l: Tree, r: Tree, top: nat, t: Tree)
    requires Merged(a, d, l, r, top) && RootOk(a, w, t, t.no, top)
    requires Nodes(l) !! Nodes(t) && Nodes(r) !! Nodes(t)
    ensures RootOk(d, w, t, t.no, top + 1)
  {
    forall i | i in Nodes(t) ensures i < |a| && d[i] == a[i] {
      assert i !in Nodes(l) && i !in Nodes(r) && i < top;
      MergedFrame(a, d, l, r, top, i);
    }
    assert t.no in Nodes(t);
    HeldFrame(a, d, t, 0);
  }

  /** Greediness: the new tree's children are the two lightest, so every other tree outweighs both. */
  lemma MergedPair(w: seq<nat>, l: Tree, r: Tree, top: nat, t: Tree)
    requires Weight(w, l) <= Weight(w, t) && Weight(w, r) <= Weight(w, t) && Under(t, top)
    requires PairOk(w, l, t) && PairOk(w, r, t) && PairOk(w, t, l) && PairOk(w, t, r)
    ensures PairOk(w, Node(top, l, r), t) && PairOk(w, t, Node(top, l, r))
  {
  }

  function NewForest(f: map<nat, Tree>, l: nat, r: nat, top: nat): (g: map<nat, Tree>)
    requires l in f && r in f
    ensures g.Keys == f.Keys - {l, r} + {top}
  {
    (f - {l, r})[top := Node(top, f[l], f[r])]
  }

  function NewHome(home: seq<nat>, l: nat, r: nat, top: nat): (h: seq<nat>)
    ensures |h| == |home|
  {
    seq(|home|, j requires 0 <= j < |home| => if home[j] == l || home[j] == r then top else home[j])
  }

  lemma NewForestSize(f: map<nat, Tree>, l: nat, r: nat, top: nat)
    requires l in f && r in f && l != r && top !in f
    ensures |NewForest(f, l, r, top)| == |f| - 1
  {
    var g := NewForest(f, l, r, top);
    assert {l, r} <= f.Keys && |f.Keys - {l, r}| == |f.Keys| - 2;
    assert |g.Keys| == |g| && |f.Keys| == |f|;
  }

  lemma MergedRooted(a: seq<Data>, d: seq<Data>, w: seq<nat>, f: map<nat, Tree>, l: nat, r: nat, top: nat)
    requires l in f && r in f && l != r && |w| <= top && Rooted(a, w, f, top) && Paired(w, f)
    requires Merged(a, d, f[l], f[r], top)
    ensures Rooted(d, w, NewForest(f, l, r, top), top + 1)
  {
    var g := NewForest(f, l, r, top);
    assert PairOk(w, f[l], f[r]) && PairOk(w, f[r], f[l]);
    MergedRoot(a, d, w, f[l], f[r], top);
    forall i | i in g && i != top ensures RootOk(d, w, g[i], i, top + 1) {
      assert PairOk(w, f[l], f[i]) && PairOk(w, f[r], f[i]);
      MergedOther(a, d, w, f[l], f[r], top, f[i]);
    }
  }

  lemma MergedPaired(a: seq<Data>, w: seq<nat>, f: map<nat, Tree>, l: nat, r: nat, top: nat)
    requires l in f && r in f && l != r && Rooted(a, w, f, top) && Paired(w, f)
    requires forall i :: i in f && i != l && i != r ==>
      Weight(w, f[l]) <= Weight(w, f[i]) && Weight(w, f[r]) <= Weight(w, f[i])
    ensures Paired(w, NewForest(f, l, r, top))
  {
    var g := NewForest(f, l, r, top);
    forall i | i in g && i != top ensures PairOk(w, g[top], g[i]) && PairOk(w, g[i], g[top]) {
      assert RootOk(a, w, f[i], i, top);
      assert PairOk(w, f[l], f[i]) && PairOk(w, f[r], f[i]) && PairOk(w, f[i], f[l]) && PairOk(w, f[i], f[r]);
      MergedPair(w, f[l], f[r], top, f[i]);
    }
    forall i, j | i in g && j in g && i != j ensures PairOk(w, g[i], g[j]) {
      if i != top && j != top {
        assert PairOk(w, f[i], f[j]);
      }
    }
  }

  lemma MergedPlaced(
    a: seq<Data>, d: seq<Data>, w: seq<nat>, f: map<nat, Tree>, home: seq<nat>, l: nat, r: nat, top: nat)
    requires l in f && r in f && l != r && |w| <= top && Rooted(a, w, f, top) && Placed(a, w, f, home)
    requires Merged(a, d, f[l], f[r], top)
    ensures Placed(d, w, NewForest(f, l, r, top), NewHome(home, l, r, top))
  {
    forall j | 0 <= j < |w|
      ensures HomeOk(d, w, NewForest(f, l, r, top), NewHome(home, l, r, top), j)
    {
      MergedHome(a, d, w, f, home, l, r, top, j);
    }
  }

  lemma MergedHome(
    a: seq<Data>, d: seq<Data>, w: seq<nat>, f: map<nat, Tree>, home: seq<nat>, l: nat, r: nat, top: nat, j: nat)
    requires l in f && r in f && l != r && |w| <= top && Rooted(a, w, f, top)
    requires |home| == |w| <= |a| && j < |w| && HomeOk(a, w, f, home, j)
    requires Merged(a, d, f[l], f[r], top)
    ensures HomeOk(d, w, NewForest(f, l, r, top), NewHome(home, l, r, top), j)
  {
    if w[j] > 0 {
      assert RootOk(a, w, f[home[j]], home[j], top);
    } else {
      Uncounted(w, f[l], j);
      Uncounted(w, f[r], j);
      MergedFrame(a, d, f[l], f[r], top, j);
    }
  }

  /** A symbol that does not occur is in no tree. */
  lemma {:induction false} Uncounted(w: seq<nat>, t: Tree, j: nat)
    requires AllCounted(w, t) && Numbered(t, |w|) && j < |w| && w[j] == 0
    ensures j !in Nodes(t)
  {
    if t.Node? {
      Uncounted(w, t.left, j);
      Uncounted(w, t.right, j);
    }
  }

  ghost predicate IsLightest(table: seq<Data>, no: nat, top: nat, skip: int) {
    && no < top <= |table| && no != skip && Alive(table[no])
    && forall i :: 0 <= i < top && i != skip && Alive(table[i]) ==>
         table[no].freq <= table[i].freq && (i < no ==> table[no].freq < table[i].freq)
  }

  /** One round keeps the forest. */
  lemma MergedForest(
    a: seq<Data>, d: seq<Data>, w: seq<nat>, f: map<nat, Tree>, home: seq<nat>, l: nat, r: nat, top: nat)
    requires Forest(a, w, f, home, top) && top < |a| && l in f && r in f && l != r
    requires IsLightest(a, l, top, -1) && IsLightest(a, r, top, l) && Merged(a, d, f[l], f[r], top)
    ensures Forest(d, w, NewForest(f, l, r, top), NewHome(home, l, r, top), top + 1)
  {
    var g := NewForest(f, l, r, top);
    forall i | i in f && i != l && i != r
      ensures Weight(w, f[l]) <= Weight(w, f[i]) && Weight(w, f[r]) <= Weight(w, f[i])
    {
      assert RootOk(a, w, f[i], i, top) && RootOk(a, w, f[l], l, top) && RootOk(a, w, f[r], r, top);
    }
    MergedRooted(a, d, w, f, l, r, top);
    MergedPaired(a, w, f, l, r, top);
    MergedPlaced(a, d, w, f, home, l, r, top);
    MergedRest(a, d, w, f, l, r, top);
    forall i | i in f ensures i < top {
      assert RootOk(a, w, f[i], i, top);
    }
    NewForestSize(f, l, r, top);
  }

  /** Only the new entry and the adopted ones change their standing. */
  lemma MergedRest(a: seq<Data>, d: seq<Data>, w: seq<nat>, f: map<nat, Tree>, l: nat, r: nat, top: nat)
    requires Rooted(a, w, f, top) && top < |a| && l in f && r in f && l != r
    requires forall i :: 0 <= i < top && Alive(a[i]) ==> i in f
    requires forall i :: top <= i < |a| ==> a[i] == BLANK
    requires Merged(a, d, f[l], f[r], top)
    ensures |d| == |a|
    ensures forall i :: 0 <= i < top + 1 && Alive(d[i]) ==> i in NewForest(f, l, r, top)
    ensures forall i :: top + 1 <= i < |d| ==> d[i] == BLANK
  {
    var e := Adopted(a, l, r, top);
    assert RootOk(a, w, f[l], l, top) && RootOk(a, w, f[r], r, top);
    forall i | 0 <= i < top + 1 && Alive(d[i]) ensures i in NewForest(f, l, r, top) {
      assert d[i].paNo == e[i].paNo && d[i].freq == e[i].freq;
    }
    forall i | top + 1 <= i < |d| ensures d[i] == BLANK {
      MergedFrame(a, d, f[l], f[r], top, i);
    }
  }

  // ----- The order of joining -----

  /** Entry `i` is taken before entry `j`: it is lighter, or as light and has the smaller number. */
  predicate Sooner(a: seq<Data>, i: int, j: int)
    requires 0 <= i < |a| && 0 <= j < |a|
  {
    a[i].freq < a[j].freq || (a[i].freq == a[j].freq && i < j)
  }

  /** Entry `i` was waiting for a parent when entry `j` was made. */
  predicate Waited(a: seq<Data>, i: int, j: int)
    requires 0 <= i < |a|
  {
    i < j && a[i].freq > 0 && (a[i].paNo == 0 || a[i].paNo >= j)
  }

  /** Entry `j` has joined the first two that were waiting, the first of them on its left. */
  predicate JoinsFirst(a: seq<Data>, j: nat)
    requires j < |a|
  {
    var l, r := a[j].ch0, a[j].ch1;
    && 0 <= l < j && 0 <= r < j && a[l].paNo == a[r].paNo == j && a[j].freq == a[l].freq + a[r].freq
    && Sooner(a, l, r) && Waited(a, l, j) && Waited(a, r, j)
    && forall i :: 0 <= i < j && i != l && i != r && Waited(a, i, j) ==> Sooner(a, r, i)
  }

  /** The symbols have their weights, and each later entry below `top` has joined the first two of its round. */
  predicate Joined(a: seq<Data>, w: seq<nat>, top: nat) {
    && |w| <= top <= |a| && (forall i :: 0 <= i < |w| ==> a[i].freq == w[i])
    && forall j :: |w| <= j < top ==> JoinsFirst(a, j)
  }

  /** Entries that differ in depth, code and size only. */
  predicate SameJoins(a: seq<Data>, b: seq<Data>) {
    && |a| == |b|
    && forall i :: 0 <= i < |a| ==>
         b[i].freq == a[i].freq && b[i].paNo == a[i].paNo && b[i].ch0 == a[i].ch0 && b[i].ch1 == a[i].ch1
  }

  lemma JoinsSame(a: seq<Data>, b: seq<Data>, j: nat)
    requires SameJoins(a, b) && j < |a| && JoinsFirst(a, j)
    ensures JoinsFirst(b, j)
  {
    var l, r := a[j].ch0, a[j].ch1;
    forall i | 0 <= i < j && i != l && i != r && Waited(b, i, j) ensures Sooner(b, r, i) {
      assert Waited(a, i, j);
    }
  }

  lemma JoinedSame(a: seq<Data>, b: seq<Data>, w: seq<nat>, top: nat)
    requires SameJoins(a, b) && Joined(a, w, top)
    ensures Joined(b, w, top)
  {
    forall j | |w| <= j < top ensures JoinsFirst(b, j) {
      JoinsSame(a, b, j);
    }
  }

  /** A round leaves the entries that were made before it as they were joined. */
  lemma StillJoined(a: seq<Data>, l: nat, r: nat, top: nat, j: nat)
    requires l < top < |a| && r < top && l != r && a[l].paNo == 0 && a[r].paNo == 0 && 0 < j < top && JoinsFirst(a, j)
    ensures JoinsFirst(Adopted(a, l, r, top), j)
  {
    var b := Adopted(a, l, r, top);
    var x, y := a[j].ch0, a[j].ch1;
    forall i | 0 <= i < j && i != x && i != y && Waited(b, i, j) ensures Sooner(b, y, i) {
      assert Waited(a, i, j);
    }
  }

  lemma NewlyJoined(a: seq<Data>, l: nat, r: nat, top: nat)
    requires l < top < |a| && r < top && l != r && a[top] == BLANK
    requires IsLightest(a, l, top, -1) && IsLightest(a, r, top, l)
    requires forall i :: 0 <= i < top ==> a[i].paNo < top
    ensures JoinsFirst(Adopted(a, l, r, top), top)
  {
    var b := Adopted(a, l, r, top);
    forall i | 0 <= i < top && i != l && i != r && Waited(b, i, top) ensures Sooner(b, r, i) {
      assert b[i] == a[i] && Alive(a[i]);
    }
  }

  predicate ParentsUnder(a: seq<Data>, top: nat) { forall i :: 0 <= i < |a| ==> a[i].paNo < top }

  lemma JoinedMore(a: seq<Data>, d: seq<Data>, w: seq<nat>, l: Tree, r: Tree, top: nat)
    requires Joined(a, w, top) && 0 < |w| && Merged(a, d, l, r, top) && a[top] == BLANK && ParentsUnder(a, top)
    requires IsLightest(a, l.no, top, -1) && IsLightest(a, r.no, top, l.no)
    ensures Joined(d, w, top + 1) && ParentsUnder(d, top + 1)
  {
    var e := Adopted(a, l.no, r.no, top);
    forall j | |w| <= j < top + 1 ensures JoinsFirst(e, j) {
      if j < top {
        StillJoined(a, l.no, r.no, top, j);
      } else {
        NewlyJoined(a, l.no, r.no, top);
      }
    }
    assert Joined(e, w, top + 1);
    JoinedSame(e, d, w, top + 1);
  }

  /** The order in which a finished table has been joined: each entry up to the root has joined the first two of its
      round; without two symbols that occur, the root has the one that does, or else symbol 0, twice. */
  ghost predicate InOrder(a: seq<Data>, w: seq<nat>, t: Tree) {
    if Single(t) then OnlySymbol(w, t.left.no) && t.right == t.left else Joined(a, w, t.no + 1)
  }

  predicate OnlySymbol(w: seq<nat>, k: nat) {
    k < |w| && (k == 0 || w[k] > 0) && forall j :: 0 <= j < |w| && j != k ==> w[j] == 0
  }

  // ----- The construction -----

  /** What the finished table says about its tree, for symbol weights `w`. */
  ghost predicate CodeTable(table: seq<Data>, w: seq<nat>, t: Tree) {
    && CodeTree(t) && Numbered(t, |w|) && Internals(t) < |w|
    && Held(table, t, 0) && CodesOk(table, t, 0) && SizesOk(table, t) && table[t.no].bit == 0
    && (forall j :: 0 <= j < |w| && w[j] > 0 ==> j in Nodes(t))
  }

  /** How large the tree can be: it is the two-level tree of a file with at most one distinct symbol, or it is
      greedy, has a leaf for symbols that occur only, and is no taller than the total allows. */
  ghost predicate Bounded(w: seq<nat>, t: Tree) {
    || Single(t)
    || (Greedy(w, t) && AllCounted(w, t) && Internals(t) + 1 <= DistinctSymbols(w) && Fib(Height(t) + 2) <= Sum(w))
  }

  function FirstForest(w: seq<nat>): (f: map<nat, Tree>)
    ensures forall i :: i in f <==> 0 <= i < |w| && w[i] > 0
  {
    map i: nat | i < |w| && w[i] > 0 :: Leaf(i)
  }

  lemma {:induction false} SubsetOfRange(s: set<nat>, n: nat)
    requires forall i :: i in s ==> i < n
    ensures |s| <= n
  {
    if n == 0 {
      assert s == {};
    } else {
      SubsetOfRange(s - {n - 1}, n - 1);
    }
  }

  predicate Counted(table: seq<Data>, w: seq<nat>) {
    && |table| == 2 * |w|
    && forall i :: 0 <= i < |table| ==> table[i] == BLANK.(freq := if i < |w| then w[i] else 0)
  }

  lemma FirstForestHolds(table: seq<Data>, w: seq<nat>)
    requires Counted(table, w)
    ensures Forest(table, w, FirstForest(w), seq(|w|, i requires 0 <= i < |w| => i), |w|)
  {
    var f := FirstForest(w);
    forall i | i in f ensures RootOk(table, w, f[i], i, |w|) {
      assert f[i] == Leaf(i);
    }
    SubsetOfRange(f.Keys, |w|);
    assert |f.Keys| == |f|;
  }

  /** The end of a construction that merged something. */
  lemma LastTree(table: seq<Data>, w: seq<nat>, f: map<nat, Tree>, home: seq<nat>, top: nat, root: nat)
    requires Forest(table, w, f, home, top) && root in f && |w| <= root
    requires forall i :: 0 <= i < top && i != root ==> !Alive(table[i])
    ensures f[root].Node? && CodeTree(f[root]) && Numbered(f[root], |w|) && Held(table, f[root], 0)
    ensures f[root].no == root < |table| && table[root].bit == 0
    ensures Internals(f[root]) < |w| && Bounded(w, f[root])
    ensures forall j :: 0 <= j < |w| && w[j] > 0 ==> j in Nodes(f[root])
  {
    var t := f[root];
    assert RootOk(table, w, t, root, top);
    FewInternals(w, t);
    AtMostAll(Occurring(w));
    TallIsHeavy(w, t, Height(t));
    WeightAtMostTotal(w, t);
    forall j | 0 <= j < |w| && w[j] > 0 ensures j in Nodes(t) {
      assert HomeOk(table, w, f, home, j);
      assert RootOk(table, w, f[home[j]], home[j], top);
    }
  }

  /** The end of a construction that merged nothing. */
  lemma OnlyLeaf(table: seq<Data>, w: seq<nat>, f: map<nat, Tree>, home: seq<nat>, left: nat)
    requires Forest(table, w, f, home, |w|) && left < |w| && Counted(table, w) && |w| >= 2
    requires forall i :: 0 <= i < |w| && i != left ==> !Alive(table[i])
    ensures
      var t := Node(|w|, Leaf(left), Leaf(left));
      && CodeTree(t) && Single(t) && Numbered(t, |w|) && Internals(t) < |w|
      && (forall j :: 0 <= j < |w| && w[j] > 0 ==> j in Nodes(t))
      && (forall j :: 0 <= j < |w| && j != left ==> w[j] == 0)
      && forall b: seq<Data> :: |b| == |table|
           && b[left] == table[left].(paNo := |w|, bit := 0, paDepth := 1)
           && b[|w|] == BLANK.(freq := table[left].freq, ch0 := left, ch1 := left, leafDepth := 1)
           ==> Held(b, t, 0)
  {
    forall j | 0 <= j < |w| && w[j] > 0 ensures j == left {
      assert table[j].freq == w[j];
    }
  }

  lemma SumFits(table: seq<Data>, w: seq<nat>, f: map<nat, Tree>, home: seq<nat>, top: nat, l: nat, r: nat)
    requires Forest(table, w, f, home, top) && l in f && r in f && l != r && Sum(w) < U32_LIMIT
    ensures l < top && r < top && table[l].freq + table[r].freq < U32_LIMIT
    ensures top < |table| && Represents(table, f[l]) && Represents(table, f[r])
  {
    assert RootOk(table, w, f[l], l, top) && RootOk(table, w, f[r], r, top) && PairOk(w, f[l], f[r]);
    WeightsAtMostTotal(w, f[l], f[r]);
    HeldRepresents(table, f[l], 0);
    HeldRepresents(table, f[r], 0);
    assert {l, r} <= f.Keys && |{l, r}| == 2;
    SubsetSize({l, r}, f.Keys);
    assert |f.Keys| == |f|;
  }

  lemma {:induction false} SubsetSize(s: set<nat>, u: set<nat>)
    requires s <= u
    ensures |s| <= |u|
  {
    if s != {} {
      var x :| x in s;
      SubsetSize(s - {x}, u - {x});
    }
  }

  /** Entries that differ from `a` only by adoption still hold the two trees. */
  lemma AdoptedRepresents(a: seq<Data>, l: Tree, r: Tree, top: nat, t: Tree)
    requires l.no < top < |a| && r.no < top && Under(t, top) && Represents(a, t)
    ensures Represents(Adopted(a, l.no, r.no, top), t)
    decreases t
  {
    assert t.no in Nodes(t);
    if t.Node? {
      AdoptedRepresents(a, l, r, top, t.left);
      AdoptedRepresents(a, l, r, top, t.right);
    }
  }

  /** Writes the new parent and the links to it. */
  method Adopt(table: array<Data>, left: nat, right: nat, top: nat)
    requires left < top < table.Length && right < top && left != right && table[top] == BLANK
    requires table[left].freq + table[right].freq < U32_LIMIT
    modifies table
    ensures table[..] == Adopted(old(table[..]), left, right, top)
  {
    var leafDepth :=
      if table[left].leafDepth > table[right].leafDepth then table[left].leafDepth + 1 else table[right].leafDepth + 1;
    table[top] := table[top].(
      freq := (table[left].freq + table[right].freq) % U32_LIMIT, ch0 := left, ch1 := right, leafDepth := leafDepth);
    table[left] := table[left].(paNo := top, bit := 0);
    table[right] := table[right].(paNo := top, bit := 1);
  }

  lemma JoinReady(
    table: seq<Data>, w: seq<nat>, f: map<nat, Tree>, home: seq<nat>, top: nat, l: nat, r: nat)
    requires Forest(table, w, f, home, top) && l in f && r in f && l != r && top < |table|
    requires l < top && r < top && Represents(table, f[l]) && Represents(table, f[r])
    ensures f[l].no == l && f[r].no == r && table[top] == BLANK
    ensures Distinct(f[l]) && Distinct(f[r]) && Nodes(f[l]) !! Nodes(f[r])
    ensures Represents(Adopted(table, l, r, top), f[l]) && Represents(Adopted(table, l, r, top), f[r])
  {
    assert RootOk(table, w, f[l], l, top) && RootOk(table, w, f[r], r, top) && PairOk(w, f[l], f[r]);
    AdoptedRepresents(table, f[l], f[r], top, f[l]);
    AdoptedRepresents(table, f[l], f[r], top, f[r]);
  }

  /** Joins the two lightest trees under entry `top`. */
  method Join(
    table: array<Data>, left: nat, right: nat, top: nat,
    ghost w: seq<nat>, ghost f: map<nat, Tree>, ghost home: seq<nat>)
    requires Forest(table[..], w, f, home, top) && left in f && right in f && left != right
    requires IsLightest(table[..], left, top, -1) && IsLightest(table[..], right, top, left)
    requires Sum(w) < U32_LIMIT
    modifies table
    ensures top < table.Length && Merged(old(table[..]), table[..], f[left], f[right], top)
    ensures f[left].no == left && f[right].no == right && old(table[top]) == BLANK
    ensures Forest(table[..], w, NewForest(f, left, right, top), NewHome(home, left, right, top), top + 1)
  {
    ghost var a := table[..];
    SumFits(a, w, f, home, top, left, right);
    JoinReady(a, w, f, home, top, left, right);
    Adopt(table, left, right, top);
    AddParentDepth(table, left, right, f[left], f[right]);
    MergedForest(a, table[..], w, f, home, left, right, top);
  }

  lemma {:induction false} HeldCoded(a: seq<Data>, b: seq<Data>, t: Tree, d: nat, s: set<nat>)
    requires Held(a, t, d) && Coded(a, b, s)
    ensures Held(b, t, d)
  {
    assert b[t.no].(code := a[t.no].code) == a[t.no];
    if t.Node? {
      HeldCoded(a, b, t.left, d + 1, s);
      HeldCoded(a, b, t.right, d + 1, s);
      assert b[t.left.no].(code := a[t.left.no].code) == a[t.left.no];
      assert b[t.right.no].(code := a[t.right.no].code) == a[t.right.no];
    }
  }

  lemma {:induction false} HeldSized(a: seq<Data>, b: seq<Data>, t: Tree, d: nat, s: set<nat>)
    requires Held(a, t, d) && Sized(a, b, s)
    ensures Held(b, t, d)
  {
    assert b[t.no].(hword := a[t.no].hword) == a[t.no];
    if t.Node? {
      HeldSized(a, b, t.left, d + 1, s);
      HeldSized(a, b, t.right, d + 1, s);
      assert b[t.left.no].(hword := a[t.left.no].hword) == a[t.left.no];
      assert b[t.right.no].(hword := a[t.right.no].hword) == a[t.right.no];
    }
  }

  /** The file with at most one distinct symbol: an entry with the same leaf twice. */
  method PlantSingle(
    table: array<Data>, left: nat, ghost w: seq<nat>, ghost f: map<nat, Tree>, ghost home: seq<nat>)
    returns (ghost t: Tree)
    requires Counted(table[..], w) && Forest(table[..], w, f, home, |w|) && 2 <= |w| && left < |w|
    requires left == 0 || Alive(table[left])
    requires forall i :: 0 <= i < |w| && i != left ==> !Alive(table[i])
    modifies table
    ensures t == Node(|w|, Leaf(left), Leaf(left)) && Held(table[..], t, 0) && table[t.no].bit == 0
    ensures CodeTree(t) && Single(t) && Numbered(t, |w|) && Internals(t) < |w|
    ensures InOrder(table[..], w, t)
    ensures forall j :: 0 <= j < |w| && w[j] > 0 ==> j in Nodes(t)
  {
    OnlyLeaf(table[..], w, f, home, left);
    var root := table.Length / 2;
    t := Node(root, Leaf(left), Leaf(left));
    table[root] := table[root].(freq := table[left].freq, ch0 := left, ch1 := left, leafDepth := 1);
    table[left] := table[left].(paNo := root, bit := 0, paDepth := 1);
  }

  /** The round that finds no second tree: what stands is the code tree. */
  method Settle(
    table: array<Data>, left: int, top: nat, dataNum: nat,
    ghost w: seq<nat>, ghost f: map<nat, Tree>, ghost home: seq<nat>) returns (root: nat, ghost t: Tree)
    requires Growing(table[..], w, f, home, top) && 2 <= dataNum == |w|
    requires left < top && forall i :: 0 <= i < top && i != left ==> !Alive(table[i])
    requires left >= 0 ==> Alive(table[left])
    modifies table
    ensures root == t.no && Grown(table[..], w, t)
  {
    root := top;
    if top == dataNum {
      var leaf := if left < 0 then 0 else left;
      t := PlantSingle(table, leaf, w, f, home);
    } else {
      root := root - 1;
      assert RootOk(table[..], w, f[root], root, top);
      LastTree(table[..], w, f, home, top, root);
      t := f[root];
      assert Distinct(t) && t.left.no in Nodes(t.left);
      assert !Single(t);
    }
  }

  lemma TwoFound(
    table: seq<Data>, w: seq<nat>, f: map<nat, Tree>, home: seq<nat>, top: nat, left: int, right: nat)
    requires Forest(table, w, f, home, top) && IsLightest(table, right, top, left)
    requires left < 0 ==> forall i :: 0 <= i < top ==> !Alive(table[i])
    requires left >= 0 ==> IsLightest(table, left, top, -1)
    ensures left >= 0 && left in f && right in f && left != right
  {
  }

  /** The state between rounds. */
  ghost predicate Growing(table: seq<Data>, w: seq<nat>, f: map<nat, Tree>, home: seq<nat>, top: nat) {
    && Forest(table, w, f, home, top) && Joined(table, w, top) && ParentsUnder(table, top)
    && if top == |w| then Counted(table, w) else top > |w| && top - 1 in f
  }

  /** What the rounds end with. */
  ghost predicate Grown(table: seq<Data>, w: seq<nat>, t: Tree) {
    && CodeTree(t) && Numbered(t, |w|) && Internals(t) < |w| && Bounded(w, t) && Held(table, t, 0)
    && table[t.no].bit == 0 && InOrder(table, w, t)
    && forall j :: 0 <= j < |w| && w[j] > 0 ==> j in Nodes(t)
  }

  /** One round: either a second tree is found and the two lightest are joined, or the tree is finished. */
  method Round(
    table: array<Data>, top: nat, dataNum: nat, ghost w: seq<nat>, ghost f: map<nat, Tree>, ghost home: seq<nat>)
    returns (done: bool, root: nat, ghost t: Tree, ghost f': map<nat, Tree>, ghost home': seq<nat>)
    requires Growing(table[..], w, f, home, top) && 2 <= dataNum == |w| && Sum(w) < U32_LIMIT
    modifies table
    ensures !done ==> top < table.Length && Growing(table[..], w, f', home', top + 1)
    ensures done ==> root == t.no && Grown(table[..], w, t)
  {
    f', home', t, root := f, home, Leaf(0), 0;
    var left := FindLightest(table, top, -1);
    var right := FindLightest(table, top, left);
    done := right < 0;
    if done {
      root, t := Settle(table, left, top, dataNum, w, f, home);
    } else {
      f', home' := JoinFound(table, left, right, top, w, f, home);
    }
  }

  /** The round that finds two trees. */
  method JoinFound(
    table: array<Data>, left: int, right: nat, top: nat,
    ghost w: seq<nat>, ghost f: map<nat, Tree>, ghost home: seq<nat>)
    returns (ghost f': map<nat, Tree>, ghost home': seq<nat>)
    requires Growing(table[..], w, f, home, top) && 2 <= |w| && Sum(w) < U32_LIMIT
    requires IsLightest(table[..], right, top, left)
    requires left < 0 ==> forall i :: 0 <= i < top ==> !Alive(table[i])
    requires left >= 0 ==> IsLightest(table[..], left, top, -1)
    modifies table
    ensures top < table.Length && Growing(table[..], w, f', home', top + 1)
  {
    ghost var a := table[..];
    TwoFound(a, w, f, home, top, left, right);
    Join(table, left, right, top, w, f, home);
    JoinedMore(a, table[..], w, f[left], f[right], top);
    f', home' := NewForest(f, left, right, top), NewHome(home, left, right, top);
  }

  /** Codes and sizes, once the tree stands. */
  method Annotate(table: array<Data>, root: nat, ghost w: seq<nat>, ghost t: Tree)
    requires t.no == root && Grown(table[..], w, t) && |w| <= 256
    modifies table
    ensures CodeTable(table[..], w, t) && InOrder(table[..], w, t)
  {
    ghost var a := table[..];
    HeldRepresents(a, t, 0);
    AddCode(table, root, 0, t);
    ghost var b := table[..];
    HeldCoded(a, b, t, 0, Nodes(t));
    CodedRepresents(a, b, Nodes(t), t);
    var count := AddCountHWord(table, root, t);
    HeldSized(b, table[..], t, 0, Nodes(t));
    SizedCodes(b, table[..], Nodes(t), t, 0);
    OrderKept(a, b, table[..], w, t);
  }

  /** Codes and sizes leave the order of joining as it was. */
  lemma OrderKept(a: seq<Data>, b: seq<Data>, c: seq<Data>, w: seq<nat>, t: Tree)
    requires InOrder(a, w, t) && Coded(a, b, Nodes(t)) && Sized(b, c, Nodes(t))
    ensures InOrder(c, w, t)
  {
    forall i | 0 <= i < |a|
      ensures c[i].freq == a[i].freq && c[i].paNo == a[i].paNo && c[i].ch0 == a[i].ch0 && c[i].ch1 == a[i].ch1
    {
      assert b[i].(code := a[i].code) == a[i] && c[i].(hword := b[i].hword) == b[i];
    }
    if !Single(t) {
      JoinedSame(a, c, w, t.no + 1);
    }
  }

  lemma FirstState(table: seq<Data>, w: seq<nat>) returns (f: map<nat, Tree>, home: seq<nat>)
    requires Counted(table, w)
    ensures Growing(table, w, f, home, |w|)
  {
    f, home := FirstForest(w), seq(|w|, i requires 0 <= i < |w| => i);
    FirstForestHolds(table, w);
  }

  /** constructTree: the table of a greedy code tree for the counted symbols. */
  method ConstructTree(table: array<Data>, dataNum: nat, ghost w: seq<nat>) returns (root: nat, ghost t: Tree)
    requires Counted(table[..], w) && 2 <= dataNum == |w| <= 256 && Sum(w) < U32_LIMIT
    modifies table
    ensures CodeTable(table[..], w, t) && root == t.no && Bounded(w, t) && InOrder(table[..], w, t)
  {
    var top := dataNum;
    ghost var f, home := FirstState(table[..], w);
    var done;
    done, root, t, f, home := Round(table, top, dataNum, w, f, home);
    while !done
      invariant if done then root == t.no && Grown(table[..], w, t)
                else top < table.Length && Growing(table[..], w, f, home, top + 1)
      decreases !done, table.Length - top
    {
      top := top + 1;
      done, root, t, f, home := Round(table, top, dataNum, w, f, home);
    }
    Annotate(table, root, w, t);
  }
}
