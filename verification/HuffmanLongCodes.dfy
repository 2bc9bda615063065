/** A file that the Huffman coder does not restore (src/huffman.cpp, compress): its 27 byte values occur so unevenly
    that two of them get codes of 26 bits, and the bytes come in an order in which such a code pushes out a one. */
module HuffmanLongCodes {
  import opened Bytes
  import opened HuffmanTable
  import opened HuffmanTree
  import opened HuffmanLayout
  import opened HuffmanCode
  import opened HuffmanLoss
  import opened Huffman
  import HuffmanStream

  // ----- Weights that double -----

  /** Once, once, twice, four times, and so on. */
  function Times(k: nat): nat { if k == 0 then 1 else Shl(1, k - 1) }

  /** The first `n + 1` symbols occur that often, the others not at all. */
  predicate Doubling(w: seq<nat>, n: nat) {
    n < |w| && forall k :: 0 <= k < |w| ==> w[k] == if k <= n then Times(k) else 0
  }

  lemma {:induction false} DoublingSum(w: seq<nat>, n: nat, k: nat)
    requires Doubling(w, n) && n < k <= |w|
    ensures Sum(w[..k]) == Shl(1, n)
    decreases k
  {
    assert w[..k][..k - 1] == w[..k - 1];
    if k > n + 1 {
      DoublingSum(w, n, k - 1);
    } else {
      FirstSum(w, n, n);
    }
  }

  lemma {:induction false} FirstSum(w: seq<nat>, n: nat, k: nat)
    requires Doubling(w, n) && k <= n
    ensures Sum(w[..k + 1]) == Shl(1, k)
  {
    assert w[..k + 1][..k] == w[..k];
    if k > 0 {
      FirstSum(w, n, k - 1);
    } else {
      assert w[..0] == [];
    }
  }

  // ----- The shape of the tree -----

  lemma {:induction false} LeafWeighs(w: seq<nat>, t: Tree, n: nat)
    requires HasLeaf(t, n) && n < |w|
    ensures Weight(w, t) >= w[n]
  {
    if t.Node? {
      LeafWeighs(w, if HasLeaf(t.left, n) then t.left else t.right, n);
    }
  }

  /** A symbol that weighs as much as all the others stands right below the root. */
  lemma HeavyIsLeaf(w: seq<nat>, x: Tree, y: Tree, n: nat)
    requires n < |w| && HasLeaf(x, n) && AllCounted(w, x) && Outweighs(w, y, x)
    requires Weight(w, x) + Weight(w, y) <= 2 * w[n]
    ensures x == Leaf(n)
  {
    if x.Node? {
      var (a, b) := if HasLeaf(x.left, n) then (x.left, x.right) else (x.right, x.left);
      LeafWeighs(w, a, n);
      SomeWeight(w, b);
    }
  }

  /** A greedy tree over symbols up to `n`, the last of which weighs as much as all the others. */
  ghost predicate Spine(w: seq<nat>, t: Tree, n: nat) {
    && Numbered(t, |w|) && Distinct(t) && Greedy(w, t) && AllCounted(w, t)
    && Weight(w, t) <= Shl(1, n) && forall j :: 0 <= j <= n ==> HasLeaf(t, j)
  }

  /** Its heaviest symbol is one child of the root, and the other child is such a tree again. */
  lemma SpineStep(w: seq<nat>, t: Tree, n: nat, k: nat) returns (right: bool, u: Tree)
    requires Spine(w, t, n) && 0 < n <= k && Doubling(w, k)
    ensures t.Node? && u == (if right then t.right else t.left) && Spine(w, u, n - 1)
    ensures (if right then t.left else t.right) == Leaf(n)
    ensures Path(t, n, |w|) == [!right]
    ensures forall j :: 0 <= j < n ==> Path(t, j, |w|) == [right] + Path(u, j, |w|)
  {
    assert HasLeaf(t, n) && HasLeaf(t, 0);
    assert Shl(1, n) == 2 * w[n];
    right := HasLeaf(t.left, n);
    if right {
      u := t.right;
      HeavyIsLeaf(w, t.left, t.right, n);
    } else {
      u := t.left;
      HeavyIsLeaf(w, t.right, t.left, n);
    }
    OtherPaths(t, n, |w|, right, u);
  }

  lemma OtherPaths(t: Tree, n: nat, dataNum: nat, right: bool, u: Tree)
    requires t.Node? && Numbered(t, dataNum) && Distinct(t) && forall j :: 0 <= j <= n ==> HasLeaf(t, j)
    requires if right then t.left == Leaf(n) && u == t.right else t.right == Leaf(n) && u == t.left
    ensures Path(t, n, dataNum) == [!right]
    ensures forall j :: 0 <= j < n ==> HasLeaf(u, j) && Path(t, j, dataNum) == [right] + Path(u, j, dataNum)
  {
    if !right && HasLeaf(t.left, n) {
      LeafInTree(t.left, n);
    }
    forall j | 0 <= j < n ensures HasLeaf(u, j) && Path(t, j, dataNum) == [right] + Path(u, j, dataNum) {
      assert HasLeaf(t, j) && !HasLeaf(Leaf(n), j);
    }
  }

  /** The lengths of the codes: the lighter a symbol, the longer its code. */
  lemma {:induction false} SpineDepth(w: seq<nat>, t: Tree, n: nat, m: nat, k: nat)
    requires Spine(w, t, n) && 0 < n <= m && Doubling(w, m) && k <= n
    ensures |Path(t, k, |w|)| == n + 1 - Max(k, 1)
  {
    var right, u := SpineStep(w, t, n, m);
    if k < n {
      if n > 1 {
        SpineDepth(w, u, n - 1, m, k);
      } else {
        LightestIsLeaf(w, u);
      }
    }
  }

  /** A tree of weight one is a leaf. */
  lemma LightestIsLeaf(w: seq<nat>, u: Tree)
    requires Spine(w, u, 0)
    ensures u.Leaf?
  {
    if u.Node? {
      SomeWeight(w, u.left);
      SomeWeight(w, u.right);
    }
  }

  /** The tree that the coder makes for such weights. */
  lemma CodeTreeIsSpine(table: seq<Data>, w: seq<nat>, t: Tree, n: nat)
    requires CodeTable(table, w, t) && Bounded(w, t) && Doubling(w, n) && n > 0
    ensures Spine(w, t, n)
  {
    forall j | 0 <= j <= n ensures HasLeaf(t, j) {
      ShlPositive(j);
      assert w[j] > 0;
      SymbolIsLeaf(t, j, |w|);
    }
    NotSingle(t, 0, 1);
    WeightAtMostTotal(w, t);
    DoublingSum(w, n, |w|);
    assert w[..|w|] == w;
  }

  lemma NotSingle(t: Tree, i: nat, j: nat)
    requires HasLeaf(t, i) && HasLeaf(t, j) && i != j
    ensures !Single(t)
  {
  }

  lemma ShlPositive(j: nat)
    ensures Times(j) > 0
  {
    if j > 0 {
      ShlMonotone(0, j - 1);
    }
  }

  // ----- The file -----

  lemma {:induction false} OccurrencesConcat(s: seq<byte>, u: seq<byte>, v: nat)
    ensures Occurrences(s + u, v) == Occurrences(s, v) + Occurrences(u, v)
  {
    if u == [] {
      assert s + u == s;
    } else {
      OccurrencesConcat(s, u[..|u| - 1], v);
      assert (s + u)[..|s + u| - 1] == s + u[..|u| - 1];
    }
  }

  lemma {:induction false} CopiesOccur(b: byte, n: nat, v: nat)
    ensures Occurrences(Repeated(b, n), v) == if v == b then n else 0
  {
    if n > 0 {
      CopiesOccur(b, n - 1, v);
      assert Repeated(b, n)[..n - 1] == Repeated(b, n - 1);
    }
  }

  /** Each of the first `n` symbols as often as `w` says, in order. */
  function Sorted(w: seq<nat>, n: nat): seq<byte>
    requires n <= |w| <= 256
  {
    if n == 0 then [] else Sorted(w, n - 1) + Repeated(n - 1, w[n - 1])
  }

  lemma {:induction false} SortedOccur(w: seq<nat>, n: nat, v: nat)
    requires n <= |w| <= 256
    ensures Occurrences(Sorted(w, n), v) == if v < n then w[v] else 0
  {
    if n > 0 {
      SortedOccur(w, n - 1, v);
      CopiesOccur(n - 1, w[n - 1], v);
      OccurrencesConcat(Sorted(w, n - 1), Repeated(n - 1, w[n - 1]), v);
    }
  }

  /** The beginning of the file. */
  const START: seq<byte> := [20, 1, 20, 26, 21, 0]

  function Taken(k: nat): nat { if k == 20 then 2 else if k == 0 || k == 1 || k == 21 || k == 26 then 1 else 0 }

  /** What is left of the weights behind it. */
  function Rest(): (w: seq<nat>)
    ensures |w| == 256
  {
    seq(256, k requires 0 <= k < 256 => if k <= 26 then Max(Times(k) - Taken(k), 0) else 0)
  }

  /** 64 MiB, which the decoder does not give back. */
  function Unlucky(): seq<byte> { START + Sorted(Rest(), 256) }

  lemma OneMoreOccurs(s: seq<byte>, b: byte, v: nat)
    ensures Occurrences(s + [b], v) == Occurrences(s, v) + if b == v then 1 else 0
  {
    assert (s + [b])[..|s|] == s;
  }

  lemma StartOccurs(v: nat)
    ensures Occurrences(START, v) == Taken(v)
  {
    OneMoreOccurs([], 20, v);
    OneMoreOccurs([20], 1, v);
    OneMoreOccurs([20, 1], 20, v);
    OneMoreOccurs([20, 1, 20], 26, v);
    OneMoreOccurs([20, 1, 20, 26], 21, v);
    OneMoreOccurs([20, 1, 20, 26, 21], 0, v);
    assert [] + [20 as byte] == [20];
    assert [20 as byte] + [1] == [20, 1];
    assert [20 as byte, 1] + [20] == [20, 1, 20];
    assert [20 as byte, 1, 20] + [26] == [20, 1, 20, 26];
    assert [20 as byte, 1, 20, 26] + [21] == [20, 1, 20, 26, 21];
    assert [20 as byte, 1, 20, 26, 21] + [0] == START;
  }

  lemma EnoughLeft(k: nat)
    requires k <= 26
    ensures Times(k) >= Taken(k)
  {
    if k >= 2 {
      ShlMonotone(1, k - 1);
      assert Shl(1, 1) == 2;
    } else {
      ShlPositive(k);
    }
  }

  /** Its symbols occur as often as it takes for codes of 26 bits. */
  lemma UnluckyDoubles(n: nat)
    requires n == 26
    ensures Doubling(Weights(Unlucky(), 256), n)
  {
    var w := Weights(Unlucky(), 256);
    forall k | 0 <= k < 256 ensures w[k] == if k <= n then Times(k) else 0 {
      OccurrencesConcat(START, Sorted(Rest(), 256), k);
      StartOccurs(k);
      SortedOccur(Rest(), 256, k);
      if k <= n {
        EnoughLeft(k);
      }
    }
  }

  lemma UnluckySize(k: nat)
    requires k == 26
    ensures |Unlucky()| == Shl(1, k) < U32_LIMIT
  {
    var data := Unlucky();
    var w := Weights(data, 256);
    UnluckyDoubles(k);
    DoublingSum(w, k, 256);
    assert w[..256] == w;
    WeightsSum(data, 256);
    ShlMonotone(k, 31);
    Powers();
  }

  // ----- What is lost -----

  /** The first digit of the heaviest symbol is not that of the others. */
  lemma FirstDigits(w: seq<nat>, t: Tree, n: nat, k: nat)
    requires Spine(w, t, n) && 0 < n && Doubling(w, n) && k < n
    ensures Path(t, k, |w|) != [] && Path(t, n, |w|) != [] && Path(t, k, |w|)[0] != Path(t, n, |w|)[0]
  {
    var right, u := SpineStep(w, t, n, n);
  }

  /** A one at the head of seven pending digits is pushed out by a code of 26. */
  lemma HarmfulAt(s: seq<bool>, front: seq<bool>, tail: seq<bool>)
    requires s == front + tail && |front| % 8 == 0 && |tail| == 7 && tail[0]
    ensures !Harmless(s, 26)
  {
    assert Pending(s) == |front| && HuffmanStream.Lost(|s| % 8, 26) == 1;
    assert s[|front|];
  }

  lemma {:induction false} SpineHeight(w: seq<nat>, t: Tree, n: nat, m: nat)
    requires Spine(w, t, n) && 0 < n <= m && Doubling(w, m)
    ensures Height(t) <= n
  {
    var right, u := SpineStep(w, t, n, m);
    if n > 1 {
      SpineHeight(w, u, n - 1, m);
    } else {
      LightestIsLeaf(w, u);
    }
  }

  lemma CodesOfFirst(t: Tree, data: seq<byte>, dataNum: nat)
    requires Numbered(t, dataNum) && |data| >= 1
    ensures Encoded(t, data[..1], dataNum) == Path(t, data[0], dataNum)
  {
    CodesOfNext(t, data, 0, dataNum);
    assert data[..0] == [];
  }

  lemma CodesOfNext(t: Tree, data: seq<byte>, k: nat, dataNum: nat)
    requires Numbered(t, dataNum) && k < |data|
    ensures Encoded(t, data[..k + 1], dataNum) == Encoded(t, data[..k], dataNum) + Path(t, data[k], dataNum)
  {
    EncodedSnoc(t, data[..k], data[k], dataNum);
    assert data[..k + 1] == data[..k] + [data[k]];
  }

  lemma CodesOfThree(t: Tree, data: seq<byte>, dataNum: nat)
    requires Numbered(t, dataNum) && |data| >= 3
    ensures Encoded(t, data[..3], dataNum)
      == Path(t, data[0], dataNum) + Path(t, data[1], dataNum) + Path(t, data[2], dataNum)
  {
    CodesOfFirst(t, data, dataNum);
    CodesOfNext(t, data, 1, dataNum);
    CodesOfNext(t, data, 2, dataNum);
  }

  lemma CodesOfTwoMore(t: Tree, data: seq<byte>, k: nat, dataNum: nat)
    requires Numbered(t, dataNum) && k + 1 < |data|
    ensures Encoded(t, data[..k + 2], dataNum)
      == Encoded(t, data[..k], dataNum) + (Path(t, data[k], dataNum) + Path(t, data[k + 1], dataNum))
  {
    CodesOfNext(t, data, k, dataNum);
    CodesOfNext(t, data, k + 1, dataNum);
    Associate(Encoded(t, data[..k], dataNum), Path(t, data[k], dataNum), Path(t, data[k + 1], dataNum));
  }

  /** Whichever way the tree branches, one of the two codes of 26 bits pushes out a one. */
  lemma SomethingLost(w: seq<nat>, t: Tree, data: seq<byte>, n: nat)
    requires Spine(w, t, n) && Doubling(w, n) && n == 26 && START <= data
    ensures !NothingLost(t, data, |w|)
  {
    SpineDepth(w, t, n, n, 20);
    SpineDepth(w, t, n, n, 1);
    SpineDepth(w, t, n, n, 26);
    SpineDepth(w, t, n, n, 21);
    SpineDepth(w, t, n, n, 0);
    FirstDigits(w, t, n, 20);
    HeadOfStart(data);
    if Path(t, 20, |w|)[0] {
      CodesOfFirst(t, data, |w|);
      HarmfulAt(Encoded(t, data[..1], |w|), [], Encoded(t, data[..1], |w|));
      assert !Harmless(Encoded(t, data[..1], |w|), |Path(t, data[1], |w|)|);
    } else {
      CodesOfThree(t, data, |w|);
      CodesOfTwoMore(t, data, 3, |w|);
      HarmfulAt(
        Encoded(t, data[..5], |w|), Encoded(t, data[..3], |w|), Path(t, data[3], |w|) + Path(t, data[4], |w|));
      assert !Harmless(Encoded(t, data[..5], |w|), |Path(t, data[5], |w|)|);
    }
  }

  lemma HeadOfStart(data: seq<byte>)
    requires START <= data
    ensures |data| >= 6 && data[0] == 20 && data[1] == 1 && data[2] == 20
    ensures data[3] == 26 && data[4] == 21 && data[5] == 0
  {
    assert forall i :: 0 <= i < 6 ==> data[i] == START[i];
  }

  /** Data that occurs so often and begins like that is not restored. */
  lemma StartIsLost(
    data: seq<byte>, align: nat, table: seq<Data>, w: seq<nat>, t: Tree, capacity: nat, bitSize: nat, n: nat)
    requires bitSize == 8 && align > 0 && capacity >= |data| && |data| < U32_LIMIT && |table| == 2 * DataNum(bitSize)
    requires w == Weights(Symbols(data, bitSize), DataNum(bitSize)) && CodeTable(table, w, t) && Bounded(w, t)
    requires n == 26 && Doubling(w, n) && START <= data
    ensures Stands(data, bitSize, align, table, t) && !Restores(data, bitSize, align, table, t, capacity)
  {
    CodeTreeIsSpine(table, w, t, n);
    SpineHeight(w, t, n, n);
    SomethingLost(w, t, data, n);
    RoundTripIff(data, bitSize, align, table, w, t, capacity);
  }

  /** The file that the coder makes of these 64 MiB does not decompress to them. */
  lemma NotRestored(align: nat, table: seq<Data>, w: seq<nat>, t: Tree, capacity: nat, bitSize: nat)
    requires bitSize == 8 && align > 0 && capacity >= |Unlucky()| && |table| == 2 * DataNum(bitSize)
    requires w == Weights(Symbols(Unlucky(), bitSize), DataNum(bitSize)) && CodeTable(table, w, t) && Bounded(w, t)
    ensures |Unlucky()| == 0x400_0000 && Stands(Unlucky(), bitSize, align, table, t)
    ensures !Restores(Unlucky(), bitSize, align, table, t, capacity)
  {
    UnluckySize(26);
    TwentySix(26);
    UnluckyDoubles(26);
    StartIsLost(Unlucky(), align, table, w, t, capacity, bitSize, 26);
  }

  lemma TwentySix(k: nat)
    requires k == 26
    ensures Shl(1, k) == 0x400_0000
  {
    assert Shl(1, 8) == 256;
    assert Shl(1, 16) == 0x10000;
  }
}
