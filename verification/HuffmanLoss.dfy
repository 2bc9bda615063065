/** What the 32-bit word of the Huffman coder makes of codes longer than 25 bits (src/huffman.cpp, compress): the
    oldest pending digits are shifted out of the word before they are drained, and stored as zeros. */
module HuffmanLoss {
  import opened Bytes
  import opened HuffmanTable
  import opened HuffmanTree
  import opened HuffmanCode
  import opened HuffmanStream

  // ----- The digits stored -----

  /** Where the digits begin that have not been drained yet. */
  function Pending(s: seq<bool>): (k: nat)
    ensures k <= |s| && |s| - k == |s| % 8
  {
    |s| - |s| % 8
  }

  /** The digits `s` when a code of `size` digits comes in: those for which the word has no room are zeros. */
  function Squeezed(s: seq<bool>, size: nat): (r: seq<bool>)
    ensures |r| == |s|
  {
    s[..Pending(s)] + Blanked(s[Pending(s)..], Lost(|s| % 8, size))
  }

  /** The digits stored for a run of symbols. */
  function Stored(t: Tree, syms: seq<byte>, dataNum: nat): seq<bool>
    requires Numbered(t, dataNum)
  {
    if syms == [] then []
    else
      var p := Path(t, syms[|syms| - 1], dataNum);
      Squeezed(Stored(t, syms[..|syms| - 1], dataNum), |p|) + p
  }

  /** What one push makes of the digits drained and the digits pending. */
  lemma SqueezedParts(front: seq<bool>, tail: seq<bool>, size: nat)
    requires |front| % 8 == 0 && |tail| < 8
    ensures Squeezed(front + tail, size) == front + Blanked(tail, Lost(|tail|, size))
  {
    var s := front + tail;
    assert |s| % 8 == |tail|;
    assert s[..Pending(s)] == front && s[Pending(s)..] == tail;
  }

  // ----- When nothing is lost -----

  /** The digits of `s` that a code of `size` digits pushes out are zeros anyway. */
  predicate Harmless(s: seq<bool>, size: nat) {
    forall j :: Pending(s) <= j < Pending(s) + Lost(|s| % 8, size) ==> !s[j]
  }

  /** No code of the run pushes out a digit that matters. */
  predicate NothingLost(t: Tree, syms: seq<byte>, dataNum: nat)
    requires Numbered(t, dataNum)
  {
    forall i :: 0 <= i < |syms| ==> Harmless(Encoded(t, syms[..i], dataNum), |Path(t, syms[i], dataNum)|)
  }

  /** Digits are only ever turned into zeros. */
  lemma SqueezedAt(s: seq<bool>, size: nat)
    ensures forall j :: 0 <= j < |s| ==>
      Squeezed(s, size)[j] == (s[j] && !(Pending(s) <= j < Pending(s) + Lost(|s| % 8, size)))
  {
  }

  lemma HarmlessIff(s: seq<bool>, size: nat)
    ensures Squeezed(s, size) == s <==> Harmless(s, size)
  {
    SqueezedAt(s, size);
    if Harmless(s, size) {
      assert forall j :: 0 <= j < |s| ==> Squeezed(s, size)[j] == s[j];
    }
  }

  /** `s` has its ones among those of `e`. */
  predicate Within(s: seq<bool>, e: seq<bool>) {
    |s| == |e| && forall j :: 0 <= j < |s| ==> s[j] ==> e[j]
  }

  lemma {:induction false} StoredWithin(t: Tree, syms: seq<byte>, dataNum: nat)
    requires Numbered(t, dataNum)
    ensures Within(Stored(t, syms, dataNum), Encoded(t, syms, dataNum))
  {
    if syms != [] {
      var front, v := syms[..|syms| - 1], syms[|syms| - 1];
      StoredWithin(t, front, dataNum);
      EncodedSnoc(t, front, v, dataNum);
      assert front + [v] == syms;
      SqueezedAt(Stored(t, front, dataNum), |Path(t, v, dataNum)|);
    }
  }

  /** A step keeps all digits exactly if all have been kept before and the code pushes out only zeros. */
  lemma StepKeeps(s: seq<bool>, e: seq<bool>, p: seq<bool>)
    requires Within(s, e)
    ensures Squeezed(s, |p|) + p == e + p <==> s == e && Harmless(e, |p|)
  {
    SqueezedAt(s, |p|);
    HarmlessIff(e, |p|);
    if Squeezed(s, |p|) + p == e + p {
      assert Squeezed(s, |p|) == (e + p)[..|e|] == e;
      assert forall j :: 0 <= j < |s| ==> s[j] == e[j];
    }
  }

  /** The stored digits are the codes if and only if nothing is lost. */
  lemma {:induction false} StoredIff(t: Tree, syms: seq<byte>, dataNum: nat)
    requires Numbered(t, dataNum)
    ensures Stored(t, syms, dataNum) == Encoded(t, syms, dataNum) <==> NothingLost(t, syms, dataNum)
  {
    if syms != [] {
      var front, v := syms[..|syms| - 1], syms[|syms| - 1];
      StoredIff(t, front, dataNum);
      StoredWithin(t, front, dataNum);
      EncodedSnoc(t, front, v, dataNum);
      assert front + [v] == syms;
      StepKeeps(Stored(t, front, dataNum), Encoded(t, front, dataNum), Path(t, v, dataNum));
      OneMore(t, front, v, dataNum);
    }
  }

  lemma OneMore(t: Tree, front: seq<byte>, v: byte, dataNum: nat)
    requires Numbered(t, dataNum)
    ensures NothingLost(t, front + [v], dataNum) <==>
      NothingLost(t, front, dataNum) && Harmless(Encoded(t, front, dataNum), |Path(t, v, dataNum)|)
  {
    var syms := front + [v];
    assert forall i :: 0 <= i < |front| ==> syms[..i] == front[..i];
    assert syms[..|front|] == front && syms[|front|] == v;
  }

  /** Codes of at most 25 bits always have room. */
  lemma ShortCodesFit(t: Tree, syms: seq<byte>, dataNum: nat)
    requires Numbered(t, dataNum) && Height(t) <= 25
    ensures NothingLost(t, syms, dataNum)
  {
  }

  // ----- What is decoded has been stored -----

  lemma {:induction false} LeafInTree(t: Tree, v: nat)
    requires HasLeaf(t, v)
    ensures v in Nodes(t)
  {
    if t.Node? {
      LeafInTree(if HasLeaf(t.left, v) then t.left else t.right, v);
    }
  }

  /** When the walk yields symbols, the digits begin with the path of the first one. */
  lemma {:induction false} WalkedPath(
    b: seq<byte>, k: nat, t: Tree, bits: seq<bool>, s: seq<byte>, need: nat, bitSize: nat, dataNum: nat)
    requires 1 < |b| && t.Node? && Realises(b, k, t) && Numbered(t, dataNum) && Distinct(t) && bitSize == 8
    requires need > 0 && DecodeSymbols(b, k, bits, need, bitSize) == Some(s)
    ensures s != [] && HasLeaf(t, s[0]) && Path(t, s[0], dataNum) <= bits
    ensures DecodeSymbols(b, 1, bits[|Path(t, s[0], dataNum)|..], need - 1, bitSize) == Some(s[1..])
    decreases t
  {
    var u, next := if bits[0] then t.right else t.left, NextByte(b, k, bits[0]);
    assert next == 2 * PairOf(b, k) + if bits[0] then 1 else 0;
    if u.Leaf? {
      assert s[0] == b[next] == u.no;
    } else {
      WalkedPath(b, next, u, bits[1..], s, need, bitSize, dataNum);
    }
    LeafInTree(u, s[0]);
    OneStep(t, bits, s[0], dataNum);
  }

  lemma OneStep(t: Tree, bits: seq<bool>, v: nat, dataNum: nat)
    requires t.Node? && Numbered(t, dataNum) && Distinct(t) && bits != []
    requires var u := if bits[0] then t.right else t.left;
      HasLeaf(u, v) && v in Nodes(u) && Path(u, v, dataNum) <= bits[1..]
    ensures var u := if bits[0] then t.right else t.left;
      && HasLeaf(t, v) && Path(t, v, dataNum) == [bits[0]] + Path(u, v, dataNum)
      && Path(t, v, dataNum) <= bits
      && bits[|Path(t, v, dataNum)|..] == bits[1..][|Path(u, v, dataNum)|..]
  {
    if bits[0] && HasLeaf(t.left, v) {
      LeafInTree(t.left, v);
    }
  }

  /** Symbols that are decoded have their codes at the beginning of the digits. */
  lemma {:induction false} DecodedStands(
    b: seq<byte>, t: Tree, bits: seq<bool>, s: seq<byte>, need: nat, bitSize: nat, dataNum: nat)
    requires 1 < |b| && t.Node? && Realises(b, 1, t) && Numbered(t, dataNum) && Distinct(t) && bitSize == 8
    requires DecodeSymbols(b, 1, bits, need, bitSize) == Some(s)
    ensures Encoded(t, s, dataNum) <= bits
    decreases need
  {
    if need > 0 {
      WalkedPath(b, 1, t, bits, s, need, bitSize, dataNum);
      var p := Path(t, s[0], dataNum);
      DecodedStands(b, t, bits[|p|..], s[1..], need - 1, bitSize, dataNum);
      assert bits == p + bits[|p|..];
    }
  }
}
