/** The serialised code tree as the decoder reads it: what its bytes mean, the check made before decoding,
    and the round trip through the codes (src/huffman.cpp, Uncompress and verifyHuffmanTable). */
module HuffmanCode {
  import opened Bytes
  import opened HuffmanTable
  import opened HuffmanTree
  import opened HuffmanLayout

  // ----- Codes -----

  /** The way from the root to a symbol; false is left. */
  function Path(t: Tree, sym: nat, dataNum: nat): (p: seq<bool>)
    requires Numbered(t, dataNum)
    ensures |p| <= Height(t)
  {
    if t.Leaf? then []
    else if HasLeaf(t.left, sym) then [false] + Path(t.left, sym, dataNum)
    else [true] + Path(t.right, sym, dataNum)
  }

  predicate HasLeaf(t: Tree, sym: nat) {
    if t.Leaf? then t.no == sym else HasLeaf(t.left, sym) || HasLeaf(t.right, sym)
  }

  lemma {:induction false} SymbolIsLeaf(t: Tree, sym: nat, dataNum: nat)
    requires Numbered(t, dataNum) && sym in Nodes(t) && sym < dataNum
    ensures HasLeaf(t, sym)
  {
    if t.Node? {
      if sym in Nodes(t.left) {
        SymbolIsLeaf(t.left, sym, dataNum);
      } else {
        SymbolIsLeaf(t.right, sym, dataNum);
      }
    }
  }

  lemma BitsSnoc(p: seq<bool>, b: bool)
    ensures Bits(p + [b]) == 2 * Bits(p) + if b then 1 else 0
  {
    assert (p + [b])[..|p|] == p;
  }

  lemma WrapDouble(x: nat, b: nat)
    ensures (2 * (x % U32_LIMIT) + b) % U32_LIMIT == (2 * x + b) % U32_LIMIT
  {
  }

  /** The table's depth and code of a symbol are the length and the value of its path. */
  lemma {:induction false} PathInTable(
    table: seq<Data>, t: Tree, d: nat, prefix: seq<bool>, paCode: nat, sym: nat, dataNum: nat)
    requires Held(table, t, d) && CodesOk(table, t, paCode) && Numbered(t, dataNum) && HasLeaf(t, sym)
    requires table[t.no].code == Bits(prefix) % U32_LIMIT && d == |prefix|
    ensures sym < |table| && table[sym].paDepth == d + |Path(t, sym, dataNum)|
    ensures table[sym].code == Bits(prefix + Path(t, sym, dataNum)) % U32_LIMIT
  {
    if t.Leaf? {
      assert prefix + [] == prefix;
    } else {
      var right := !HasLeaf(t.left, sym);
      var u := if right then t.right else t.left;
      var code := table[t.no].code;
      BitsSnoc(prefix, right);
      WrapDouble(Bits(prefix), if right then 1 else 0);
      assert table[u.no].bit == if right then 1 else 0;
      PathInTable(table, u, d + 1, prefix + [right], code, sym, dataNum);
      assert prefix + [right] + Path(u, sym, dataNum) == prefix + Path(t, sym, dataNum);
    }
  }

  /** Codes of at most 32 bits are stored in full. */
  lemma CodeInTable(table: seq<Data>, w: seq<nat>, t: Tree, sym: nat)
    requires CodeTable(table, w, t) && HasLeaf(t, sym) && Height(t) <= 32
    ensures sym < |table| && table[sym].paDepth == |Path(t, sym, |w|)| && table[sym].code == Bits(Path(t, sym, |w|))
  {
    var p := Path(t, sym, |w|);
    PathInTable(table, t, 0, [], 0, sym, |w|);
    assert [] + p == p;
    ShortCode(p);
  }

  lemma ShortCode(p: seq<bool>)
    requires |p| <= 32
    ensures Bits(p) % U32_LIMIT == Bits(p)
  {
    BitsBound(p);
    ShlMonotone(|p|, 32);
    Powers();
  }

  // ----- The byte tree -----

  function LeftIsLeaf(b: byte): bool { b >= 128 }

  function RightIsLeaf(b: byte): bool { b / 64 % 2 == 1 }

  /** The byte pair that byte `k` points at. */
  function PairOf(b: seq<byte>, k: nat): nat
    requires k < |b|
  {
    k / 2 + b[k] as int % 64 + 1
  }

  /** Byte `k` of the section stands for `t`. */
  predicate Realises(b: seq<byte>, k: nat, t: Tree)
    decreases t
  {
    && k < |b|
    && (t.Leaf? ==> b[k] == t.no)
    && (t.Node? ==>
          var p := PairOf(b, k);
          && 2 * p + 1 < |b| && LeftIsLeaf(b[k]) == t.left.Leaf? && RightIsLeaf(b[k]) == t.right.Leaf?
          && Realises(b, 2 * p, t.left) && Realises(b, 2 * p + 1, t.right))
  }

  /** The decoder's walk: one bit leads from byte `k` to one of the bytes of its pair. */
  function NextByte(b: seq<byte>, k: nat, bit: bool): nat
    requires k < |b|
  {
    k / 2 * 2 + (b[k] as int % 64 + 1) * 2 + if bit then 1 else 0
  }

  function Prepend(s: seq<byte>, r: Option<seq<byte>>): Option<seq<byte>> {
    if r.None? then None else Some(s + r.value)
  }

  /** Decodes `need` symbols of `bitSize` bits, starting from byte `k`. */
  function DecodeSymbols(b: seq<byte>, k: nat, bits: seq<bool>, need: nat, bitSize: nat): Option<seq<byte>>
    requires 1 < |b| && k < |b|
    decreases |bits|
  {
    if need == 0 then Some([])
    else if bits == [] then None
    else
      var next := NextByte(b, k, bits[0]);
      if next >= |b| then None
      else if (if bits[0] then RightIsLeaf(b[k]) else LeftIsLeaf(b[k])) then
        Prepend([SymbolOf(b[next], bitSize)], DecodeSymbols(b, 1, bits[1..], need - 1, bitSize))
      else DecodeSymbols(b, next, bits[1..], need, bitSize)
  }

  function SymbolOf(v: byte, bitSize: nat): byte { if bitSize == 4 then v % 16 else v }

  /** The codes of a run of symbols. */
  function Encoded(t: Tree, syms: seq<byte>, dataNum: nat): seq<bool>
    requires Numbered(t, dataNum)
  {
    if syms == [] then [] else Path(t, syms[0], dataNum) + Encoded(t, syms[1..], dataNum)
  }

  lemma {:induction false} EncodedSnoc(t: Tree, syms: seq<byte>, v: byte, dataNum: nat)
    requires Numbered(t, dataNum)
    ensures Encoded(t, syms + [v], dataNum) == Encoded(t, syms, dataNum) + Path(t, v, dataNum)
  {
    if syms == [] {
      assert [v][1..] == [];
      assert Encoded(t, [v], dataNum) == Path(t, v, dataNum) + [];
    } else {
      EncodedSnoc(t, syms[1..], v, dataNum);
      assert (syms + [v])[1..] == syms[1..] + [v];
      var a, b, c := Path(t, syms[0], dataNum), Encoded(t, syms[1..], dataNum), Path(t, v, dataNum);
      assert a + (b + c) == a + b + c;
    }
  }

  predicate SymbolsOf(t: Tree, syms: seq<byte>, bitSize: nat) {
    forall i :: 0 <= i < |syms| ==> HasLeaf(t, syms[i]) && SymbolOf(syms[i], bitSize) == syms[i]
  }

  /** Walking a symbol's path yields the symbol and returns to the root. */
  lemma {:induction false} WalkPath(
    b: seq<byte>, k: nat, t: Tree, sym: byte, rest: seq<bool>, need: nat, bitSize: nat, dataNum: nat)
    requires 1 < |b| && t.Node? && Realises(b, k, t) && Numbered(t, dataNum) && HasLeaf(t, sym) && need > 0
    requires SymbolOf(sym, bitSize) == sym
    ensures
      DecodeSymbols(b, k, Path(t, sym, dataNum) + rest, need, bitSize)
      == Prepend([sym], DecodeSymbols(b, 1, rest, need - 1, bitSize))
    decreases t
  {
    var right := !HasLeaf(t.left, sym);
    var u := if right then t.right else t.left;
    var bits := Path(t, sym, dataNum) + rest;
    var next := NextByte(b, k, right);
    assert next == 2 * PairOf(b, k) + if right then 1 else 0;
    assert bits[0] == right;
    assert bits[1..] == Path(u, sym, dataNum) + rest;
    if u.Leaf? {
      assert bits[1..] == rest;
    } else {
      WalkPath(b, next, u, sym, rest, need, bitSize, dataNum);
    }
  }

  /** Decoding inverts coding, whatever follows the code bits. */
  lemma {:induction false} DecodeEncoded(
    b: seq<byte>, t: Tree, syms: seq<byte>, rest: seq<bool>, bitSize: nat, dataNum: nat)
    requires 1 < |b| && t.Node? && Realises(b, 1, t) && Numbered(t, dataNum) && SymbolsOf(t, syms, bitSize)
    ensures DecodeSymbols(b, 1, Encoded(t, syms, dataNum) + rest, |syms|, bitSize) == Some(syms)
  {
    if syms != [] {
      var p, q := Path(t, syms[0], dataNum), Encoded(t, syms[1..], dataNum);
      assert p + q + rest == p + (q + rest);
      WalkPath(b, 1, t, syms[0], q + rest, |syms|, bitSize, dataNum);
      DecodeEncoded(b, t, syms[1..], rest, bitSize, dataNum);
      assert [syms[0]] + syms[1..] == syms;
    }
  }

  // ----- The layout as a byte tree -----

  /** The tree section of a file: the size byte, the laid-out pairs, and a pair of zeros if their number is odd. */
  function Section(s: seq<Cell>): (b: seq<byte>)
    requires 2 <= |s| <= 512 && |s| % 2 == 0
    ensures |b| == 2 * Align(|s| / 2, 2) && b[0] == Align(|s| / 2, 2) - 1
    ensures forall k :: 1 <= k < |s| ==> b[k] == s[k].value
    ensures forall k :: |s| <= k < |b| ==> b[k] == 0
  {
    var n := Align(|s| / 2, 2);
    seq(2 * n, k requires 0 <= k < 2 * n =>
      if k == 0 then n - 1 else if k < |s| then s[k].value else 0)
  }

  ghost predicate Done(s: seq<Cell>, t: Tree) {
    && Structured(s, t) && Exact(s) && 2 <= |s| <= 512
    && forall k :: 0 <= k < |s| ==> !s[k].pending
  }

  lemma ParentBits(l: bool, r: bool, d: nat)
    requires d < 64
    ensures var b := ParentByte(l, r, d); b % 64 == d && LeftIsLeaf(b) == l && RightIsLeaf(b) == r
  {
  }

  /** Bytes below `dataNum` leaves carry symbols. */
  lemma {:induction false} LayoutRealises(s: seq<Cell>, t: Tree, k: nat, dataNum: nat)
    requires t.Node? && Done(s, t) && 1 <= k < |s| && Numbered(s[k].tree, dataNum) && dataNum <= 256
    ensures Realises(Section(s), k, s[k].tree)
    decreases s[k].tree
  {
    var c, b := s[k], Section(s);
    assert CellOk(s, k) && ExactAt(s, k);
    if c.tree.Node? {
      ParentBits(c.tree.left.Leaf?, c.tree.right.Leaf?, c.pair - k / 2 - 1);
      assert PairOf(b, k) == c.pair;
      LayoutRealises(s, t, 2 * c.pair, dataNum);
      LayoutRealises(s, t, 2 * c.pair + 1, dataNum);
    }
  }

  // ----- The check before decoding -----

  function SectionSize(b: seq<byte>): nat
    requires |b| > 0
  {
    2 * (b[0] as int + 1)
  }

  /** Leaves that byte `k`, taken as a node, marks in its pair. */
  function Marks(b: seq<byte>, k: nat): set<nat>
    requires k < |b|
  {
    var p := PairOf(b, k);
    (if LeftIsLeaf(b[k]) then {2 * p} else {}) + if RightIsLeaf(b[k]) then {2 * p + 1} else {}
  }

  /** A zero byte in the last pair is taken for padding. */
  predicate Padding(b: seq<byte>, k: nat)
    requires k < |b|
  {
    b[k] == 0 && k >= 2 * b[0] as int
  }

  /** verifyHuffmanTable's scan from byte `k` on, with the leaves marked so far. */
  predicate ScanAccepts(b: seq<byte>, k: nat, marked: set<nat>)
    requires |b| > 0 && SectionSize(b) <= |b|
    decreases SectionSize(b) - k
  {
    k >= SectionSize(b)
    || (if k in marked || Padding(b, k) then ScanAccepts(b, k + 1, marked)
        else 2 * PairOf(b, k) < SectionSize(b) && ScanAccepts(b, k + 1, marked + Marks(b, k)))
  }

  predicate Accepts(b: seq<byte>, bitSize: nat)
    requires |b| > 0 && SectionSize(b) <= |b|
  {
    !(bitSize == 4 && b[0] >= 0x10) && ScanAccepts(b, 1, {})
  }

  method VerifyHuffmanTable(b: seq<byte>, bitSize: nat) returns (ok: bool)
    requires |b| > 0 && SectionSize(b) <= |b|
    ensures ok == Accepts(b, bitSize)
  {
    var size := b[0] as int;
    if bitSize == 4 && size >= 0x10 {
      return false;
    }
    var endFlags := new bool[512](_ => false);
    ghost var marked: set<nat> := {};
    var k := 1;
    while k < (size + 1) * 2
      invariant 1 <= k <= SectionSize(b)
      invariant forall j: nat :: j < 512 ==> endFlags[j] == (j in marked)
      invariant ScanAccepts(b, 1, {}) == ScanAccepts(b, k, marked)
    {
      if !endFlags[k] && !(b[k] == 0 && k >= size * 2) {
        var offset := (b[k] as int % 64 + 1) * 2;
        var node := k / 2 * 2 + offset;
        assert node == 2 * PairOf(b, k);
        if node >= (size + 1) * 2 {
          return false;
        }
        if b[k] >= 128 {
          endFlags[node] := true;
        }
        if b[k] / 64 % 2 == 1 {
          endFlags[node + 1] := true;
        }
        marked := marked + Marks(b, k);
      }
      k := k + 1;
    }
    return true;
  }

  /** The leaves whose parents lie before byte `k`. */
  function Marked(s: seq<Cell>, k: nat): set<nat> {
    set j: nat | 2 <= j < |s| && s[j].tree.Leaf? && s[j].owner < k
  }

  /** A placed node marks exactly its own leaves. */
  lemma MarksOwnLeaves(s: seq<Cell>, t: Tree, b: seq<byte>, k: nat)
    requires Done(s, t) && Section(s) <= b && 1 <= k < |s| && s[k].tree.Node?
    ensures Marked(s, k + 1) == Marked(s, k) + Marks(b, k) && 2 * PairOf(b, k) < |s| && !Padding(b, k)
  {
    var c := s[k];
    assert CellOk(s, k) && ExactAt(s, k);
    assert b[k] == Section(s)[k] == c.value && b[0] == Section(s)[0];
    ParentBits(c.tree.left.Leaf?, c.tree.right.Leaf?, c.pair - k / 2 - 1);
    assert PairOf(b, k) == c.pair;
    forall j | 2 <= j < |s| ensures s[j].owner == k <==> j / 2 == c.pair {
      assert CellOk(s, j);
      OwnersPair(s, k, j);
    }
    MarksSplit(s, b, k, c.pair);
  }

  lemma OwnersPair(s: seq<Cell>, k: nat, j: nat)
    requires k < |s| && 2 <= j < |s| && CellOk(s, k) && CellOk(s, j) && s[k].tree.Node? && !s[k].pending
    ensures s[j].owner == k <==> j / 2 == s[k].pair
  {
    assert j == 2 * (j / 2) || j == 2 * (j / 2) + 1;
  }

  lemma MarksSplit(s: seq<Cell>, b: seq<byte>, k: nat, p: nat)
    requires k < |b| && 2 <= 2 * p && 2 * p + 1 < |s| && PairOf(b, k) == p
    requires LeftIsLeaf(b[k]) == s[2 * p].tree.Leaf? && RightIsLeaf(b[k]) == s[2 * p + 1].tree.Leaf?
    requires forall j :: 2 <= j < |s| ==> (s[j].owner == k <==> j / 2 == p)
    ensures Marked(s, k + 1) == Marked(s, k) + Marks(b, k)
  {
    forall j: nat ensures j in Marked(s, k + 1) <==> j in Marked(s, k) || j in Marks(b, k) {
      assert j == 2 * (j / 2) || j == 2 * (j / 2) + 1;
    }
  }

  lemma {:induction false} LayoutScans(s: seq<Cell>, t: Tree, b: seq<byte>, k: nat)
    requires t.Node? && Done(s, t) && Section(s) <= b && 1 <= k
    ensures SectionSize(b) == |Section(s)| <= |b| && ScanAccepts(b, k, Marked(s, k))
    decreases SectionSize(b) - k
  {
    assert b[0] == Section(s)[0];
    if k < SectionSize(b) {
      LayoutScans(s, t, b, k + 1);
      if k < |s| {
        LayoutScansByte(s, t, b, k);
      } else {
        assert b[k] == Section(s)[k] == 0;
        assert Marked(s, k + 1) == Marked(s, k) by {
          forall j | 2 <= j < |s| ensures s[j].owner < |s| {
            assert CellOk(s, j);
          }
        }
      }
    }
  }

  lemma LayoutScansByte(s: seq<Cell>, t: Tree, b: seq<byte>, k: nat)
    requires t.Node? && Done(s, t) && Section(s) <= b && 1 <= k < |s|
    requires SectionSize(b) == |Section(s)| && ScanAccepts(b, k + 1, Marked(s, k + 1))
    ensures ScanAccepts(b, k, Marked(s, k))
  {
    assert CellOk(s, k);
    if s[k].tree.Node? {
      MarksOwnLeaves(s, t, b, k);
    } else {
      forall j | 2 <= j < |s| ensures s[j].owner != k {
        assert CellOk(s, j);
      }
      assert Marked(s, k + 1) == Marked(s, k);
    }
  }

  /** The byte tree of an exact layout passes the decoder's check. */
  lemma LayoutAccepted(s: seq<Cell>, t: Tree, b: seq<byte>, bitSize: nat)
    requires t.Node? && Done(s, t) && Section(s) <= b && (bitSize == 4 ==> |s| <= 32)
    ensures SectionSize(b) <= |b| && Accepts(b, bitSize)
  {
    LayoutScans(s, t, b, 1);
    assert Marked(s, 1) == {} by {
      forall j | 2 <= j < |s| && s[j].tree.Leaf? ensures s[j].owner >= 1 {
        assert CellOk(s, j) && CellOk(s, 0);
      }
    }
    assert b[0] == Section(s)[0];
  }
}
