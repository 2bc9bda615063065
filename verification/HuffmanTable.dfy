/** The flat node table of the Huffman coder (src/huffman.cpp), the trees it stands for, and the three
    recursions that write depths, codes and sizes into it. */
module HuffmanTable {
  import opened Bytes

  /** A code tree whose nodes carry their table numbers. */
  datatype Tree = Leaf(no: nat) | Node(no: nat, left: Tree, right: Tree)

  datatype Data = Data(
    freq: nat, paNo: int, ch0: int, ch1: int, paDepth: nat, leafDepth: nat, code: nat, bit: nat, hword: nat)

  ghost function Nodes(t: Tree): (s: set<nat>)
    ensures t.no in s
  {
    if t.Leaf? then {t.no} else {t.no} + Nodes(t.left) + Nodes(t.right)
  }

  /** No table entry is used twice. */
  ghost predicate Distinct(t: Tree) {
    t.Node? ==>
      && t.no !in Nodes(t.left) && t.no !in Nodes(t.right) && Nodes(t.left) !! Nodes(t.right)
      && Distinct(t.left) && Distinct(t.right)
  }

  function Height(t: Tree): (h: nat)
    ensures h == 0 <==> t.Leaf?
  {
    if t.Leaf? then 0 else 1 + Max(Height(t.left), Height(t.right))
  }

  /** The number of internal nodes. */
  function Internals(t: Tree): (n: nat)
    ensures n == 0 <==> t.Leaf?
  {
    if t.Leaf? then 0 else 1 + Internals(t.left) + Internals(t.right)
  }

  /** The table holds the shape of `t`. */
  ghost predicate Represents(table: seq<Data>, t: Tree) {
    && t.no < |table| && table[t.no].leafDepth == Height(t)
    && (t.Node? ==>
          && table[t.no].ch0 == t.left.no && table[t.no].ch1 == t.right.no
          && Represents(table, t.left) && Represents(table, t.right))
  }

  // ----- Depths -----

  /** `b` is `a` with one added to the depth of every entry in `s`. */
  ghost predicate Deepened(a: seq<Data>, b: seq<Data>, s: set<nat>) {
    && |a| == |b|
    && forall i :: 0 <= i < |a| ==> b[i] == if i in s then a[i].(paDepth := a[i].paDepth + 1) else a[i]
  }

  lemma DeepenedTwice(a: seq<Data>, b: seq<Data>, c: seq<Data>, s: set<nat>, u: set<nat>)
    requires Deepened(a, b, s) && Deepened(b, c, u) && s !! u
    ensures Deepened(a, c, s + u)
  {
  }

  lemma {:induction false} DeepenedRepresents(a: seq<Data>, b: seq<Data>, s: set<nat>, t: Tree)
    requires Deepened(a, b, s) && Represents(a, t)
    ensures Represents(b, t)
  {
    if t.Node? {
      DeepenedRepresents(a, b, s, t.left);
      DeepenedRepresents(a, b, s, t.right);
    }
  }

  ghost function Below(t: Tree): set<nat> {
    if t.Leaf? then {} else Nodes(t.left) + Nodes(t.right)
  }

  lemma DeepenPair(
    a: seq<Data>, b: seq<Data>, c: seq<Data>, d: seq<Data>, l: Tree, r: Tree)
    requires Distinct(l) && Distinct(r) && Nodes(l) !! Nodes(r)
    requires Deepened(a, b, {l.no, r.no}) && Deepened(b, c, Below(l)) && Deepened(c, d, Below(r))
    ensures Deepened(a, d, Nodes(l) + Nodes(r))
  {
    DeepenedTwice(a, b, c, {l.no, r.no}, Below(l));
    DeepenedTwice(a, c, d, {l.no, r.no} + Below(l), Below(r));
    assert {l.no, r.no} + Below(l) + Below(r) == Nodes(l) + Nodes(r);
  }

  /** addParentDepthToTable: two trees sink one level below a new parent. */
  method AddParentDepth(table: array<Data>, leftNo: nat, rightNo: nat, ghost l: Tree, ghost r: Tree)
    requires leftNo == l.no && rightNo == r.no
    requires Represents(table[..], l) && Represents(table[..], r)
    requires Distinct(l) && Distinct(r) && Nodes(l) !! Nodes(r)
    modifies table
    ensures Deepened(old(table[..]), table[..], Nodes(l) + Nodes(r))
    decreases Internals(l) + Internals(r)
  {
    ghost var t0 := table[..];
    table[leftNo] := table[leftNo].(paDepth := table[leftNo].paDepth + 1);
    table[rightNo] := table[rightNo].(paDepth := table[rightNo].paDepth + 1);
    ghost var t1 := table[..];
    assert Deepened(t0, t1, {l.no, r.no});
    DeepenedRepresents(t0, t1, {l.no, r.no}, l);
    DeepenedRepresents(t0, t1, {l.no, r.no}, r);
    if table[leftNo].leafDepth != 0 {
      AddParentDepth(table, table[leftNo].ch0, table[leftNo].ch1, l.left, l.right);
    }
    ghost var t2 := table[..];
    assert Deepened(t1, t2, Below(l));
    DeepenedRepresents(t1, t2, Below(l), r);
    if table[rightNo].leafDepth != 0 {
      AddParentDepth(table, table[rightNo].ch0, table[rightNo].ch1, r.left, r.right);
    }
    DeepenPair(t0, t1, t2, table[..], l, r);
  }

  // ----- Codes -----

  /** Every node of `t` carries its parent's code followed by its own bit, in 32-bit arithmetic. */
  ghost predicate CodesOk(table: seq<Data>, t: Tree, paCode: nat) {
    && t.no < |table| && table[t.no].code == (2 * paCode + table[t.no].bit) % U32_LIMIT
    && (t.Node? ==>
          CodesOk(table, t.left, table[t.no].code) && CodesOk(table, t.right, table[t.no].code))
  }

  /** The tree made for a file with at most one distinct symbol: both children are the same leaf. */
  ghost predicate Single(t: Tree) {
    t.Node? && t.left.Leaf? && t.right == t.left && t.no != t.left.no
  }

  ghost predicate CodeTree(t: Tree) {
    t.Node? && (Distinct(t) || Single(t))
  }

  /** `b` is `a` except for codes in `s`. */
  ghost predicate Coded(a: seq<Data>, b: seq<Data>, s: set<nat>) {
    && |a| == |b|
    && forall i :: 0 <= i < |a| ==> b[i].(code := a[i].code) == a[i] && (i !in s ==> b[i] == a[i])
  }

  lemma {:induction false} CodedRepresents(a: seq<Data>, b: seq<Data>, s: set<nat>, t: Tree)
    requires Coded(a, b, s) && Represents(a, t)
    ensures Represents(b, t)
  {
    assert b[t.no].(code := a[t.no].code) == a[t.no];
    if t.Node? {
      CodedRepresents(a, b, s, t.left);
      CodedRepresents(a, b, s, t.right);
    }
  }

  lemma CodedTwice(a: seq<Data>, b: seq<Data>, c: seq<Data>, s: set<nat>, u: set<nat>)
    requires Coded(a, b, s) && Coded(b, c, u)
    ensures Coded(a, c, s + u)
  {
    forall i | 0 <= i < |a| ensures c[i].(code := a[i].code) == a[i] && (i !in s + u ==> c[i] == a[i]) {
      assert c[i].(code := b[i].code) == b[i];
      assert b[i].(code := a[i].code) == a[i];
    }
  }

  lemma {:induction false} CodesFrame(a: seq<Data>, b: seq<Data>, t: Tree, paCode: nat, s: set<nat>)
    requires Coded(a, b, s) && CodesOk(a, t, paCode) && s !! Nodes(t)
    ensures CodesOk(b, t, paCode)
  {
    assert b[t.no] == a[t.no];
    if t.Node? {
      CodesFrame(a, b, t.left, a[t.no].code, s);
      CodesFrame(a, b, t.right, a[t.no].code, s);
    }
  }

  /** Coding the second child keeps the codes of the first. */
  lemma CodesJoin(a: seq<Data>, b: seq<Data>, t: Tree, paCode: nat)
    requires CodeTree(t) && Coded(a, b, Nodes(t.right))
    requires t.no < |a| && a[t.no].code == (2 * paCode + a[t.no].bit) % U32_LIMIT
    requires CodesOk(a, t.left, a[t.no].code) && CodesOk(b, t.right, a[t.no].code)
    ensures CodesOk(b, t, paCode)
  {
    assert t.no !in Nodes(t.right);
    assert b[t.no] == a[t.no];
    if Distinct(t) {
      CodesFrame(a, b, t.left, a[t.no].code, Nodes(t.right));
    }
  }

  /** addCodeToTable: a node's code is its parent's code and its own bit. */
  method AddCode(table: array<Data>, no: nat, paCode: nat, ghost t: Tree)
    requires no == t.no && Represents(table[..], t) && (Distinct(t) || Single(t))
    modifies table
    ensures CodesOk(table[..], t, paCode) && Coded(old(table[..]), table[..], Nodes(t))
    decreases t
  {
    ghost var t0 := table[..];
    var code := (paCode * 2 + table[no].bit) % U32_LIMIT;
    table[no] := table[no].(code := code);
    ghost var t1 := table[..];
    assert Coded(t0, t1, {no});
    if table[no].leafDepth != 0 {
      CodedRepresents(t0, t1, {no}, t);
      AddCode(table, table[no].ch0, code, t.left);
      ghost var t2 := table[..];
      CodedRepresents(t1, t2, Nodes(t.left), t);
      assert t2[no] == t1[no];
      AddCode(table, table[no].ch1, code, t.right);
      CodesJoin(t2, table[..], t, paCode);
      CodedTwice(t0, t1, t2, {no}, Nodes(t.left));
      CodedTwice(t0, t2, table[..], {no} + Nodes(t.left), Nodes(t.right));
    }
  }

  // ----- Sizes -----

  /** Every internal node records how many internal nodes its subtree has. */
  ghost predicate SizesOk(table: seq<Data>, t: Tree) {
    && t.no < |table|
    && (t.Node? ==>
          && table[t.no].hword == Internals(t) && SizesOk(table, t.left) && SizesOk(table, t.right))
  }

  /** `b` is `a` except for sizes in `s`. */
  ghost predicate Sized(a: seq<Data>, b: seq<Data>, s: set<nat>) {
    && |a| == |b|
    && forall i :: 0 <= i < |a| ==> b[i].(hword := a[i].hword) == a[i] && (i !in s ==> b[i] == a[i])
  }

  lemma {:induction false} SizedRepresents(a: seq<Data>, b: seq<Data>, s: set<nat>, t: Tree)
    requires Sized(a, b, s) && Represents(a, t)
    ensures Represents(b, t)
  {
    assert b[t.no].(hword := a[t.no].hword) == a[t.no];
    if t.Node? {
      SizedRepresents(a, b, s, t.left);
      SizedRepresents(a, b, s, t.right);
    }
  }

  lemma {:induction false} SizedCodes(a: seq<Data>, b: seq<Data>, s: set<nat>, t: Tree, paCode: nat)
    requires Sized(a, b, s) && CodesOk(a, t, paCode)
    ensures CodesOk(b, t, paCode)
  {
    assert b[t.no].(hword := a[t.no].hword) == a[t.no];
    if t.Node? {
      SizedCodes(a, b, s, t.left, a[t.no].code);
      SizedCodes(a, b, s, t.right, a[t.no].code);
    }
  }

  lemma SizedTwice(a: seq<Data>, b: seq<Data>, c: seq<Data>, s: set<nat>, u: set<nat>)
    requires Sized(a, b, s) && Sized(b, c, u)
    ensures Sized(a, c, s + u)
  {
    forall i | 0 <= i < |a| ensures c[i].(hword := a[i].hword) == a[i] && (i !in s + u ==> c[i] == a[i]) {
      assert c[i].(hword := b[i].hword) == b[i];
      assert b[i].(hword := a[i].hword) == a[i];
    }
  }

  lemma {:induction false} SizesFrame(a: seq<Data>, b: seq<Data>, t: Tree, s: set<nat>)
    requires Sized(a, b, s) && SizesOk(a, t) && s !! Nodes(t)
    ensures SizesOk(b, t)
  {
    assert b[t.no] == a[t.no];
    if t.Node? {
      SizesFrame(a, b, t.left, s);
      SizesFrame(a, b, t.right, s);
    }
  }

  lemma HeightOne(t: Tree)
    requires t.Node? && Height(t) == 1
    ensures t.left.Leaf? && t.right.Leaf? && Internals(t) == 1
  {
  }

  lemma WrapsNot(x: nat)
    requires x < 256
    ensures x % 256 == x
  {
  }

  lemma SizesJoin(a: seq<Data>, b: seq<Data>, c: seq<Data>, t: Tree)
    requires CodeTree(t) && Sized(a, b, Nodes(t.left) + Nodes(t.right)) && SizesOk(b, t.left) && SizesOk(b, t.right)
    requires t.no < |b| && c == b[t.no := b[t.no].(hword := Internals(t))]
    ensures SizesOk(c, t) && Sized(a, c, Nodes(t))
  {
    assert Sized(b, c, {t.no});
    SizesFrame(b, c, t.left, {t.no});
    SizesFrame(b, c, t.right, {t.no});
    SizedTwice(a, b, c, Nodes(t.left) + Nodes(t.right), {t.no});
    assert Nodes(t.left) + Nodes(t.right) + {t.no} == Nodes(t);
  }

  /** addCountHWordToTable: each internal node is given the number of half-words its subtree takes. */
  method AddCountHWord(table: array<Data>, no: nat, ghost t: Tree) returns (count: nat)
    requires no == t.no && Represents(table[..], t) && (Distinct(t) || Single(t)) && Internals(t) < 256
    modifies table
    ensures count == Internals(t) && SizesOk(table[..], t) && Sized(old(table[..]), table[..], Nodes(t))
    decreases t
  {
    ghost var t0 := table[..];
    var l: nat, r: nat := 0, 0;
    if table[no].leafDepth == 0 {
      return 0;
    } else if table[no].leafDepth == 1 {
      HeightOne(t);
      assert Sized(t0, table[..], Nodes(t.left) + Nodes(t.right));
    } else {
      l := AddCountHWord(table, table[no].ch0, t.left);
      ghost var t1 := table[..];
      SizedRepresents(t0, t1, Nodes(t.left), t);
      r := AddCountHWord(table, table[no].ch1, t.right);
      SizesFrame(t1, table[..], t.left, Nodes(t.right));
      SizedTwice(t0, t1, table[..], Nodes(t.left), Nodes(t.right));
    }
    ghost var t2 := table[..];
    count := l + r + 1;
    assert count == Internals(t);
    table[no] := table[no].(hword := count);
    WrapsNot(count);
    count := count % 256;
    SizesJoin(t0, t2, table[..], t);
  }
}
