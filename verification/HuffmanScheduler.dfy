/** makeHuffTree and its helpers over the working arrays (src/huffman.cpp): they carry out exactly the
    layout of `HuffmanLayout`. */
module HuffmanScheduler {
  import opened Bytes
  import opened HuffmanTable
  import opened HuffmanTree
  import opened HuffmanLayout

  /** STreeCtrlData: which of the two nodes of a byte pair still need a place, and their table numbers. */
  datatype Ctrl = Ctrl(leftNeed: nat, rightNeed: nat, leftNo: nat, rightNo: nat)

  const IDLE := Ctrl(1, 1, 0, 0)

  function Need(c: seq<Ctrl>, k: nat): nat
    requires k / 2 < |c|
  {
    if k % 2 == 0 then c[k / 2].leftNeed else c[k / 2].rightNeed
  }

  function NodeNo(c: seq<Ctrl>, k: nat): nat
    requires k / 2 < |c|
  {
    if k % 2 == 0 then c[k / 2].leftNo else c[k / 2].rightNo
  }

  /** The table knows the shape and the sizes of `t`. */
  ghost predicate Tabled(table: seq<Data>, t: Tree) { Represents(table, t) && SizesOk(table, t) }

  /** The arrays agree with byte `k` of the layout, or have not been touched there. */
  ghost predicate ShownAt(table: seq<Data>, tree: seq<byte>, c: seq<Ctrl>, s: seq<Cell>, k: nat)
    requires k < |tree| == 2 * |c|
  {
    if k < |s| then
      && tree[k] == s[k].value && Need(c, k) == (if s[k].pending then 1 else 0)
      && (s[k].pending ==> s[k].tree.no == NodeNo(c, k) && Tabled(table, s[k].tree))
    else tree[k] == 0 && Need(c, k) == 1
  }

  ghost predicate Shown(table: seq<Data>, tree: seq<byte>, c: seq<Ctrl>, s: seq<Cell>) {
    && |tree| == 512 && |c| == 256 && WellShaped(s) && 2 <= |s| && |s| / 2 + Rem(s, |s|) <= 256
    && forall k :: 0 <= k < 512 ==> ShownAt(table, tree, c, s, k)
  }

  lemma ShownAtPair(table: seq<Data>, tree: seq<byte>, c: seq<Ctrl>, s: seq<Cell>, i: nat)
    requires Shown(table, tree, c, s) && i < 256
    ensures ShownAt(table, tree, c, s, 2 * i) && ShownAt(table, tree, c, s, 2 * i + 1)
    ensures Need(c, 2 * i) == c[i].leftNeed && Need(c, 2 * i + 1) == c[i].rightNeed
    ensures NodeNo(c, 2 * i) == c[i].leftNo && NodeNo(c, 2 * i + 1) == c[i].rightNo
  {
  }

  /** The control data after byte `i` has been given the next pair. */
  function Settled(c: seq<Ctrl>, no: nat, right: bool, top: nat, l: Tree, r: Tree): (d: seq<Ctrl>)
    requires no < top < |c|
    ensures |d| == |c|
  {
    c[no := if right then c[no].(rightNeed := 0) else c[no].(leftNeed := 0)]
     [top := Ctrl(
        if l.Leaf? then 0 else c[top].leftNeed, if r.Leaf? then 0 else c[top].rightNeed,
        if l.Leaf? then l.no % 256 else l.no, if r.Leaf? then r.no % 256 else r.no)]
  }

  function Stored(tree: seq<byte>, i: nat, top: nat, l: Tree, r: Tree, b: byte): (d: seq<byte>)
    requires i / 2 < top && 2 * top + 1 < |tree|
    ensures |d| == |tree|
  {
    tree[2 * top := if l.Leaf? then l.no % 256 else tree[2 * top]]
        [2 * top + 1 := if r.Leaf? then r.no % 256 else tree[2 * top + 1]][i := b]
  }

  lemma Halves(i: nat, no: nat, right: bool)
    requires i == 2 * no + if right then 1 else 0
    ensures i / 2 == no && (i % 2 == 1) == right
  {
  }

  lemma EvenHalf(n: nat, top: nat)
    requires n % 2 == 0 && top == n / 2
    ensures n == 2 * top
  {
  }

  lemma PlaceShownAt(
    table: seq<Data>, tree: seq<byte>, c: seq<Ctrl>, s: seq<Cell>, no: nat, right: bool, i: nat, top: nat, k: nat)
    requires |tree| == 512 && |c| == 256 && |s| == 2 * top && no < top < 256 && k < 512
    requires i == 2 * no + (if right then 1 else 0) && i / 2 == no && Waiting(s, i)
    requires ShownAt(table, tree, c, s, k) && Tabled(table, s[i].tree)
    requires ShownAt(table, tree, c, s, 2 * top) && ShownAt(table, tree, c, s, 2 * top + 1)
    ensures
      var t := s[i].tree;
      var b := ParentByte(t.left.Leaf?, t.right.Leaf?, top - no - 1);
      ShownAt(table, Stored(tree, i, top, t.left, t.right, b), Settled(c, no, right, top, t.left, t.right),
              Place(s, i), k)
  {
    var t := s[i].tree;
    Halves(k, k / 2, k % 2 == 1);
    assert k == 2 * (k / 2) + k % 2;
    Halves(i, no, right);
  }

  lemma PlaceShown(
    table: seq<Data>, tree: seq<byte>, c: seq<Ctrl>, s: seq<Cell>, no: nat, right: bool, i: nat, top: nat)
    requires Shown(table, tree, c, s) && |s| == 2 * top && top < 256
    requires i == 2 * no + (if right then 1 else 0) && Waiting(s, i)
    ensures
      var t := s[i].tree;
      var b := ParentByte(t.left.Leaf?, t.right.Leaf?, top - no - 1);
      Shown(table, Stored(tree, i, top, t.left, t.right, b), Settled(c, no, right, top, t.left, t.right), Place(s, i))
  {
    Halves(i, no, right);
    PlaceTotals(s, i);
    PlaceShape(s, i);
    assert ShownAt(table, tree, c, s, i);
    var t := s[i].tree;
    var b := ParentByte(t.left.Leaf?, t.right.Leaf?, top - no - 1);
    var tree', c' := Stored(tree, i, top, t.left, t.right, b), Settled(c, no, right, top, t.left, t.right);
    var s' := Place(s, i);
    forall k | 0 <= k < 512 ensures ShownAt(table, tree', c', s', k) {
      PlaceShownAt(table, tree, c, s, no, right, i, top, k);
    }
  }

  lemma ChildrenTabled(table: seq<Data>, t: Tree)
    requires Tabled(table, t) && t.Node?
    ensures t.no < |table| && table[t.no].ch0 == t.left.no && table[t.no].ch1 == t.right.no
    ensures t.left.no < |table| && (table[t.left.no].leafDepth == 0 <==> t.left.Leaf?)
    ensures t.right.no < |table| && (table[t.right.no].leafDepth == 0 <==> t.right.Leaf?)
  {
    assert Represents(table, t.left) && Represents(table, t.right);
  }

  /** TreeTop is a byte: it is 0 again when all 256 pairs are in use, and then nothing waits. */
  lemma TopCovers(s: seq<Cell>, treeTop: nat)
    requires WellShaped(s) && 2 <= |s| && |s| / 2 + Rem(s, |s|) <= 256 && treeTop == |s| / 2 % 256
    ensures 2 * treeTop <= |s| && (treeTop > 0 ==> 2 * treeTop == |s|)
    ensures forall k :: 2 * treeTop <= k < |s| ==> !s[k].pending
    ensures Count(s, 2 * treeTop) == Count(s, |s|)
  {
    EvenHalf(|s|, |s| / 2);
    if |s| == 512 {
      forall k | 0 <= k < |s| ensures !s[k].pending {
        if s[k].pending {
          RoomLeft(s, k);
        }
      }
      CountMonotone(s, 0, |s|);
    }
  }

  lemma {:induction false} LastFeasibleIdle(s: seq<Cell>, m: nat, n: nat)
    requires WellShaped(s) && m <= n <= |s| && forall k :: m <= k < n ==> !s[k].pending
    ensures LastFeasible(s, n) == LastFeasible(s, m)
  {
    if m < n {
      LastFeasibleIdle(s, m, n - 1);
    }
  }

  lemma {:induction false} FirstWaitingSkips(s: seq<Cell>, m: nat, n: nat)
    requires WellShaped(s) && m <= n <= |s| && forall k :: m <= k < n ==> !s[k].pending
    ensures FirstWaiting(s, m) == FirstWaiting(s, n)
    decreases n - m
  {
    if m < n {
      FirstWaitingSkips(s, m + 1, n);
    }
  }

  lemma NeedShown(table: seq<Data>, tree: seq<byte>, c: seq<Ctrl>, s: seq<Cell>, i: nat)
    requires Shown(table, tree, c, s) && 2 * i + 1 < |s| && i < 256
    ensures c[i].leftNeed == (if s[2 * i].pending then 1 else 0)
    ensures c[i].rightNeed == (if s[2 * i + 1].pending then 1 else 0)
    ensures s[2 * i].pending ==> c[i].leftNo < |table| && table[c[i].leftNo].hword == Internals(s[2 * i].tree) > 0
    ensures s[2 * i + 1].pending ==>
      c[i].rightNo < |table| && table[c[i].rightNo].hword == Internals(s[2 * i + 1].tree) > 0
  {
    ShownAtPair(table, tree, c, s, i);
    if s[2 * i].pending {
      assert Waiting(s, 2 * i);
    }
    if s[2 * i + 1].pending {
      assert Waiting(s, 2 * i + 1);
    }
  }

  /** Something waits only while there is room for another pair. */
  lemma RoomLeft(s: seq<Cell>, i: nat)
    requires WellShaped(s) && |s| / 2 + Rem(s, |s|) <= 256 && i < |s| && s[i].pending
    ensures Waiting(s, i) && |s| / 2 < 256
  {
    assert Waiting(s, i);
    PlaceTotals(s, i);
  }

  /** The choice within the first pair with a waiting node. */
  lemma PairChoice(s: seq<Cell>, i: nat)
    requires WellShaped(s) && 2 * i + 1 < |s| && (s[2 * i].pending || s[2 * i + 1].pending)
    ensures
      var k := FirstWaiting(s, 2 * i);
      && k.Some? && k.value <= 2 * i + 1
      && SingleChoice(s, k.value) ==
           if s[2 * i + 1].pending
              && (!s[2 * i].pending || Internals(s[2 * i + 1].tree) > Internals(s[2 * i].tree))
           then 2 * i + 1 else 2 * i
  {
    Halves(2 * i, i, false);
  }

  lemma {:induction false} FillIdle(s: seq<Cell>, k: nat)
    requires WellShaped(s) && k <= |s| && forall j :: k <= j < |s| ==> !s[j].pending
    ensures Fill(s, k) == s
    decreases |s| - k
  {
    if k < |s| {
      FillIdle(s, k + 1);
    }
  }

  /** SCompressionInfo. */
  class Info {
    const table: array<Data>
    const tree: array<byte>
    const ctrl: array<Ctrl>
    var treeTop: nat

    ghost predicate Shows(s: seq<Cell>)
      reads this, table, tree, ctrl
    {
      Shown(table[..], tree[..], ctrl[..], s) && treeTop == |s| / 2 % 256
    }

    /** initTable. */
    constructor (dataNum: nat)
      ensures fresh(table) && fresh(tree) && fresh(ctrl)
      ensures table.Length == 2 * dataNum && forall i :: 0 <= i < table.Length ==> table[i] == BLANK
      ensures tree.Length == 512 && forall i :: 0 <= i < 512 ==> tree[i] == 0
      ensures ctrl.Length == 256 && forall i :: 0 <= i < 256 ==> ctrl[i] == IDLE
      ensures treeTop == 1
    {
      table := new Data[2 * dataNum](_ => BLANK);
      tree := new byte[512](_ => 0);
      ctrl := new Ctrl[256](_ => IDLE);
      treeTop := 1;
    }

    /** setOneNodeOffset. */
    method SetOneNodeOffset(no: nat, right: bool, ghost s: seq<Cell>, ghost i: nat)
      requires Shows(s) && i == 2 * no + (if right then 1 else 0) && i < |s| && s[i].pending
      modifies `treeTop, tree, ctrl
      ensures Shows(Place(s, i))
    {
      Halves(i, no, right);
      RoomLeft(s, i);
      var top := treeTop;
      ghost var t := s[i].tree;
      ghost var before, ctrlBefore := tree[..], ctrl[..];
      assert top == |s| / 2;
      EvenHalf(|s|, top);
      assert ShownAt(table[..], tree[..], ctrl[..], s, i);
      assert ShownAt(table[..], tree[..], ctrl[..], s, 2 * top);
      assert ShownAt(table[..], tree[..], ctrl[..], s, 2 * top + 1);
      ChildrenTabled(table[..], t);
      var nodeNo := if right then ctrl[no].rightNo else ctrl[no].leftNo;
      ctrl[no] := if right then ctrl[no].(rightNeed := 0) else ctrl[no].(leftNeed := 0);
      assert nodeNo == t.no;
      var l: nat, r: nat := table[nodeNo].ch0, table[nodeNo].ch1;
      var leftLeaf, rightLeaf := table[l].leafDepth == 0, table[r].leafDepth == 0;
      WriteChildren(top, l, r, leftLeaf, rightLeaf);
      tree[no * 2 + if right then 1 else 0] := ParentByte(leftLeaf, rightLeaf, top - no - 1);
      treeTop := (top + 1) % 256;
      PlaceShown(table[..], before, ctrlBefore, s, no, right, i, top);
      assert tree[..] == Stored(before, i, top, t.left, t.right, ParentByte(t.left.Leaf?, t.right.Leaf?, top - no - 1));
      assert ctrl[..] == Settled(ctrlBefore, no, right, top, t.left, t.right);
    }

    /** The new pair: symbols for leaves, waiting nodes otherwise. */
    method WriteChildren(top: nat, l: nat, r: nat, leftLeaf: bool, rightLeaf: bool)
      requires 2 * top + 1 < tree.Length && top < ctrl.Length
      modifies tree, ctrl
      ensures ctrl[..] == old(ctrl[..])[top := Ctrl(
        if leftLeaf then 0 else old(ctrl[top]).leftNeed, if rightLeaf then 0 else old(ctrl[top]).rightNeed,
        if leftLeaf then l % 256 else l, if rightLeaf then r % 256 else r)]
      ensures tree[..] == old(tree[..])[2 * top := if leftLeaf then l % 256 else old(tree[2 * top])]
                                       [2 * top + 1 := if rightLeaf then r % 256 else old(tree[2 * top + 1])]
    {
      if leftLeaf {
        tree[top * 2] := l % 256;
        ctrl[top] := ctrl[top].(leftNo := l % 256, leftNeed := 0);
      } else {
        ctrl[top] := ctrl[top].(leftNo := l);
      }
      if rightLeaf {
        tree[top * 2 + 1] := r % 256;
        ctrl[top] := ctrl[top].(rightNo := r % 256, rightNeed := 0);
      } else {
        ctrl[top] := ctrl[top].(rightNo := r);
      }
    }

    /** The number of nodes that need a place. */
    method CountNeeds(ghost s: seq<Cell>) returns (n: nat)
      requires Shows(s)
      ensures n == Count(s, |s|)
    {
      TopCovers(s, treeTop);
      n := 0;
      for i := 0 to treeTop
        invariant n == Count(s, 2 * i)
      {
        NeedShown(table[..], tree[..], ctrl[..], s, i);
        if ctrl[i].leftNeed != 0 {
          n := n + 1;
        }
        if ctrl[i].rightNeed != 0 {
          n := n + 1;
        }
        assert Count(s, 2 * (i + 1)) == Count(s, 2 * i + 1) + if s[2 * i + 1].pending then 1 else 0;
      }
    }

    /** remainingNodeCanSetOffset. */
    method RemainingNodeCanSetOffset(cost: nat, ghost s: seq<Cell>) returns (ok: bool)
      requires Shows(s)
      ensures ok == CanSet(s, cost)
    {
      TopCovers(s, treeTop);
      var capacity: int := 64 - cost;
      for i := 0 to treeTop
        invariant capacity == 64 - cost - Count(s, 2 * i)
        invariant forall k :: 0 <= k < 2 * i ==> Reach(s, k, cost)
      {
        NeedShown(table[..], tree[..], ctrl[..], s, i);
        Halves(2 * i, i, false);
        Halves(2 * i + 1, i, true);
        assert |s| / 2 == treeTop;
        if ctrl[i].leftNeed != 0 {
          if treeTop - i > capacity {
            assert !Reach(s, 2 * i, cost);
            return false;
          }
          capacity := capacity - 1;
        }
        if ctrl[i].rightNeed != 0 {
          if treeTop - i > capacity {
            assert !Reach(s, 2 * i + 1, cost);
            return false;
          }
          capacity := capacity - 1;
        }
      }
      ok := true;
    }

    /** Whether the subtree of one byte may be placed now. */
    method CanPlaceSubset(need: nat, nodeNo: nat, count: nat, ghost s: seq<Cell>, ghost k: nat) returns (ok: bool)
      requires Shows(s) && k < |s| && count == Count(s, |s|) && need == (if s[k].pending then 1 else 0)
      requires s[k].pending ==> nodeNo < table.Length && table[nodeNo].hword == Internals(s[k].tree)
      ensures ok == Feasible(s, k)
    {
      if need == 0 {
        return false;
      }
      var cost := table[nodeNo].hword;
      if cost + count > 64 {
        return false;
      }
      ok := RemainingNodeCanSetOffset(cost, s);
    }

    /** The search for a subtree to place. Since the best cost is never updated, the last one wins. */
    method FindSubset(count: nat, ghost s: seq<Cell>) returns (key: int, right: bool)
      requires Shows(s) && count == Count(s, |s|)
      ensures key < 0 ==> LastFeasible(s, |s|) == None
      ensures key >= 0 ==> LastFeasible(s, |s|) == Some(2 * key + if right then 1 else 0)
    {
      TopCovers(s, treeTop);
      key, right := -1, false;
      for i := 0 to treeTop
        invariant key < 0 ==> LastFeasible(s, 2 * i) == None
        invariant key >= 0 ==> LastFeasible(s, 2 * i) == Some(2 * key + if right then 1 else 0)
      {
        NeedShown(table[..], tree[..], ctrl[..], s, i);
        var ok := CanPlaceSubset(ctrl[i].leftNeed, ctrl[i].leftNo, count, s, 2 * i);
        if ok {
          key, right := i, false;
        }
        ok := CanPlaceSubset(ctrl[i].rightNeed, ctrl[i].rightNo, count, s, 2 * i + 1);
        if ok {
          key, right := i, true;
        }
      }
      LastFeasibleIdle(s, 2 * treeTop, |s|);
    }

    /** The search for a single node to place. */
    method FindSingle(ghost s: seq<Cell>) returns (key: int, right: bool)
      requires Shows(s)
      ensures key < 0 ==> FirstWaiting(s, 0) == None
      ensures key >= 0 ==>
        && FirstWaiting(s, 0).Some?
        && SingleChoice(s, FirstWaiting(s, 0).value) == 2 * key + if right then 1 else 0
    {
      TopCovers(s, treeTop);
      for i := 0 to treeTop
        invariant forall k :: 0 <= k < 2 * i ==> !s[k].pending
      {
        NeedShown(table[..], tree[..], ctrl[..], s, i);
        FirstWaitingSkips(s, 0, 2 * i);
        key, right := i, false;
        var size := 0;
        if ctrl[i].leftNeed != 0 {
          size := table[ctrl[i].leftNo].hword;
        }
        if ctrl[i].rightNeed != 0 && table[ctrl[i].rightNo].hword > size {
          right := true;
        }
        if size != 0 || right {
          PairChoice(s, i);
          return;
        }
      }
      FirstWaitingSkips(s, 0, |s|);
      key, right := -1, false;
    }

    /** One turn of makeSubsetHuffTree's loop: both nodes of pair `k`, if they wait. */
    method FillPair(k: nat, ghost s: seq<Cell>) returns (ghost r: seq<Cell>)
      requires Shows(s) && 2 * k + 1 < |s|
      modifies `treeTop, tree, ctrl
      ensures Shows(r) && |s| <= |r| && Fill(r, 2 * k + 2) == Fill(s, 2 * k)
    {
      r := s;
      NeedShown(table[..], tree[..], ctrl[..], r, k);
      if ctrl[k].leftNeed != 0 {
        RoomLeft(r, 2 * k);
        SetOneNodeOffset(k, false, r, 2 * k);
        r := Place(r, 2 * k);
      }
      assert Fill(r, 2 * k + 1) == Fill(s, 2 * k);
      ghost var m := r;
      NeedShown(table[..], tree[..], ctrl[..], r, k);
      if ctrl[k].rightNeed != 0 {
        RoomLeft(r, 2 * k + 1);
        SetOneNodeOffset(k, true, r, 2 * k + 1);
        r := Place(r, 2 * k + 1);
      }
      assert Fill(r, 2 * k + 2) == Fill(m, 2 * k + 1);
    }

    /** makeSubsetHuffTree. */
    method MakeSubsetHuffTree(no: nat, right: bool, ghost s: seq<Cell>, ghost i: nat)
      requires Shows(s) && i == 2 * no + (if right then 1 else 0) && i < |s| && s[i].pending
      modifies `treeTop, tree, ctrl
      ensures Shows(Subset(s, i))
    {
      RoomLeft(s, i);
      var k := treeTop;
      EvenHalf(|s|, k);
      SetOneNodeOffset(no, right, s, i);
      ghost var r := Place(s, i);
      TopCovers(r, treeTop);
      while k < treeTop
        invariant Shows(r) && |s| <= 2 * k <= |r| && Fill(r, 2 * k) == Subset(s, i)
        invariant 2 * treeTop <= |r| && forall j :: 2 * treeTop <= j < |r| ==> !r[j].pending
        decreases 256 - k
      {
        r := FillPair(k, r);
        TopCovers(r, treeTop);
        k := k + 1;
      }
      FillIdle(r, 2 * k);
    }

    /** One turn of makeHuffTree's loop. */
    method NextTurn(ghost s: seq<Cell>) returns (more: bool, ghost r: seq<Cell>)
      requires Shows(s)
      modifies `treeTop, tree, ctrl
      ensures more == FirstWaiting(s, 0).Some? && Shows(r)
      ensures r == if more then Turn(s, FirstWaiting(s, 0).value) else s
    {
      var count := CountNeeds(s);
      var key, right := FindSubset(count, s);
      if key >= 0 {
        r := Subset(s, 2 * key + if right then 1 else 0);
        MakeSubsetHuffTree(key, right, s, 2 * key + if right then 1 else 0);
        more := true;
      } else {
        key, right := FindSingle(s);
        more := key >= 0;
        r := s;
        if more {
          r := Place(s, 2 * key + if right then 1 else 0);
          SetOneNodeOffset(key, right, s, 2 * key + if right then 1 else 0);
        }
      }
    }

    /** makeHuffTree: the arrays end up holding the layout of the tree. */
    method MakeHuffTree(rootNo: nat, ghost t: Tree)
      requires t.Node? && rootNo == t.no && Tabled(table[..], t) && Internals(t) < 256
      requires tree.Length == 512 && forall i :: 0 <= i < 512 ==> tree[i] == 0
      requires ctrl.Length == 256 && forall i :: 0 <= i < 256 ==> ctrl[i] == IDLE
      modifies `treeTop, tree, ctrl
      ensures WellShaped(Start(t)) && Shows(Run(Start(t)))
    {
      treeTop := 1;
      ctrl[0] := ctrl[0].(leftNeed := 0);
      ctrl[0] := ctrl[0].(rightNo := rootNo);
      ghost var s := Start(t);
      StartStructured(t);
      StartReaches(t);
      assert Shown(table[..], tree[..], ctrl[..], s);
      var more := true;
      while more
        invariant Shows(s) && Run(s) == Run(Start(t))
        invariant !more ==> Run(s) == s
        decreases more, Rem(s, |s|)
      {
        more, s := NextTurn(s);
      }
    }
  }
}
