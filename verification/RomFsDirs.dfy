/** The directory table of a RomFS image (src/romfs.cpp, createEntryList, pushDirEntry, pushFileEntry,
    removeEmptyDirEntry, removeDirEntry): entries linked by index, from which the directories that hold no file
    are taken out. */
module RomFsDirs {

  const NONE: int := -1

  datatype Dir = Dir(name: string, parent: int, sibling: int, child: int, childFile: int)

  datatype FileEntry = FileEntry(name: string, parent: int, sibling: int)

  /** A table and the files that refer to it. */
  datatype Table = Table(dirs: seq<Dir>, files: seq<FileEntry>)

  // ----- Groups -----

  /** The owner of each directory; the root has none. */
  function DirOwners(dirs: seq<Dir>): (o: seq<int>)
    ensures |o| == |dirs| && forall i :: 0 <= i < |dirs| ==> o[i] == if i == 0 then NONE else dirs[i].parent
  {
    seq(|dirs|, i requires 0 <= i < |dirs| => if i == 0 then NONE else dirs[i].parent)
  }

  function FileOwners(files: seq<FileEntry>): (o: seq<int>)
    ensures |o| == |files| && forall i :: 0 <= i < |files| ==> o[i] == files[i].parent
  {
    seq(|files|, i requires 0 <= i < |files| => files[i].parent)
  }

  /** Entries of one owner lie next to each other. */
  predicate Grouped(o: seq<int>) {
    forall i, j, k :: 0 <= i < j < k < |o| && o[i] == o[k] ==> o[j] == o[i]
  }

  /** `r` is the first entry of owner `d`, or NONE if there is no such entry. */
  predicate IsFirst(o: seq<int>, d: int, r: int) {
    if r == NONE then d !in o else 0 <= r < |o| && o[r] == d && forall i :: 0 <= i < r ==> o[i] != d
  }

  /** The next entry of the same owner. */
  function Next(o: seq<int>, i: int): int
    requires 0 <= i < |o|
  {
    if i + 1 < |o| && o[i + 1] == o[i] then i + 1 else NONE
  }

  predicate DirAt(t: Table, i: nat)
    requires i < |t.dirs|
  {
    var d, o := t.dirs[i], DirOwners(t.dirs);
    && (if i == 0 then d.parent == 0 else 0 <= d.parent < i)
    && d.sibling == Next(o, i) && IsFirst(o, i, d.child) && IsFirst(FileOwners(t.files), i, d.childFile)
  }

  predicate FileAt(t: Table, f: nat)
    requires f < |t.files|
  {
    0 <= t.files[f].parent < |t.dirs| && t.files[f].sibling == Next(FileOwners(t.files), f)
  }

  /** Each directory leads to its first subdirectory and its first file, and each entry to the next one of the
      same directory. */
  predicate Linked(t: Table) {
    && t.dirs != [] && Grouped(DirOwners(t.dirs)) && Grouped(FileOwners(t.files))
    && (forall i :: 0 <= i < |t.dirs| ==> DirAt(t, i)) && forall f :: 0 <= f < |t.files| ==> FileAt(t, f)
  }

  // ----- What the links enumerate -----

  /** The entries of one owner from `i` on, in order. */
  function Members(o: seq<int>, d: int, i: nat): seq<int>
    requires i <= |o|
    decreases |o| - i
  {
    if i == |o| then [] else (if o[i] == d then [i] else []) + Members(o, d, i + 1)
  }

  predicate Forward(next: seq<int>) { forall i :: 0 <= i < |next| ==> next[i] == NONE || i < next[i] < |next| }

  /** The entries met when following the links from entry `i` on. */
  function Chain(next: seq<int>, i: int): seq<int>
    requires Forward(next) && (i == NONE || 0 <= i < |next|)
    decreases if i == NONE then 0 else |next| - i
  {
    if i == NONE then [] else [i] + Chain(next, next[i])
  }

  lemma {:induction false} NoMembers(o: seq<int>, d: int, i: nat)
    requires i <= |o| && forall j :: i <= j < |o| ==> o[j] != d
    ensures Members(o, d, i) == []
    decreases |o| - i
  {
    if i < |o| {
      NoMembers(o, d, i + 1);
    }
  }

  lemma {:induction false} SkipMembers(o: seq<int>, d: int, i: nat, r: nat)
    requires i <= r <= |o| && forall j :: i <= j < r ==> o[j] != d
    ensures Members(o, d, i) == Members(o, d, r)
    decreases r - i
  {
    if i < r {
      SkipMembers(o, d, i + 1, r);
    }
  }

  lemma {:induction false} ChainFrom(o: seq<int>, next: seq<int>, i: nat)
    requires Grouped(o) && |next| == |o| && i < |o| && forall j :: 0 <= j < |o| ==> next[j] == Next(o, j)
    ensures Forward(next) && Chain(next, i) == Members(o, o[i], i)
    decreases |o| - i
  {
    if next[i] == NONE {
      NoMembers(o, o[i], i + 1);
    } else {
      ChainFrom(o, next, i + 1);
    }
  }

  /** Following the links from an owner's first entry meets exactly its entries, in order. */
  lemma ChainIsMembers(o: seq<int>, next: seq<int>, d: int, first: int)
    requires Grouped(o) && |next| == |o| && (forall j :: 0 <= j < |o| ==> next[j] == Next(o, j))
    requires IsFirst(o, d, first)
    ensures Forward(next) && Chain(next, first) == Members(o, d, 0)
  {
    if first == NONE {
      NoMembers(o, d, 0);
    } else {
      ChainFrom(o, next, first);
      SkipMembers(o, d, 0, first);
    }
  }

  function Siblings(dirs: seq<Dir>): (s: seq<int>)
    ensures |s| == |dirs| && forall i :: 0 <= i < |dirs| ==> s[i] == dirs[i].sibling
  {
    seq(|dirs|, i requires 0 <= i < |dirs| => dirs[i].sibling)
  }

  function FileSiblings(files: seq<FileEntry>): (s: seq<int>)
    ensures |s| == |files| && forall i :: 0 <= i < |files| ==> s[i] == files[i].sibling
  {
    seq(|files|, i requires 0 <= i < |files| => files[i].sibling)
  }

  /** In a linked table the links enumerate each directory's subdirectories and files, in order. */
  lemma LinksEnumerate(t: Table, d: nat)
    requires Linked(t) && d < |t.dirs|
    ensures DirAt(t, d) && Forward(Siblings(t.dirs)) && Forward(FileSiblings(t.files))
    ensures Chain(Siblings(t.dirs), t.dirs[d].child) == Members(DirOwners(t.dirs), d, 0)
    ensures Chain(FileSiblings(t.files), t.dirs[d].childFile) == Members(FileOwners(t.files), d, 0)
  {
    assert DirAt(t, d);
    forall j | 0 <= j < |t.dirs| ensures t.dirs[j].sibling == Next(DirOwners(t.dirs), j) {
      assert DirAt(t, j);
    }
    forall j | 0 <= j < |t.files| ensures t.files[j].sibling == Next(FileOwners(t.files), j) {
      assert FileAt(t, j);
    }
    ChainIsMembers(DirOwners(t.dirs), Siblings(t.dirs), d, t.dirs[d].child);
    ChainIsMembers(FileOwners(t.files), FileSiblings(t.files), d, t.dirs[d].childFile);
  }

  // ----- Taking out one directory -----

  /** subDirOffset. */
  function Sub(offset: int, index: int): int { if offset > index then offset - 1 else offset }

  /** Where entry `i` of the shorter table was before. */
  function Was(i: int, index: int): int { if i < index then i else i + 1 }

  lemma GroupedWithout(o: seq<int>, index: nat, q: seq<int>)
    requires Grouped(o) && index < |o| && |q| == |o| - 1 && index !in o
    requires forall i :: 0 <= i < |q| ==> q[i] == Sub(o[Was(i, index)], index)
    ensures Grouped(q)
  {
  }

  /** The links of the shorter table: the entry before the removed one, or its owner, takes over its link. */
  function Relinked(dirs: seq<Dir>, index: nat): seq<Dir>
    requires 0 < index < |dirs| && 0 <= dirs[index].parent < |dirs|
  {
    var removed := dirs[index];
    if dirs[index - 1].sibling == index then dirs[index - 1 := dirs[index - 1].(sibling := removed.sibling)]
    else if dirs[removed.parent].child == index then
      dirs[removed.parent := dirs[removed.parent].(child := removed.sibling)]
    else dirs
  }

  function SubDir(d: Dir, index: int): Dir {
    d.(parent := Sub(d.parent, index), sibling := Sub(d.sibling, index), child := Sub(d.child, index))
  }

  function Without(t: Table, index: nat): (r: Table)
    requires 0 < index < |t.dirs| && 0 <= t.dirs[index].parent < |t.dirs|
    ensures |r.dirs| == |t.dirs| - 1 && |r.files| == |t.files|
  {
    var d := Relinked(t.dirs, index);
    Table(
      seq(|t.dirs| - 1, i requires 0 <= i < |t.dirs| - 1 => SubDir(d[Was(i, index)], index)),
      seq(|t.files|, f requires 0 <= f < |t.files| =>
        t.files[f].(parent := Sub(t.files[f].parent, index))))
  }

  predicate Hollow(t: Table, i: nat)
    requires i < |t.dirs|
  {
    t.dirs[i].child == NONE && t.dirs[i].childFile == NONE
  }

  lemma NextWithout(o: seq<int>, index: nat, q: seq<int>, i: nat, s: int)
    requires Grouped(o) && 0 < index < |o| && |q| == |o| - 1 && index !in o && i < |q|
    requires forall j :: 0 <= j < |q| ==> q[j] == Sub(o[Was(j, index)], index)
    requires s == if i == index - 1 && Next(o, i) == index then Next(o, index) else Next(o, Was(i, index))
    ensures Sub(s, index) == Next(q, i)
  {
    if i + 1 < |q| {
      assert q[i + 1] == Sub(o[Was(i + 1, index)], index) && q[i] == Sub(o[Was(i, index)], index);
      assert o[Was(i, index)] in o && o[Was(i + 1, index)] in o;
      if i == index - 1 {
        assert o[i] == o[index + 1] ==> o[index] == o[i];
      }
    }
  }

  lemma FirstWithout(o: seq<int>, index: nat, q: seq<int>, d: int, r: int)
    requires Grouped(o) && 0 < index < |o| && |q| == |o| - 1 && index !in o && d != index
    requires forall j :: 0 <= j < |q| ==> q[j] == Sub(o[Was(j, index)], index)
    requires IsFirst(o, d, r)
    ensures IsFirst(q, Sub(d, index), Sub(if r == index then Next(o, index) else r, index))
  {
    var s := Sub(if r == index then Next(o, index) else r, index);
    forall j | 0 <= j < |q| && q[j] == Sub(d, index) ensures s != NONE && s <= j {
      assert o[Was(j, index)] in o;
      assert o[Was(j, index)] == d;
    }
    if s != NONE {
      assert q[s] == Sub(o[Was(s, index)], index);
    }
  }

  lemma FirstShifted(o: seq<int>, q: seq<int>, index: int, d: int, r: int)
    requires |q| == |o| && index !in o && d != index && IsFirst(o, d, r)
    requires forall j :: 0 <= j < |q| ==> q[j] == Sub(o[j], index)
    ensures IsFirst(q, Sub(d, index), r)
  {
    forall j | 0 <= j < |q| && q[j] == Sub(d, index) ensures o[j] == d {
      assert o[j] in o;
    }
  }

  /** The links of entry `j` once the removed entry has been bridged. */
  lemma Bridged(t: Table, index: nat, j: nat)
    requires Linked(t) && 0 < index < |t.dirs| && j < |t.dirs| && j != index
    ensures 0 <= t.dirs[index].parent < index
    ensures
      var o, d := DirOwners(t.dirs), Relinked(t.dirs, index)[j];
      && d == t.dirs[j].(sibling := d.sibling, child := d.child)
      && d.sibling == (if j == index - 1 && Next(o, j) == index then Next(o, index) else Next(o, j))
      && d.child == if t.dirs[j].child == index then Next(o, index) else t.dirs[j].child
  {
    var o := DirOwners(t.dirs);
    var q := t.dirs[index].parent;
    assert DirAt(t, index) && DirAt(t, index - 1) && DirAt(t, j) && DirAt(t, q);
    if o[index - 1] != o[index] {
      assert t.dirs[q].child == index;
    }
  }

  lemma OwnersWithout(t: Table, index: nat)
    requires Linked(t) && 0 < index < |t.dirs|
    ensures 0 <= t.dirs[index].parent < |t.dirs|
    ensures
      var o, q := DirOwners(t.dirs), DirOwners(Without(t, index).dirs);
      forall k :: 0 <= k < |q| ==> q[k] == Sub(o[Was(k, index)], index)
  {
    assert DirAt(t, index);
    forall k | 0 <= k < |t.dirs| - 1
      ensures DirOwners(Without(t, index).dirs)[k] == Sub(DirOwners(t.dirs)[Was(k, index)], index)
    {
      Bridged(t, index, Was(k, index));
    }
  }

  lemma SiblingWithout(t: Table, index: nat, i: nat)
    requires Linked(t) && 0 < index < |t.dirs| && Hollow(t, index) && i < |t.dirs| - 1
    ensures 0 <= t.dirs[index].parent < |t.dirs|
    ensures var w := Without(t, index); w.dirs[i].sibling == Next(DirOwners(w.dirs), i)
  {
    assert DirAt(t, index) && DirAt(t, Was(i, index));
    OwnersWithout(t, index);
    Bridged(t, index, Was(i, index));
    NextWithout(DirOwners(t.dirs), index, DirOwners(Without(t, index).dirs), i,
                Relinked(t.dirs, index)[Was(i, index)].sibling);
  }

  lemma ChildWithout(t: Table, index: nat, i: nat)
    requires Linked(t) && 0 < index < |t.dirs| && Hollow(t, index) && i < |t.dirs| - 1
    ensures 0 <= t.dirs[index].parent < |t.dirs|
    ensures var w := Without(t, index); IsFirst(DirOwners(w.dirs), i, w.dirs[i].child)
  {
    assert DirAt(t, index) && DirAt(t, Was(i, index));
    OwnersWithout(t, index);
    Bridged(t, index, Was(i, index));
    FirstWithout(DirOwners(t.dirs), index, DirOwners(Without(t, index).dirs), Was(i, index),
                 t.dirs[Was(i, index)].child);
  }

  lemma ChildFileWithout(t: Table, index: nat, i: nat)
    requires Linked(t) && 0 < index < |t.dirs| && Hollow(t, index) && i < |t.dirs| - 1
    ensures 0 <= t.dirs[index].parent < |t.dirs|
    ensures var w := Without(t, index); IsFirst(FileOwners(w.files), i, w.dirs[i].childFile)
  {
    assert DirAt(t, index) && DirAt(t, Was(i, index));
    Bridged(t, index, Was(i, index));
    FirstShifted(FileOwners(t.files), FileOwners(Without(t, index).files), index, Was(i, index),
                 t.dirs[Was(i, index)].childFile);
  }

  lemma ParentWithout(t: Table, index: nat, i: nat)
    requires Linked(t) && 0 < index < |t.dirs| && Hollow(t, index) && i < |t.dirs| - 1
    ensures 0 <= t.dirs[index].parent < |t.dirs|
    ensures var d := Without(t, index).dirs[i]; if i == 0 then d.parent == 0 else 0 <= d.parent < i
  {
    assert DirAt(t, index) && DirAt(t, Was(i, index));
    Bridged(t, index, Was(i, index));
    assert DirOwners(t.dirs)[Was(i, index)] in DirOwners(t.dirs);
  }

  lemma DirWithout(t: Table, index: nat, i: nat)
    requires Linked(t) && 0 < index < |t.dirs| && Hollow(t, index) && i < |t.dirs| - 1
    ensures 0 <= t.dirs[index].parent < |t.dirs| && DirAt(Without(t, index), i)
  {
    ParentWithout(t, index, i);
    SiblingWithout(t, index, i);
    ChildWithout(t, index, i);
    ChildFileWithout(t, index, i);
  }

  lemma FileWithout(t: Table, index: nat, f: nat)
    requires Linked(t) && 0 < index < |t.dirs| && Hollow(t, index) && f < |t.files|
    ensures 0 <= t.dirs[index].parent < |t.dirs| && FileAt(Without(t, index), f)
  {
    assert DirAt(t, index) && FileAt(t, f);
    var w, o := Without(t, index), FileOwners(t.files);
    var q := FileOwners(w.files);
    assert o[f] in o;
    if f + 1 < |o| {
      assert o[f + 1] in o;
    }
  }

  /** Taking out a directory that holds nothing keeps the table linked. */
  lemma WithoutLinked(t: Table, index: nat)
    requires Linked(t) && 0 < index < |t.dirs| && Hollow(t, index)
    ensures 0 <= t.dirs[index].parent < |t.dirs| && Linked(Without(t, index))
  {
    assert DirAt(t, index);
    var w, o, f := Without(t, index), DirOwners(t.dirs), FileOwners(t.files);
    forall i | 0 <= i < |w.dirs| ensures DirAt(w, i) {
      DirWithout(t, index, i);
    }
    forall i | 0 <= i < |w.files| ensures FileAt(w, i) {
      FileWithout(t, index, i);
    }
    OwnersWithout(t, index);
    GroupedWithout(o, index, DirOwners(w.dirs));
    GroupedShifted(f, FileOwners(w.files), index);
  }

  lemma GroupedShifted(o: seq<int>, q: seq<int>, index: int)
    requires Grouped(o) && |q| == |o| && index !in o && forall j :: 0 <= j < |q| ==> q[j] == Sub(o[j], index)
    ensures Grouped(q)
  {
    forall i, j, k | 0 <= i < j < k < |q| && q[i] == q[k] ensures q[j] == q[i] {
      assert o[i] in o && o[j] in o && o[k] in o;
      assert o[i] == o[k];
    }
  }

  // ----- Which directories are needed -----

  /** Directory `d` is `k` or lies below it. */
  predicate Under(dirs: seq<Dir>, k: nat, d: nat)
    requires d < |dirs| && forall i :: 0 < i < |dirs| ==> 0 <= dirs[i].parent < i
  {
    d == k || (d > 0 && Under(dirs, k, dirs[d].parent))
  }

  predicate Rooted(t: Table) {
    && t.dirs != [] && (forall i :: 0 < i < |t.dirs| ==> 0 <= t.dirs[i].parent < i)
    && forall f :: 0 <= f < |t.files| ==> 0 <= t.files[f].parent < |t.dirs|
  }

  lemma LinkedRooted(t: Table)
    requires Linked(t)
    ensures Rooted(t) && t.dirs[0].parent == 0
  {
    forall i | 0 <= i < |t.dirs| ensures if i == 0 then t.dirs[0].parent == 0 else 0 <= t.dirs[i].parent < i {
      assert DirAt(t, i);
    }
    forall f | 0 <= f < |t.files| ensures 0 <= t.files[f].parent < |t.dirs| {
      assert FileAt(t, f);
    }
  }

  /** There is a file in directory `k` or below it. */
  predicate Needed(t: Table, k: nat)
    requires Rooted(t)
  {
    exists f :: 0 <= f < |t.files| && Under(t.dirs, k, t.files[f].parent)
  }

  lemma {:induction false} UnderTransitive(dirs: seq<Dir>, k: nat, c: nat, d: nat)
    requires c < |dirs| && d < |dirs| && forall i :: 0 < i < |dirs| ==> 0 <= dirs[i].parent < i
    requires Under(dirs, k, c) && Under(dirs, c, d)
    ensures Under(dirs, k, d)
  {
    if d != c {
      UnderTransitive(dirs, k, c, dirs[d].parent);
    }
  }

  /** Where nothing is hollow, every directory but the root is needed. */
  lemma {:induction false} NoneHollow(t: Table, i: nat)
    requires Linked(t) && Rooted(t) && 0 < i < |t.dirs| && forall j :: 0 < j < |t.dirs| ==> !Hollow(t, j)
    ensures Needed(t, i)
    decreases |t.dirs| - i
  {
    assert DirAt(t, i) && !Hollow(t, i);
    if t.dirs[i].childFile != NONE {
      assert Under(t.dirs, i, t.files[t.dirs[i].childFile].parent);
    } else {
      var c: nat := t.dirs[i].child;
      assert DirOwners(t.dirs)[c] == i;
      NoneHollow(t, c);
      var f :| 0 <= f < |t.files| && Under(t.dirs, c, t.files[f].parent);
      assert Under(t.dirs, i, i) && Under(t.dirs, i, c);
      UnderTransitive(t.dirs, i, c, t.files[f].parent);
    }
  }

  // ----- What remains of the first table -----

  ghost predicate KeptAt(s: Table, t: Table, origin: seq<nat>, i: nat)
    requires i < |t.dirs| == |origin|
  {
    && origin[i] < |s.dirs| && t.dirs[i].name == s.dirs[origin[i]].name
    && 0 <= t.dirs[i].parent < |t.dirs| && origin[t.dirs[i].parent] == s.dirs[origin[i]].parent
  }

  ghost predicate FileKeptAt(s: Table, t: Table, origin: seq<nat>, f: nat)
    requires |t.dirs| == |origin| && f < |t.files| == |s.files|
  {
    && t.files[f].name == s.files[f].name && t.files[f].sibling == s.files[f].sibling
    && 0 <= t.files[f].parent < |t.dirs| && origin[t.files[f].parent] == s.files[f].parent
  }

  predicate Rising(origin: seq<nat>) { forall i, j :: 0 <= i < j < |origin| ==> origin[i] < origin[j] }

  /** Entry `i` of `t` is entry `origin[i]` of `s`: in order, with the same names, parents and files. */
  ghost predicate Keeps(s: Table, t: Table, origin: seq<nat>) {
    && |origin| == |t.dirs| && |t.files| == |s.files| && Rising(origin) && origin != [] && origin[0] == 0
    && (forall i :: 0 <= i < |t.dirs| ==> KeptAt(s, t, origin, i))
    && forall f :: 0 <= f < |t.files| ==> FileKeptAt(s, t, origin, f)
  }

  lemma {:induction false} UnderKept(s: Table, t: Table, origin: seq<nat>, k: nat, d: nat)
    requires Rooted(s) && Rooted(t) && Keeps(s, t, origin) && k < |t.dirs| && d < |t.dirs|
    ensures KeptAt(s, t, origin, d) && (Under(s.dirs, origin[k], origin[d]) <==> Under(t.dirs, k, d))
  {
    assert KeptAt(s, t, origin, d);
    if d != k && d > 0 {
      UnderKept(s, t, origin, k, t.dirs[d].parent);
    }
  }

  /** A directory is needed in the one table just when it is in the other. */
  lemma NeededKept(s: Table, t: Table, origin: seq<nat>, k: nat)
    requires Rooted(s) && Rooted(t) && Keeps(s, t, origin) && k < |t.dirs|
    ensures KeptAt(s, t, origin, k) && (Needed(s, origin[k]) <==> Needed(t, k))
  {
    assert KeptAt(s, t, origin, k);
    forall f | 0 <= f < |t.files|
      ensures Under(s.dirs, origin[k], s.files[f].parent) <==> Under(t.dirs, k, t.files[f].parent)
    {
      assert FileKeptAt(s, t, origin, f);
      UnderKept(s, t, origin, k, t.files[f].parent);
    }
  }

  lemma {:induction false} OnlyItself(t: Table, k: nat, d: nat)
    requires Rooted(t) && k < |t.dirs| && d < |t.dirs| && k !in DirOwners(t.dirs) && Under(t.dirs, k, d)
    ensures d == k
  {
    if d != k {
      assert DirOwners(t.dirs)[d] == t.dirs[d].parent;
      OnlyItself(t, k, t.dirs[d].parent);
    }
  }

  lemma HollowUnneeded(t: Table, k: nat)
    requires Linked(t) && Rooted(t) && 0 < k < |t.dirs| && Hollow(t, k)
    ensures !Needed(t, k)
  {
    assert DirAt(t, k);
    forall f | 0 <= f < |t.files| ensures !Under(t.dirs, k, t.files[f].parent) {
      assert FileOwners(t.files)[f] != k;
      if Under(t.dirs, k, t.files[f].parent) {
        OnlyItself(t, k, t.files[f].parent);
      }
    }
  }

  /** No needed directory has been lost. */
  ghost predicate NoneLost(s: Table, origin: seq<nat>)
    requires Rooted(s)
  {
    forall k :: 0 <= k < |s.dirs| && (k == 0 || Needed(s, k)) ==> k in origin
  }

  function Dropped(origin: seq<nat>, index: nat): (r: seq<nat>)
    requires index < |origin|
    ensures |r| == |origin| - 1 && forall i :: 0 <= i < |r| ==> r[i] == origin[Was(i, index)]
  {
    origin[..index] + origin[index + 1..]
  }

  lemma DirKept(s: Table, t: Table, origin: seq<nat>, index: nat, i: nat)
    requires Linked(t) && Keeps(s, t, origin) && 0 < index < |t.dirs| && Hollow(t, index) && i < |t.dirs| - 1
    ensures 0 <= t.dirs[index].parent < |t.dirs|
    ensures KeptAt(s, Without(t, index), Dropped(origin, index), i)
  {
    assert DirAt(t, index) && KeptAt(s, t, origin, Was(i, index)) && DirAt(t, Was(i, index));
    Bridged(t, index, Was(i, index));
    assert DirOwners(t.dirs)[Was(i, index)] != index;
  }

  lemma FileKept(s: Table, t: Table, origin: seq<nat>, index: nat, f: nat)
    requires Linked(t) && Keeps(s, t, origin) && 0 < index < |t.dirs| && Hollow(t, index) && f < |t.files|
    ensures 0 <= t.dirs[index].parent < |t.dirs|
    ensures FileKeptAt(s, Without(t, index), Dropped(origin, index), f)
  {
    assert DirAt(t, index) && FileAt(t, f) && FileKeptAt(s, t, origin, f) && FileOwners(t.files)[f] != index;
  }

  /** Taking out a hollow directory loses nothing but that directory. */
  lemma KeepsWithout(s: Table, t: Table, origin: seq<nat>, index: nat)
    requires Rooted(s) && Linked(t) && Rooted(t) && Keeps(s, t, origin)
    requires 0 < index < |t.dirs| && Hollow(t, index)
    ensures Keeps(s, Without(t, index), Dropped(origin, index))
    ensures NoneLost(s, origin) ==> NoneLost(s, Dropped(origin, index))
  {
    var w, q := Without(t, index), Dropped(origin, index);
    forall i | 0 <= i < |w.dirs| ensures KeptAt(s, w, q, i) {
      DirKept(s, t, origin, index, i);
    }
    forall f | 0 <= f < |w.files| ensures FileKeptAt(s, w, q, f) {
      FileKept(s, t, origin, index, f);
    }
    LosesOne(s, t, origin, index);
  }

  lemma LosesOne(s: Table, t: Table, origin: seq<nat>, index: nat)
    requires Rooted(s) && Linked(t) && Rooted(t) && Keeps(s, t, origin)
    requires 0 < index < |t.dirs| && Hollow(t, index)
    ensures NoneLost(s, origin) ==> NoneLost(s, Dropped(origin, index))
  {
    var q := Dropped(origin, index);
    HollowUnneeded(t, index);
    NeededKept(s, t, origin, index);
    forall k | k in origin && k != origin[index] ensures k in q {
      var i :| 0 <= i < |origin| && origin[i] == k;
      assert q[if i < index then i else i - 1] == k;
    }
  }

  // ----- The table after pruning -----

  /** Exactly the root and the directories that are needed remain. */
  ghost predicate Pruned(s: Table, t: Table, origin: seq<nat>) {
    && Rooted(s) && Linked(t) && Keeps(s, t, origin)
    && forall k :: 0 <= k < |s.dirs| ==> (k in origin <==> k == 0 || Needed(s, k))
  }

  /** When no directory is hollow any more, exactly the needed ones are left. */
  lemma NothingHollow(s: Table, t: Table, origin: seq<nat>)
    requires Rooted(s) && Linked(t) && Keeps(s, t, origin) && NoneLost(s, origin)
    requires forall j :: 0 < j < |t.dirs| ==> !Hollow(t, j)
    ensures Pruned(s, t, origin)
  {
    LinkedRooted(t);
    forall k | 0 <= k < |s.dirs| && k in origin ensures k == 0 || Needed(s, k) {
      var i :| 0 <= i < |origin| && origin[i] == k;
      if i > 0 {
        NoneHollow(t, i);
        NeededKept(s, t, origin, i);
      }
    }
  }

  /** The members that are still there, as they were numbered before. */
  function Renamed(origin: seq<nat>, s: seq<int>): seq<int>
    requires forall i :: 0 <= i < |s| ==> 0 <= s[i] < |origin|
  {
    if s == [] then [] else [origin[s[0]]] + Renamed(origin, s[1..])
  }

  /** The needed entries of one owner from `i` on, in order. */
  ghost function NeededMembers(s: Table, d: int, i: nat): (m: seq<int>)
    requires Rooted(s) && i <= |s.dirs|
    decreases |s.dirs| - i
  {
    if i == |s.dirs| then []
    else (if DirOwners(s.dirs)[i] == d && Needed(s, i) then [i] else []) + NeededMembers(s, d, i + 1)
  }

  lemma {:induction false} MembersInRange(o: seq<int>, d: int, i: nat)
    requires i <= |o|
    ensures forall j :: 0 <= j < |Members(o, d, i)| ==> 0 <= Members(o, d, i)[j] < |o|
    decreases |o| - i
  {
    if i < |o| {
      MembersInRange(o, d, i + 1);
    }
  }

  lemma {:induction false} SkipUnneeded(s: Table, d: int, i: nat, r: nat)
    requires Rooted(s) && i <= r <= |s.dirs| && forall k :: i <= k < r ==> !Needed(s, k)
    ensures NeededMembers(s, d, i) == NeededMembers(s, d, r)
    decreases r - i
  {
    if i < r {
      SkipUnneeded(s, d, i + 1, r);
    }
  }

  /** Where entry `i` was in the first table, or the end of it. */
  function OriginOf(s: Table, origin: seq<nat>, i: nat): nat { if i < |origin| then origin[i] else |s.dirs| }

  /** Nothing needed lies between two directories that have become neighbours. */
  lemma UnneededBetween(s: Table, t: Table, origin: seq<nat>, i: nat)
    requires Pruned(s, t, origin) && i < |t.dirs|
    ensures origin[i] < OriginOf(s, origin, i + 1) <= |s.dirs|
    ensures forall k :: origin[i] < k < OriginOf(s, origin, i + 1) ==> !Needed(s, k)
  {
    assert KeptAt(s, t, origin, i);
    if i + 1 < |origin| {
      assert KeptAt(s, t, origin, i + 1);
    }
    forall k | origin[i] < k < OriginOf(s, origin, i + 1) ensures !Needed(s, k) {
      if k in origin {
        var j :| 0 <= j < |origin| && origin[j] == k;
      }
    }
  }

  lemma SameOwner(s: Table, t: Table, origin: seq<nat>, i: nat, d: nat)
    requires Pruned(s, t, origin) && i < |t.dirs| && d < |t.dirs|
    ensures origin[i] < |s.dirs| && (i > 0 ==> Needed(s, origin[i]))
    ensures DirOwners(t.dirs)[i] == d <==> DirOwners(s.dirs)[origin[i]] == origin[d]
  {
    assert KeptAt(s, t, origin, i) && origin[i] in origin;
    assert i > 0 ==> origin[0] < origin[i];
  }

  lemma {:induction false} ChildrenFrom(s: Table, t: Table, origin: seq<nat>, d: nat, i: nat, m: seq<int>)
    requires Pruned(s, t, origin) && d < |t.dirs| && i <= |t.dirs| && m == Members(DirOwners(t.dirs), d, i)
    ensures OriginOf(s, origin, i) <= |s.dirs|
    ensures forall j :: 0 <= j < |m| ==> 0 <= m[j] < |origin|
    ensures Renamed(origin, m) == NeededMembers(s, origin[d], OriginOf(s, origin, i))
    decreases |t.dirs| - i
  {
    MembersInRange(DirOwners(t.dirs), d, i);
    if i < |t.dirs| {
      var rest := Members(DirOwners(t.dirs), d, i + 1);
      ChildrenFrom(s, t, origin, d, i + 1, rest);
      SameOwner(s, t, origin, i, d);
      UnneededBetween(s, t, origin, i);
      SkipUnneeded(s, origin[d], origin[i] + 1, OriginOf(s, origin, i + 1));
      if DirOwners(t.dirs)[i] == d {
        assert m == [i] + rest && m[1..] == rest;
      } else {
        assert m == rest;
      }
    }
  }

  /** After pruning, the links of each directory enumerate exactly its needed subdirectories, in order. */
  lemma PrunedChildren(s: Table, t: Table, origin: seq<nat>, d: nat)
    requires Pruned(s, t, origin) && d < |t.dirs|
    ensures DirAt(t, d) && Forward(Siblings(t.dirs))
    ensures
      var m := Chain(Siblings(t.dirs), t.dirs[d].child);
      && (forall j :: 0 <= j < |m| ==> 0 <= m[j] < |origin|)
      && Renamed(origin, m) == NeededMembers(s, origin[d], 0)
  {
    LinksEnumerate(t, d);
    ChildrenFrom(s, t, origin, d, 0, Members(DirOwners(t.dirs), d, 0));
  }

  // ----- Growing the table -----

  /** Entries of owner `d` may be added at the end: it has none yet, or its entries are the last ones. */
  predicate Open(o: seq<int>, d: int) { d !in o || o[|o| - 1] == d }

  /** The table with one more subdirectory. */
  function WithDir(t: Table, name: string, parent: nat): (r: Table)
    requires 0 <= parent < |t.dirs|
    ensures |r.dirs| == |t.dirs| + 1 && r.files == t.files
  {
    var n := |t.dirs|;
    var c := t.dirs[parent].child;
    var dirs := if c == NONE then t.dirs[parent := t.dirs[parent].(child := n)]
      else t.dirs[n - 1 := t.dirs[n - 1].(sibling := n)];
    t.(dirs := dirs + [Dir(name, parent, NONE, NONE, NONE)])
  }

  function WithFile(t: Table, name: string, parent: nat): (r: Table)
    requires 0 <= parent < |t.dirs| && (t.dirs[parent].childFile != NONE ==> t.files != [])
    ensures |r.dirs| == |t.dirs| && |r.files| == |t.files| + 1
  {
    var n := |t.files|;
    if t.dirs[parent].childFile == NONE then
      Table(t.dirs[parent := t.dirs[parent].(childFile := n)], t.files + [FileEntry(name, parent, NONE)])
    else
      t.(files := t.files[n - 1 := t.files[n - 1].(sibling := n)] + [FileEntry(name, parent, NONE)])
  }

  lemma GroupedSnoc(o: seq<int>, d: int)
    requires Grouped(o) && Open(o, d)
    ensures Grouped(o + [d])
  {
    var q := o + [d];
    forall i, j, k | 0 <= i < j < k < |q| && q[i] == q[k] ensures q[j] == q[i] {
      if k == |o| {
        assert o[i] in o;
      }
    }
  }

  lemma FirstSnoc(o: seq<int>, e: int, r: int, d: int)
    requires IsFirst(o, d, r)
    ensures IsFirst(o + [e], d, if r == NONE && d == e then |o| else r)
  {
  }

  lemma WithDirLinked(t: Table, name: string, parent: nat)
    requires Linked(t) && parent < |t.dirs| && Open(DirOwners(t.dirs), parent)
    ensures Linked(WithDir(t, name, parent))
    ensures DirOwners(WithDir(t, name, parent).dirs) == DirOwners(t.dirs) + [parent]
  {
    var w, o := WithDir(t, name, parent), DirOwners(t.dirs);
    assert DirAt(t, parent);
    assert DirOwners(w.dirs) == o + [parent];
    GroupedSnoc(o, parent);
    assert |o| !in o by {
      forall i | 0 <= i < |o| ensures o[i] < |o| {
        assert DirAt(t, i);
      }
    }
    forall i | 0 <= i < |w.dirs| ensures DirAt(w, i) {
      if i < |o| {
        assert DirAt(t, i);
        FirstSnoc(o, parent, t.dirs[i].child, i);
      } else {
        NoFilesOf(t, i);
      }
    }
    forall f | 0 <= f < |w.files| ensures FileAt(w, f) {
      assert FileAt(t, f);
    }
  }

  lemma ChildBefore(t: Table, d: nat)
    requires Linked(t) && d < |t.dirs|
    ensures t.dirs[d].child < |t.dirs|
  {
    assert DirAt(t, d);
  }

  lemma NoFilesOf(t: Table, d: int)
    requires Linked(t) && d >= |t.dirs|
    ensures d !in FileOwners(t.files)
  {
    forall f | 0 <= f < |t.files| ensures t.files[f].parent != d {
      assert FileAt(t, f);
    }
  }

  lemma WithFileLinked(t: Table, name: string, parent: nat)
    requires Linked(t) && parent < |t.dirs| && Open(FileOwners(t.files), parent)
    ensures t.dirs[parent].childFile != NONE ==> t.files != []
    ensures Linked(WithFile(t, name, parent))
    ensures FileOwners(WithFile(t, name, parent).files) == FileOwners(t.files) + [parent]
    ensures DirOwners(WithFile(t, name, parent).dirs) == DirOwners(t.dirs)
  {
    assert DirAt(t, parent);
    var w, o := WithFile(t, name, parent), FileOwners(t.files);
    assert FileOwners(w.files) == o + [parent] && DirOwners(w.dirs) == DirOwners(t.dirs);
    GroupedSnoc(o, parent);
    forall i | 0 <= i < |w.dirs| ensures DirAt(w, i) {
      assert DirAt(t, i);
      FirstSnoc(o, parent, t.dirs[i].childFile, i);
    }
    forall f | 0 <= f < |w.files| ensures FileAt(w, f) {
      if f < |o| {
        assert FileAt(t, f);
      }
    }
  }

  function Names(dirs: seq<Dir>): (n: seq<string>)
    ensures |n| == |dirs| && forall i :: 0 <= i < |dirs| ==> n[i] == dirs[i].name
  {
    seq(|dirs|, i requires 0 <= i < |dirs| => dirs[i].name)
  }

  function FileNames(files: seq<FileEntry>): (n: seq<string>)
    ensures |n| == |files| && forall i :: 0 <= i < |files| ==> n[i] == files[i].name
  {
    seq(|files|, i requires 0 <= i < |files| => files[i].name)
  }

  function Repeat(x: int, n: nat): seq<int> { seq(n, _ => x) }

  // ----- The table, updated in place -----

  class Tables {
    var dirs: seq<Dir>
    var files: seq<FileEntry>

    ghost function All(): Table
      reads this
    {
      Table(dirs, files)
    }

    /** pushDirEntry for the root. */
    constructor ()
      ensures Linked(All()) && All() == Table([Dir("", 0, NONE, NONE, NONE)], [])
    {
      dirs := [Dir("", 0, NONE, NONE, NONE)];
      files := [];
    }

    /** pushDirEntry, after its caller has noted a first subdirectory. */
    method PushDirEntry(name: string, parent: nat)
      requires parent < |dirs| && dirs[parent].child != NONE
      modifies this`dirs
      ensures
        var n := |old(dirs)|;
        var before := if old(dirs)[parent].child == n then old(dirs)
          else old(dirs)[n - 1 := old(dirs)[n - 1].(sibling := n)];
        dirs == before + [Dir(name, parent, NONE, NONE, NONE)]
    {
      dirs := dirs + [Dir(name, parent, NONE, NONE, NONE)];
      if dirs[parent].child != NONE && |dirs| - 1 != dirs[parent].child {
        dirs := dirs[|dirs| - 2 := dirs[|dirs| - 2].(sibling := |dirs| - 1)];
      }
    }

    /** pushFileEntry, after its caller has noted a first file. */
    method PushFileEntry(name: string, parent: nat)
      requires parent < |dirs| && dirs[parent].childFile != NONE
      requires dirs[parent].childFile != |files| ==> files != []
      modifies this`files
      ensures
        var n := |old(files)|;
        var before := if dirs[parent].childFile == n then old(files)
          else old(files)[n - 1 := old(files)[n - 1].(sibling := n)];
        files == before + [FileEntry(name, parent, NONE)]
    {
      files := files + [FileEntry(name, parent, NONE)];
      if dirs[parent].childFile != NONE && |files| - 1 != dirs[parent].childFile {
        files := files[|files| - 2 := files[|files| - 2].(sibling := |files| - 1)];
      }
    }

    method AddDir(name: string, parent: nat)
      requires Linked(All()) && parent < |dirs| && Open(DirOwners(dirs), parent)
      modifies this`dirs
      ensures Linked(All()) && Names(dirs) == old(Names(dirs)) + [name]
      ensures DirOwners(dirs) == old(DirOwners(dirs)) + [parent]
    {
      WithDirLinked(All(), name, parent);
      ghost var t := All();
      ChildBefore(t, parent);
      if dirs[parent].child == NONE {
        dirs := dirs[parent := dirs[parent].(child := |dirs|)];
      }
      PushDirEntry(name, parent);
      assert All() == WithDir(t, name, parent);
    }

    /** createEntryList, for the listing of a directory that has not been listed before: its subdirectories
        and files come last, in order. */
    method CreateEntryList(parent: nat, dirNames: seq<string>, fileNames: seq<string>)
      requires Linked(All()) && parent < |dirs| && parent !in DirOwners(dirs) && parent !in FileOwners(files)
      modifies this
      ensures Linked(All())
      ensures DirOwners(dirs) == old(DirOwners(dirs)) + Repeat(parent, |dirNames|)
      ensures FileOwners(files) == old(FileOwners(files)) + Repeat(parent, |fileNames|)
      ensures Names(dirs) == old(Names(dirs)) + dirNames
      ensures FileNames(files) == old(FileNames(files)) + fileNames
    {
      for i := 0 to |dirNames|
        invariant Linked(All()) && parent < |dirs| && files == old(files)
        invariant DirOwners(dirs) == old(DirOwners(dirs)) + Repeat(parent, i)
        invariant Names(dirs) == old(Names(dirs)) + dirNames[..i]
      {
        AddDir(dirNames[i], parent);
        assert dirNames[..i + 1] == dirNames[..i] + [dirNames[i]];
      }
      assert dirNames[..|dirNames|] == dirNames;
      for i := 0 to |fileNames|
        invariant Linked(All()) && parent < |dirs|
        invariant FileOwners(files) == old(FileOwners(files)) + Repeat(parent, i)
        invariant FileNames(files) == old(FileNames(files)) + fileNames[..i]
        invariant DirOwners(dirs) == old(DirOwners(dirs)) + Repeat(parent, |dirNames|)
        invariant Names(dirs) == old(Names(dirs)) + dirNames
      {
        AddFile(fileNames[i], parent);
        assert fileNames[..i + 1] == fileNames[..i] + [fileNames[i]];
      }
      assert fileNames[..|fileNames|] == fileNames;
    }

    method AddFile(name: string, parent: nat)
      requires Linked(All()) && parent < |dirs| && Open(FileOwners(files), parent)
      modifies this
      ensures Linked(All()) && FileNames(files) == old(FileNames(files)) + [name] && Names(dirs) == old(Names(dirs))
      ensures FileOwners(files) == old(FileOwners(files)) + [parent] && DirOwners(dirs) == old(DirOwners(dirs))
    {
      WithFileLinked(All(), name, parent);
      ghost var t := All();
      assert DirAt(All(), parent);
      if dirs[parent].childFile == NONE {
        dirs := dirs[parent := dirs[parent].(childFile := |files|)];
      }
      PushFileEntry(name, parent);
      assert All() == WithFile(t, name, parent);
    }
  
    /** removeDirEntry. */
    method RemoveDirEntry(index: nat)
      requires 0 < index < |dirs| && 0 <= dirs[index].parent < |dirs|
      modifies this
      ensures All() == Without(old(All()), index)
    {
      ghost var t := All();
      var removed := dirs[index];
      if dirs[index - 1].sibling == index {
        dirs := dirs[index - 1 := dirs[index - 1].(sibling := removed.sibling)];
      } else if dirs[removed.parent].child == index {
        dirs := dirs[removed.parent := dirs[removed.parent].(child := removed.sibling)];
      }
      ghost var d := dirs;
      assert d == Relinked(t.dirs, index);
      for i := 0 to |dirs|
        invariant |dirs| == |d| && files == t.files
        invariant forall j :: 0 <= j < |d| ==> dirs[j] == if j < i then SubDir(d[j], index) else d[j]
      {
        dirs := dirs[i := SubDir(dirs[i], index)];
      }
      ghost var e := dirs;
      for i := 0 to |files|
        invariant |files| == |t.files| && dirs == e
        invariant forall j :: 0 <= j < |files| ==>
          files[j] == if j < i then t.files[j].(parent := Sub(t.files[j].parent, index)) else t.files[j]
      {
        files := files[i := files[i].(parent := Sub(files[i].parent, index))];
      }
      dirs := dirs[..index] + dirs[index + 1..];
    }

    /** The last hollow directory, or 0 if only the root can be hollow. */
    method FindHollow() returns (index: nat)
      requires dirs != []
      ensures index < |dirs| && (index > 0 ==> Hollow(All(), index))
      ensures index == 0 ==> forall j :: 0 < j < |dirs| ==> !Hollow(All(), j)
    {
      var i := |dirs| - 1;
      while i > 0
        invariant 0 <= i < |dirs| && forall j :: i < j < |dirs| ==> !Hollow(All(), j)
      {
        if dirs[i].child == NONE && dirs[i].childFile == NONE {
          return i;
        }
        i := i - 1;
      }
      return 0;
    }

    /** removeEmptyDirEntry: exactly the root and the directories that hold a file, in themselves or further
        down, remain; their names, their order, their parents and their files are kept, and all links hold. */
    method RemoveEmptyDirEntry() returns (ghost origin: seq<nat>)
      requires Linked(All())
      modifies this
      ensures Pruned(old(All()), All(), origin)
    {
      ghost var s := All();
      LinkedRooted(s);
      origin := AllOf(s);
      var more := true;
      while more
        invariant Rooted(s) && Linked(All()) && Keeps(s, All(), origin) && NoneLost(s, origin)
        invariant !more ==> forall j :: 0 < j < |dirs| ==> !Hollow(All(), j)
        decreases |dirs|, more
      {
        var index := FindHollow();
        more := index > 0;
        if more {
          LinkedRooted(All());
          WithoutLinked(All(), index);
          KeepsWithout(s, All(), origin, index);
          origin := Dropped(origin, index);
          RemoveDirEntry(index);
        }
      }
      NothingHollow(s, All(), origin);
    }
  }

  /** At first every directory is where it was. */
  lemma AllOf(s: Table) returns (origin: seq<nat>)
    requires Linked(s) && Rooted(s)
    ensures Keeps(s, s, origin) && NoneLost(s, origin)
  {
    origin := seq(|s.dirs|, i requires 0 <= i < |s.dirs| => i);
    forall i | 0 <= i < |s.dirs| ensures KeptAt(s, s, origin, i) && i in origin {
      assert DirAt(s, i) && origin[i] == i;
    }
    forall f | 0 <= f < |s.files| ensures FileKeptAt(s, s, origin, f) {
      assert FileAt(s, f);
    }
  }
}
