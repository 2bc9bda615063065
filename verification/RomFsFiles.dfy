/** The file data of a RomFS image (src/romfs.cpp, pushFileEntry, updateLevelBuffer): every file stands in the
    image at the offset that its entry records, whether the image was laid out in order or against a reference
    image. */
module RomFsFiles {
  import opened Bytes
  import opened RomFsHash
  import opened RomFsContent
  import Remap = RomFsRemap

  type File = Remap.File

  /** The entries record the sizes of the files' data. */
  predicate Sizes(files: seq<File>, bytes: seq<seq<byte>>) {
    |files| == |bytes| && forall i :: 0 <= i < |files| ==> |bytes[i]| == files[i].size
  }

  /** The data of file `i` stands at its offset behind `base`. */
  predicate StandsAt(content: seq<byte>, base: nat, f: File, data: seq<byte>) {
    && 0 <= base + f.cell && base + f.cell + |data| <= |content|
    && content[base + f.cell..base + f.cell + |data|] == data
  }

  lemma StillStands(content: seq<byte>, more: seq<byte>, base: nat, f: File, data: seq<byte>)
    requires StandsAt(content, base, f, data) && content <= more
    ensures StandsAt(more, base, f, data)
  {
    assert more[base + f.cell..base + f.cell + |data|] == content[base + f.cell..base + f.cell + |data|];
  }

  // ----- Files in order -----

  /** The end of the first `i` files. */
  function EndOf(files: seq<File>, i: nat): int
    requires i <= |files|
  {
    if i == 0 then 0 else files[i - 1].cell + files[i - 1].size
  }

  /** Each file begins at the first multiple of 16 behind the file before it. */
  predicate Laid(files: seq<File>, size: int) {
    && (forall i :: 0 <= i < |files| ==>
      files[i].cell % 16 == 0 && EndOf(files, i) <= files[i].cell < EndOf(files, i) + 16)
    && size == EndOf(files, |files|)
  }

  class FileList {
    var files: seq<File>
    var level3Size: nat

    constructor ()
      ensures files == [] && level3Size == 0 && Laid(files, level3Size)
    {
      files, level3Size := [], 0;
    }

    /** pushFileEntry's offsets. */
    method PushFileEntry(path: string, size: nat)
      requires Laid(files, level3Size)
      modifies this
      ensures Laid(files, level3Size) && |files| == |old(files)| + 1 && files[..|old(files)|] == old(files)
      ensures files[|old(files)|].path == path && files[|old(files)|].size == size
    {
      var cell := Align(level3Size, Remap.FILE_ALIGN);
      ghost var was := files;
      files := files + [Remap.File(path, cell, size)];
      level3Size := cell + size;
      LaidMore(was, files, cell, size);
    }
  }

  lemma LaidMore(was: seq<File>, files: seq<File>, cell: nat, size: nat)
    requires Laid(was, EndOf(was, |was|)) && |files| == |was| + 1 && files[..|was|] == was
    requires files[|was|].cell == cell && files[|was|].size == size
    requires cell % 16 == 0 && EndOf(was, |was|) <= cell < EndOf(was, |was|) + 16
    ensures Laid(files, cell + size)
  {
    forall i | 0 <= i < |was| ensures files[i] == was[i] && EndOf(files, i) == EndOf(was, i) {
      assert files[i] == files[..|was|][i] && (i > 0 ==> files[i - 1] == files[..|was|][i - 1]);
    }
    assert |was| > 0 ==> files[|was| - 1] == files[..|was|][|was| - 1];
  }

  /** What updateLevelBuffer writes for an image that is laid out in order: `meta` is all that comes before the
      files. */
  function InOrder(meta: seq<byte>, bytes: seq<seq<byte>>): seq<Piece> {
    if bytes == [] then [Data(meta)]
    else InOrder(meta, bytes[..|bytes| - 1]) + [Padding, Data(bytes[|bytes| - 1])]
  }

  lemma ContentMore(pieces: seq<Piece>, p: Piece)
    ensures Content(pieces + [p]) == Extended(Content(pieces), p)
  {
    assert (pieces + [p])[..|pieces|] == pieces;
  }

  lemma ContentTwo(pieces: seq<Piece>, p: Piece, q: Piece)
    ensures Content(pieces + [p, q]) == Extended(Extended(Content(pieces), p), q)
  {
    OneByOne(pieces, p, q);
    ContentMore(pieces, p);
    ContentMore(pieces + [p], q);
  }

  lemma OneByOne<T>(s: seq<T>, x: T, y: T)
    ensures s + [x, y] == s + [x] + [y]
  {
  }

  lemma OnlyMeta(meta: seq<byte>)
    ensures Content([Data(meta)]) == meta
  {
    ContentMore([], Data(meta));
    assert [] + [Data(meta)] == [Data(meta)];
  }

  /** Padding behind aligned data. */
  lemma PadBehind(base: nat, end: nat, cell: nat)
    requires base % 16 == 0 && cell % 16 == 0 && end <= cell < end + 16
    ensures Align(base + end, 16) == base + cell
  {
    OneMultiple(Align(base + end, 16), base, cell, base + end);
  }

  lemma OneMultiple(x: nat, base: nat, cell: nat, n: nat)
    requires x % 16 == 0 && base % 16 == 0 && cell % 16 == 0 && n <= x < n + 16 && n <= base + cell < n + 16
    ensures x == base + cell
  {
  }

  lemma LaidLess(files: seq<File>)
    requires files != [] && Laid(files, EndOf(files, |files|))
    ensures
      var less := files[..|files| - 1];
      Laid(less, EndOf(less, |less|)) && EndOf(less, |less|) == EndOf(files, |less|)
  {
    var less := files[..|files| - 1];
    forall i | 0 <= i <= |less| ensures EndOf(less, i) == EndOf(files, i) {
    }
  }

  lemma {:induction false} LaidSizes(files: seq<File>, i: nat)
    requires Laid(files, EndOf(files, |files|)) && i <= |files|
    ensures EndOf(files, i) >= 0 && (i < |files| ==> files[i].cell >= 0)
  {
    if i > 0 {
      LaidSizes(files, i - 1);
    }
  }

  /** One more file behind what has been written. */
  lemma NextInOrder(before: seq<byte>, base: nat, metaSize: nat, f: File, end: nat, data: seq<byte>, first: bool)
    requires base == Align(metaSize, 16) && |data| == f.size && f.cell % 16 == 0 && end <= f.cell < end + 16
    requires |before| == (if first then metaSize else base + end) && (first ==> end == 0)
    ensures
      var after := PadTo(before, 16) + data;
      StandsAt(after, base, f, data) && |after| == base + f.cell + f.size
  {
    if first {
      OneMultiple(base, base, f.cell, metaSize);
    } else {
      PadBehind(base, end, f.cell);
    }
    assert (PadTo(before, 16) + data)[|PadTo(before, 16)|..] == data;
  }

  predicate AllAt(content: seq<byte>, base: nat, files: seq<File>, bytes: seq<seq<byte>>) {
    |files| == |bytes| && forall i :: 0 <= i < |files| ==> StandsAt(content, base, files[i], bytes[i])
  }

  lemma AllStand(before: seq<byte>, after: seq<byte>, base: nat, files: seq<File>, bytes: seq<seq<byte>>, n: nat)
    requires |files| == |bytes| == n + 1 && before <= after && AllAt(before, base, files[..n], bytes[..n])
    requires StandsAt(after, base, files[n], bytes[n])
    ensures AllAt(after, base, files, bytes)
  {
    forall i | 0 <= i < |files| ensures StandsAt(after, base, files[i], bytes[i]) {
      if i < n {
        assert StandsAt(before, base, files[..n][i], bytes[..n][i]);
        StillStands(before, after, base, files[i], bytes[i]);
      }
    }
  }

  /** How long the content is that ends with the last file. */
  function LengthTo(metaSize: nat, files: seq<File>): int {
    if files == [] then metaSize else Align(metaSize, 16) + EndOf(files, |files|)
  }

  lemma InOrderMore(meta: seq<byte>, bytes: seq<seq<byte>>, n: nat)
    requires |bytes| == n + 1
    ensures Content(InOrder(meta, bytes)) == PadTo(Content(InOrder(meta, bytes[..n])), 16) + bytes[n]
  {
    ContentTwo(InOrder(meta, bytes[..n]), Padding, Data(bytes[n]));
  }

  lemma LengthLess(metaSize: nat, files: seq<File>, n: nat)
    requires Laid(files, EndOf(files, |files|)) && |files| == n + 1
    ensures EndOf(files, n) >= 0 && (n == 0 ==> EndOf(files, n) == 0)
    ensures LengthTo(metaSize, files[..n]) == (if n == 0 then metaSize else Align(metaSize, 16) + EndOf(files, n))
  {
    LaidLess(files);
    LaidSizes(files, n);
  }

  lemma NextStands(
    meta: seq<byte>, files: seq<File>, n: nat, before: seq<byte>, data: seq<byte>, content: seq<byte>)
    requires Laid(files, EndOf(files, |files|)) && |files| == n + 1 && |data| == files[n].size
    requires meta <= before && |before| == LengthTo(|meta|, files[..n]) && content == PadTo(before, 16) + data
    ensures meta <= content && |content| == LengthTo(|meta|, files) && before <= content
    ensures StandsAt(content, Align(|meta|, 16), files[n], data)
  {
    LengthLess(|meta|, files, n);
    NextInOrder(before, Align(|meta|, 16), |meta|, files[n], EndOf(files, n), data, n == 0);
  }

  /** In an image that is laid out in order every file stands where its entry says, behind what precedes the files,
      and nothing else follows. */
  lemma {:induction false} InOrderStands(meta: seq<byte>, files: seq<File>, bytes: seq<seq<byte>>)
    requires Laid(files, EndOf(files, |files|)) && Sizes(files, bytes)
    ensures meta <= Content(InOrder(meta, bytes)) && |Content(InOrder(meta, bytes))| == LengthTo(|meta|, files)
    ensures AllAt(Content(InOrder(meta, bytes)), Align(|meta|, 16), files, bytes)
  {
    if bytes == [] {
      OnlyMeta(meta);
    } else {
      var n := |files| - 1;
      var before, content := Content(InOrder(meta, bytes[..n])), Content(InOrder(meta, bytes));
      LaidLess(files);
      InOrderStands(meta, files[..n], bytes[..n]);
      InOrderMore(meta, bytes, n);
      NextStands(meta, files, n, before, bytes[n], content);
      AllStand(before, content, Align(|meta|, 16), files, bytes, n);
    }
  }

  // ----- Files with gaps -----

  predicate Known(files: seq<File>, w: seq<nat>) { forall a :: 0 <= a < |w| ==> w[a] < |files| }

  /** The files with data, by rising offset: a map in which the first entry of an offset stays. */
  function Put(files: seq<File>, k: nat, w: seq<nat>): (r: seq<nat>)
    requires k < |files| && Known(files, w)
    ensures Known(files, r)
  {
    if w == [] || files[k].cell < files[w[0]].cell then [k] + w
    else if files[k].cell == files[w[0]].cell then w
    else [w[0]] + Put(files, k, w[1..])
  }

  function ByOffset(files: seq<File>, n: nat): (r: seq<nat>)
    requires n <= |files|
    ensures Known(files, r)
  {
    if n == 0 then []
    else if files[n - 1].size == 0 then ByOffset(files, n - 1)
    else Put(files, n - 1, ByOffset(files, n - 1))
  }

  predicate Rising(files: seq<File>, w: seq<nat>)
    requires Known(files, w)
  {
    forall a, b :: 0 <= a < b < |w| ==> files[w[a]].cell < files[w[b]].cell
  }

  predicate From(files: seq<File>, w: seq<nat>, cell: int)
    requires Known(files, w)
  {
    forall a :: 0 <= a < |w| ==> cell < files[w[a]].cell
  }

  lemma {:induction false} PutFrom(files: seq<File>, k: nat, w: seq<nat>, cell: int)
    requires k < |files| && Known(files, w) && From(files, w, cell) && cell < files[k].cell
    ensures From(files, Put(files, k, w), cell)
  {
    if !(w == [] || files[k].cell <= files[w[0]].cell) {
      PutFrom(files, k, w[1..], cell);
    }
  }

  lemma RisingFirst(files: seq<File>, x: nat, w: seq<nat>)
    requires x < |files| && Known(files, w) && Rising(files, w) && From(files, w, files[x].cell)
    ensures Known(files, [x] + w) && Rising(files, [x] + w)
  {
    var r := [x] + w;
    forall a, b | 0 <= a < b < |r| ensures files[r[a]].cell < files[r[b]].cell {
      assert r[b] == w[b - 1] && (a > 0 ==> r[a] == w[a - 1]);
    }
  }

  lemma {:induction false} PutRising(files: seq<File>, k: nat, w: seq<nat>)
    requires k < |files| && Known(files, w) && Rising(files, w)
    ensures Rising(files, Put(files, k, w))
  {
    if w == [] {
    } else if files[k].cell < files[w[0]].cell {
      forall a | 0 <= a < |w| ensures files[k].cell < files[w[a]].cell {
        assert a > 0 ==> files[w[0]].cell < files[w[a]].cell;
      }
      RisingFirst(files, k, w);
    } else if files[k].cell > files[w[0]].cell {
      PutRising(files, k, w[1..]);
      PutFrom(files, k, w[1..], files[w[0]].cell);
      RisingFirst(files, w[0], Put(files, k, w[1..]));
    }
  }

  lemma {:induction false} PutMembers(files: seq<File>, k: nat, w: seq<nat>, j: nat)
    requires k < |files| && Known(files, w) && forall a :: 0 <= a < |w| ==> files[w[a]].cell != files[k].cell
    ensures j in Put(files, k, w) <==> j == k || j in w
  {
    if !(w == [] || files[k].cell <= files[w[0]].cell) {
      PutMembers(files, k, w[1..], j);
      assert w == [w[0]] + w[1..];
    }
  }

  /** Two files of an image do not overlap. */
  predicate Beside(f: File, g: File) { f.cell + f.size <= g.cell || g.cell + g.size <= f.cell }

  predicate AllBeside(files: seq<File>) {
    forall j, k :: 0 <= j < k < |files| && files[j].size > 0 && files[k].size > 0 ==> Beside(files[j], files[k])
  }

  ghost predicate Lists(files: seq<File>, w: seq<nat>, n: nat) {
    && Known(files, w) && Rising(files, w)
    && forall j: nat :: j in w <==> j < n && j < |files| && files[j].size > 0
  }

  lemma NoSuchOffset(files: seq<File>, w: seq<nat>, k: nat, a: nat)
    requires AllBeside(files) && Lists(files, w, k) && k < |files| && files[k].size > 0 && a < |w|
    ensures files[w[a]].cell != files[k].cell
  {
    assert w[a] in w;
    assert Beside(files[w[a]], files[k]);
  }

  lemma ListsMore(files: seq<File>, w: seq<nat>, k: nat)
    requires AllBeside(files) && Lists(files, w, k) && k < |files| && files[k].size > 0
    ensures Lists(files, Put(files, k, w), k + 1)
  {
    PutRising(files, k, w);
    forall a | 0 <= a < |w| ensures files[w[a]].cell != files[k].cell {
      NoSuchOffset(files, w, k, a);
    }
    forall j: nat ensures j in Put(files, k, w) <==> j < k + 1 && j < |files| && files[j].size > 0 {
      PutMembers(files, k, w, j);
    }
  }

  lemma ListsAlready(files: seq<File>, w: seq<nat>, k: nat)
    requires Lists(files, w, k) && k < |files| && files[k].size == 0
    ensures Lists(files, w, k + 1)
  {
  }

  lemma OffsetNext(files: seq<File>, k: nat, v: seq<nat>, w: seq<nat>)
    requires AllBeside(files) && k < |files| && Lists(files, v, k)
    requires w == if files[k].size == 0 then v else Put(files, k, v)
    ensures Lists(files, w, k + 1)
  {
    if files[k].size == 0 {
      ListsAlready(files, v, k);
    } else {
      ListsMore(files, v, k);
    }
  }

  /** The files with data are listed by rising offset, each once. */
  lemma {:induction false} OffsetOrder(files: seq<File>, n: nat) returns (w: seq<nat>)
    requires n <= |files| && AllBeside(files)
    ensures w == ByOffset(files, n) && Lists(files, w, n)
  {
    w := ByOffset(files, n);
    if n > 0 {
      var v := OffsetOrder(files, n - 1);
      OffsetNext(files, n - 1, v, w);
    }
  }

  /** What updateLevelBuffer writes for a remapped image: the gap in front of each file is only skipped. */
  function WithGaps(meta: seq<byte>, base: nat, files: seq<File>, bytes: seq<seq<byte>>, w: seq<nat>): seq<Piece>
    requires |files| == |bytes| && Known(files, w)
  {
    if w == [] then [Data(meta)]
    else
      var k, before := w[|w| - 1], WithGaps(meta, base, files, bytes, w[..|w| - 1]);
      before + [Skip(Max(base + files[k].cell - |Content(before)|, 0)), Data(bytes[k])]
  }

  /** The end of the last of the files of a list, or of what precedes them all. */
  function ListEnd(metaSize: nat, base: nat, files: seq<File>, w: seq<nat>): int
    requires Known(files, w)
  {
    if w == [] then metaSize else base + files[w[|w| - 1]].cell + files[w[|w| - 1]].size
  }

  /** In a list each file begins behind the one before it. */
  predicate InRow(files: seq<File>, w: seq<nat>)
    requires Known(files, w)
  {
    && (w != [] ==> files[w[0]].cell >= 0)
    && forall a :: 0 < a < |w| ==> files[w[a - 1]].cell + files[w[a - 1]].size <= files[w[a]].cell
  }

  predicate ListAt(content: seq<byte>, base: nat, files: seq<File>, bytes: seq<seq<byte>>, w: seq<nat>)
    requires |files| == |bytes| && Known(files, w)
  {
    forall a :: 0 <= a < |w| ==> StandsAt(content, base, files[w[a]], bytes[w[a]])
  }

  lemma {:induction false} GapsStand(
    meta: seq<byte>, base: nat, files: seq<File>, bytes: seq<seq<byte>>, w: seq<nat>)
    returns (content: seq<byte>)
    requires Sizes(files, bytes) && Known(files, w) && InRow(files, w) && base >= |meta|
    ensures content == Content(WithGaps(meta, base, files, bytes, w)) && meta <= content
    ensures |content| == ListEnd(|meta|, base, files, w) && ListAt(content, base, files, bytes, w)
  {
    content := Content(WithGaps(meta, base, files, bytes, w));
    if w == [] {
      OnlyMeta(meta);
    } else {
      var n := |w| - 1;
      var before := GapsStand(meta, base, files, bytes, w[..n]);
      NextGap(WithGaps(meta, base, files, bytes, w[..n]), base, files[w[n]], bytes[w[n]]);
      ListStands(before, content, base, files, bytes, w, n);
    }
  }

  lemma NextGap(before: seq<Piece>, base: nat, f: File, data: seq<byte>)
    requires |Content(before)| <= base + f.cell && |data| == f.size
    ensures
      var after := Content(before + [Skip(Max(base + f.cell - |Content(before)|, 0)), Data(data)]);
      StandsAt(after, base, f, data) && |after| == base + f.cell + f.size && Content(before) <= after
  {
    var gap := Skip(base + f.cell - |Content(before)|);
    ContentTwo(before, gap, Data(data));
    var padded := Extended(Content(before), gap);
    assert (padded + data)[|padded|..|padded| + |data|] == data;
  }

  lemma ListStands(
    before: seq<byte>, after: seq<byte>, base: nat, files: seq<File>, bytes: seq<seq<byte>>, w: seq<nat>, n: nat)
    requires |files| == |bytes| && Known(files, w) && |w| == n + 1 && before <= after
    requires ListAt(before, base, files, bytes, w[..n]) && StandsAt(after, base, files[w[n]], bytes[w[n]])
    ensures ListAt(after, base, files, bytes, w)
  {
    forall a | 0 <= a < |w| ensures StandsAt(after, base, files[w[a]], bytes[w[a]]) {
      if a < n {
        assert StandsAt(before, base, files[w[..n][a]], bytes[w[..n][a]]);
        StillStands(before, after, base, files[w[a]], bytes[w[a]]);
      }
    }
  }

  lemma RowOfRising(files: seq<File>, w: seq<nat>)
    requires Lists(files, w, |files|) && AllBeside(files)
    requires forall j :: 0 <= j < |files| ==> files[j].cell >= 0
    ensures InRow(files, w)
  {
    forall a | 0 < a < |w| ensures files[w[a - 1]].cell + files[w[a - 1]].size <= files[w[a]].cell {
      NextInRow(files, w, a);
    }
  }

  lemma NextInRow(files: seq<File>, w: seq<nat>, a: nat)
    requires Lists(files, w, |files|) && AllBeside(files) && 0 < a < |w|
    ensures files[w[a - 1]].cell + files[w[a - 1]].size <= files[w[a]].cell
  {
    assert w[a - 1] in w && w[a] in w;
    assert files[w[a - 1]].cell < files[w[a]].cell;
    assert Beside(files[w[a - 1]], files[w[a]]) || Beside(files[w[a]], files[w[a - 1]]);
  }

  /** Files that have been relocated do not overlap. */
  lemma RelocatedBeside(before: seq<File>, files: seq<File>, size: int)
    requires size >= 0 && Remap.Relocated(before, files, size)
    ensures AllBeside(files)
    ensures forall j :: 0 <= j < |files| ==> 0 <= files[j].cell && files[j].cell + files[j].size <= size
  {
    forall j, k | 0 <= j < k < |files| && files[j].size > 0 && files[k].size > 0
      ensures Beside(files[j], files[k])
    {
      assert Remap.Apart(Remap.Slot(0, files[j]), Remap.Slot(0, files[k]));
    }
    forall j | 0 <= j < |files| ensures 0 <= files[j].cell && files[j].cell + files[j].size <= size {
      assert Remap.PlaceOk(before[j], files[j], size);
    }
  }

  /** The content of a remapped image ends where the last of the files with data ends, or without any with what
      precedes the files. */
  predicate EndsAt(metaSize: nat, base: nat, files: seq<File>, end: int) {
    && (forall j :: 0 <= j < |files| && files[j].size > 0 ==> base + files[j].cell + files[j].size <= end)
    && ((exists j :: 0 <= j < |files| && files[j].size > 0 && base + files[j].cell + files[j].size == end)
        || (end == metaSize && forall j :: 0 <= j < |files| ==> files[j].size == 0))
  }

  predicate DataAt(content: seq<byte>, base: nat, files: seq<File>, bytes: seq<seq<byte>>) {
    && |files| == |bytes|
    && forall j :: 0 <= j < |files| && files[j].size > 0 ==> StandsAt(content, base, files[j], bytes[j])
  }

  lemma RowEnds(metaSize: nat, base: nat, files: seq<File>, w: seq<nat>)
    requires Lists(files, w, |files|) && InRow(files, w)
    ensures EndsAt(metaSize, base, files, ListEnd(metaSize, base, files, w))
  {
    forall j | 0 <= j < |files| && files[j].size > 0
      ensures base + files[j].cell + files[j].size <= ListEnd(metaSize, base, files, w)
    {
      assert j in w;
      var a :| 0 <= a < |w| && w[a] == j;
      RowRises(files, w, a, |w| - 1);
    }
    if w == [] {
      forall j | 0 <= j < |files| ensures files[j].size == 0 {
        assert j !in w;
      }
    } else {
      assert w[|w| - 1] in w;
    }
  }

  lemma {:induction false} RowRises(files: seq<File>, w: seq<nat>, a: nat, b: nat)
    requires Known(files, w) && InRow(files, w) && a <= b < |w|
    ensures files[w[a]].cell + files[w[a]].size <= files[w[b]].cell + files[w[b]].size
  {
    if a < b {
      RowRises(files, w, a, b - 1);
    }
  }

  lemma RowOfRelocated(files: seq<File>, before: seq<File>, size: int) returns (w: seq<nat>)
    requires size >= 0 && Remap.Relocated(before, files, size)
    ensures w == ByOffset(files, |files|) && Lists(files, w, |files|) && InRow(files, w)
    ensures forall j :: 0 <= j < |files| ==> 0 <= files[j].cell && files[j].cell + files[j].size <= size
  {
    RelocatedBeside(before, files, size);
    w := OffsetOrder(files, |files|);
    RowOfRising(files, w);
  }

  /** In a remapped image every file with data stands where its entry says, and nothing else follows. */
  lemma RemappedStands(
    meta: seq<byte>, base: nat, files: seq<File>, bytes: seq<seq<byte>>, content: seq<byte>, before: seq<File>,
    size: int)
    requires Sizes(files, bytes) && size >= 0 && Remap.Relocated(before, files, size) && base >= |meta|
    requires content == Content(WithGaps(meta, base, files, bytes, ByOffset(files, |files|)))
    ensures meta <= content && DataAt(content, base, files, bytes)
    ensures EndsAt(|meta|, base, files, |content|) && |content| <= base + size
  {
    var w := RowOfRelocated(files, before, size);
    var _ := GapsStand(meta, base, files, bytes, w);
    RowEnds(|meta|, base, files, w);
    ListedStand(content, base, files, bytes, w);
    EndsWithin(|meta|, base, files, |content|, size);
  }

  lemma EndsWithin(metaSize: nat, base: nat, files: seq<File>, end: int, size: nat)
    requires EndsAt(metaSize, base, files, end) && metaSize <= base
    requires forall j :: 0 <= j < |files| ==> 0 <= files[j].cell && files[j].cell + files[j].size <= size
    ensures end <= base + size
  {
  }

  lemma ListedStand(content: seq<byte>, base: nat, files: seq<File>, bytes: seq<seq<byte>>, w: seq<nat>)
    requires |files| == |bytes| && Lists(files, w, |files|) && ListAt(content, base, files, bytes, w)
    ensures DataAt(content, base, files, bytes)
  {
    forall j | 0 <= j < |files| && files[j].size > 0 ensures StandsAt(content, base, files[j], bytes[j]) {
      assert j in w;
      var a :| 0 <= a < |w| && w[a] == j;
      assert StandsAt(content, base, files[w[a]], bytes[w[a]]);
    }
  }

  // ----- The image -----

  lemma StandsBehind(image: seq<byte>, at: nat, content: seq<byte>, base: nat, f: File, data: seq<byte>)
    requires at + |content| <= |image| && image[at..at + |content|] == content && StandsAt(content, base, f, data)
    ensures StandsAt(image, at + base, f, data)
  {
    PartOfPart(image, at, |content|, base + f.cell, |data|);
  }

  lemma AllBehind(
    image: seq<byte>, at: nat, content: seq<byte>, base: nat, files: seq<File>, bytes: seq<seq<byte>>)
    requires InImage(image, at, content) && AllAt(content, base, files, bytes)
    ensures AllAt(image, at + base, files, bytes)
  {
    forall i | 0 <= i < |files| ensures StandsAt(image, at + base, files[i], bytes[i]) {
      StandsBehind(image, at, content, base, files[i], bytes[i]);
    }
  }

  lemma DataBehind(
    image: seq<byte>, at: nat, content: seq<byte>, meta: seq<byte>, base: nat, files: seq<File>,
    bytes: seq<seq<byte>>, spot: nat)
    requires InImage(image, at, content) && meta <= content && DataAt(content, base, files, bytes) && spot == at + base
    ensures InImage(image, at, meta) && DataAt(image, spot, files, bytes)
  {
    MetaBehind(image, at, content, meta);
    forall i | 0 <= i < |files| && files[i].size > 0 ensures StandsAt(image, spot, files[i], bytes[i]) {
      StandsBehind(image, at, content, base, files[i], bytes[i]);
    }
  }

  /** What the hash tree makes of the content, laid out for `n` bytes. */
  lemma ImageMade(sha: Sha, image: seq<byte>, r: seq<Region>, header: seq<byte>, content: seq<byte>, n: nat)
    requires r == Layout(|header|, LevelSizes(n)) && |content| <= n
    requires Filled(image, r, Batch(sha, header, content))
    ensures Arranged(r, Align(|header|, 32), n) && header <= image && InImage(image, r[3].base, content)
    ensures Needed(r[3], |content|) ==> Covered(sha, image, r, Align(|header|, 32))
    ensures NeverZero(sha) && !Needed(r[3], |content|) ==> !Covered(sha, image, r, Align(|header|, 32))
  {
    LayoutArranged(|header|, n, r);
    CoveredIff(sha, image, r, header, content, n);
    NeededIff(r[3], n, |content|);
    HeaderStands(sha, image, r, header, content);
  }

  lemma MetaBlocks(n: nat)
    ensures BlocksOf(n) == BlocksOf(Align(n, 16))
  {
    BlocksSize(n);
    BlocksSize(Align(n, 16));
    SameRounding(n, Align(n, 16), Align(n, BLOCK), Align(Align(n, 16), BLOCK));
  }

  lemma SameRounding(n: nat, m: nat, x: nat, y: nat)
    requires m % 16 == 0 && n <= m < n + 16 && x % 4096 == 0 && y % 4096 == 0
    requires n <= x < n + 4096 && m <= y < m + 4096
    ensures x == y
  {
  }

  lemma SizeBlocks(meta: seq<byte>, files: seq<File>, n: nat)
    requires Laid(files, EndOf(files, |files|)) && n == Align(|meta|, 16) + EndOf(files, |files|)
    ensures 0 <= LengthTo(|meta|, files) <= n && BlocksOf(LengthTo(|meta|, files)) == BlocksOf(n)
  {
    MetaBlocks(|meta|);
    LaidSizes(files, |files|);
  }

  /** createHeader, initLevelBuffer and updateLevelBuffer, for a recorded size of `n`. */
  method Build(sha: Sha, header: seq<byte>, pieces: seq<Piece>, n: nat) returns (tree: HashTree)
    requires |Content(pieces)| <= n
    ensures Arranged(tree.regions, Align(|header|, 32), n)
    ensures header <= tree.image && InImage(tree.image, tree.regions[3].base, Content(pieces))
    ensures Needed(tree.regions[3], |Content(pieces)|) ==>
      Covered(sha, tree.image, tree.regions, Align(|header|, 32))
    ensures NeverZero(sha) && !Needed(tree.regions[3], |Content(pieces)|) ==>
      !Covered(sha, tree.image, tree.regions, Align(|header|, 32))
  {
    tree := new HashTree(sha, |header|, n);
    tree.Update(header, pieces, n);
    ImageMade(sha, tree.image, tree.regions, header, Content(pieces), n);
  }

  /** create without a reference image: the image has the header at its front, then what precedes the files, and
      every file where its entry says; every block has its digest. */
  method Create(sha: Sha, header: seq<byte>, meta: seq<byte>, files: seq<File>, bytes: seq<seq<byte>>, size: nat)
    returns (tree: HashTree)
    requires Laid(files, size) && Sizes(files, bytes)
    ensures Arranged(tree.regions, Align(|header|, 32), Align(|meta|, 16) + size)
    ensures Covered(sha, tree.image, tree.regions, Align(|header|, 32))
    ensures header <= tree.image && InImage(tree.image, tree.regions[3].base, meta)
    ensures AllAt(tree.image, tree.regions[3].base + Align(|meta|, 16), files, bytes)
  {
    var n := Align(|meta|, 16) + size;
    var pieces := InOrder(meta, bytes);
    InOrderStands(meta, files, bytes);
    SizeBlocks(meta, files, n);
    tree := Build(sha, header, pieces, n);
    NeededIff(tree.regions[3], n, |Content(pieces)|);
    MetaBehind(tree.image, tree.regions[3].base, Content(pieces), meta);
    AllBehind(tree.image, tree.regions[3].base, Content(pieces), Align(|meta|, 16), files, bytes);
  }

  predicate InImage(image: seq<byte>, at: nat, s: seq<byte>) { at + |s| <= |image| && image[at..at + |s|] == s }

  lemma MetaBehind(image: seq<byte>, at: nat, content: seq<byte>, meta: seq<byte>)
    requires InImage(image, at, content) && meta <= content
    ensures InImage(image, at, meta)
  {
    assert image[at..at + |content|][..|meta|] == image[at..at + |meta|];
  }

  method ListPieces(
    meta: seq<byte>, base: nat, files: seq<File>, bytes: seq<seq<byte>>, size: nat, ghost before: seq<File>)
    returns (pieces: seq<Piece>)
    requires Remap.Relocated(before, files, size) && Sizes(files, bytes) && base >= |meta|
    ensures meta <= Content(pieces) && DataAt(Content(pieces), base, files, bytes)
    ensures EndsAt(|meta|, base, files, |Content(pieces)|) && |Content(pieces)| <= base + size
  {
    pieces := WithGaps(meta, base, files, bytes, ByOffset(files, |files|));
    RemappedStands(meta, base, files, bytes, Content(pieces), before, size);
  }

  /** create with a reference image: every file with data stands where its entry says. Every block has its digest if
      the content that is written needs as many blocks as the recorded size does, and (for a hash that is never zero at
      the front) only then. */
  method CreateRemapped(
    sha: Sha, header: seq<byte>, meta: seq<byte>, files: seq<File>, bytes: seq<seq<byte>>, size: nat,
    ghost before: seq<File>)
    returns (tree: HashTree, ghost end: nat)
    requires Remap.Relocated(before, files, size) && Sizes(files, bytes)
    ensures Arranged(tree.regions, Align(|header|, 32), Align(|meta|, 16) + size)
    ensures header <= tree.image && InImage(tree.image, tree.regions[3].base, meta)
    ensures DataAt(tree.image, tree.regions[3].base + Align(|meta|, 16), files, bytes)
    ensures EndsAt(|meta|, Align(|meta|, 16), files, end)
    ensures Needed(tree.regions[3], end) ==> Covered(sha, tree.image, tree.regions, Align(|header|, 32))
    ensures NeverZero(sha) && !Needed(tree.regions[3], end) ==>
      !Covered(sha, tree.image, tree.regions, Align(|header|, 32))
  {
    var base := Align(|meta|, 16);
    var pieces := ListPieces(meta, base, files, bytes, size, before);
    end := |Content(pieces)|;
    tree := Build(sha, header, pieces, base + size);
    ghost var at, spot := tree.regions[3].base, tree.regions[3].base + Align(|meta|, 16);
    DataBehind(tree.image, at, Content(pieces), meta, base, files, bytes, spot);
  }

  lemma NeededIff(r: Region, n: nat, end: nat)
    requires Needed(r, n) && end <= n
    ensures Needed(r, end) <==> BlocksOf(end) == BlocksOf(n)
    ensures !Needed(r, end) ==> BlocksOf(end) < BlocksOf(n)
  {
    BlocksMonotone(end, n);
    BlocksSize(end);
    BlocksSize(n);
  }

  /** An empty file that stays behind a file that is gone: the recorded size still reaches up to it, but nothing is
      written there, so that blocks are laid out that get no digest. */
  lemma EmptyFileStays(files: seq<File>, size: nat, metaSize: nat, end: nat, r: Region)
    requires
      var ref := [Remap.File("A", 0, 0x2000), Remap.File("Z", 0x2000, 0)];
      var before := [Remap.File("Z", Remap.NO_LEVEL, 0)];
      Remap.Relocated(before, files, size) && Remap.StayPut(before, files, ref, 0)
    requires metaSize <= 0x1000 && EndsAt(metaSize, Align(metaSize, 16), files, end)
    requires Needed(r, Align(metaSize, 16) + size)
    ensures
      var ref := [Remap.File("A", 0, 0x2000), Remap.File("Z", 0x2000, 0)];
      Remap.Packed(ref, 0, 0x2000) && Remap.Distinct(ref) && !Needed(r, end)
  {
    var ref := [Remap.File("A", 0, 0x2000), Remap.File("Z", 0x2000, 0)];
    var before := [Remap.File("Z", Remap.NO_LEVEL, 0)];
    assert ref[1].path == before[0].path && Align(before[0].size, 16) <= Align(ref[1].size, 16);
    assert files[0].cell == 0x2000;
    assert Remap.PlaceOk(before[0], files[0], size);
    forall x | 0 <= x < 0x2000 ensures Remap.InSome(ref, |ref|, x) {
      assert Remap.Slot(0, ref[0]).top <= x < Remap.Slot(0, ref[0]).bottom;
    }
  }
}
