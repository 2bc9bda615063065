/** The Huffman compressor over buffers (src/huffman.cpp, compress). */
module HuffmanCoder {
  import opened Bytes
  import opened Output
  import opened HuffmanTable
  import opened HuffmanTree
  import opened HuffmanLayout
  import opened HuffmanCode
  import opened HuffmanStream
  import opened HuffmanScheduler
  import opened Huffman

  // ----- Counting -----

  lemma Bumped(table: seq<Data>, after: seq<Data>, syms: seq<byte>, dataNum: nat, v: byte)
    requires Counted(table, Weights(syms, dataNum)) && v < dataNum && |syms| + 1 < U32_LIMIT
    requires after == table[v := table[v].(freq := (table[v].freq + 1) % U32_LIMIT)]
    ensures Counted(after, Weights(syms + [v], dataNum))
  {
    OccurrencesBound(syms, v);
    forall i | 0 <= i < |after|
      ensures after[i] == BLANK.(freq := if i < dataNum then Weights(syms + [v], dataNum)[i] else 0)
    {
      assert (syms + [v])[..|syms|] == syms;
    }
  }

  lemma {:induction false} OccurrencesBound(syms: seq<byte>, v: nat)
    ensures Occurrences(syms, v) <= |syms|
  {
    if syms != [] {
      OccurrencesBound(syms[..|syms| - 1], v);
    }
  }

  /** The two halves of a byte are counted high half first. */
  lemma WeightsSwap(syms: seq<byte>, a: byte, b: byte, dataNum: nat)
    ensures Weights(syms + [a] + [b], dataNum) == Weights(syms + [b, a], dataNum)
  {
    forall v | 0 <= v < dataNum
      ensures Occurrences(syms + [a] + [b], v) == Occurrences(syms + [b, a], v)
    {
      assert (syms + [a] + [b])[..|syms| + 1] == syms + [a] && (syms + [a])[..|syms|] == syms;
      assert (syms + [b, a])[..|syms| + 1] == syms + [b] && (syms + [b])[..|syms|] == syms;
    }
  }

  method Bump(table: array<Data>, v: byte, ghost syms: seq<byte>, ghost dataNum: nat)
    requires Counted(table[..], Weights(syms, dataNum)) && v < dataNum && |syms| + 1 < U32_LIMIT
    modifies table
    ensures Counted(table[..], Weights(syms + [v], dataNum))
  {
    ghost var before := table[..];
    table[v] := table[v].(freq := (table[v].freq + 1) % U32_LIMIT);
    Bumped(before, table[..], syms, dataNum, v);
  }

  /** The symbols that one byte adds. */
  function ByteSymbols(v: byte, bitSize: nat): seq<byte> { if bitSize == 4 then [v % 16, v / 16] else [v] }

  lemma SymbolsSnoc(data: seq<byte>, i: nat, bitSize: nat)
    requires i < |data|
    ensures Symbols(data[..i + 1], bitSize)
      == Symbols(data[..i], bitSize) + ByteSymbols(data[i], bitSize)
  {
    assert data[..i + 1][..i] == data[..i];
  }

  lemma SymbolsCount(data: seq<byte>, i: nat, bitSize: nat)
    requires i <= |data|
    ensures |Symbols(data[..i], bitSize)| <= |Symbols(data, bitSize)|
    ensures i < |data| ==> |Symbols(data[..i], bitSize)| + (if bitSize == 4 then 2 else 1) <= |Symbols(data, bitSize)|
  {
  }

  lemma NothingCounted(table: seq<Data>, dataNum: nat)
    requires |table| == 2 * dataNum && forall i :: 0 <= i < |table| ==> table[i] == BLANK
    ensures Counted(table, Weights([], dataNum))
  {
  }

  method CountByte(table: array<Data>, v: byte, bitSize: nat, ghost syms: seq<byte>)
    requires bitSize == 4 || bitSize == 8
    requires Counted(table[..], Weights(syms, DataNum(bitSize))) && |syms + ByteSymbols(v, bitSize)| < U32_LIMIT
    modifies table
    ensures Counted(table[..], Weights(syms + ByteSymbols(v, bitSize), DataNum(bitSize)))
  {
    if bitSize == 8 {
      Bump(table, v, syms, 256);
    } else {
      Bump(table, v / 16 % 16, syms, 16);
      Bump(table, v % 16, syms + [v / 16], 16);
      WeightsSwap(syms, v / 16, v % 16, 16);
    }
  }

  /** countData. */
  method CountData(table: array<Data>, data: seq<byte>, bitSize: nat)
    requires bitSize == 4 || bitSize == 8
    requires table.Length == 2 * DataNum(bitSize) && forall i :: 0 <= i < table.Length ==> table[i] == BLANK
    requires |Symbols(data, bitSize)| < U32_LIMIT
    modifies table
    ensures Counted(table[..], Weights(Symbols(data, bitSize), DataNum(bitSize)))
  {
    NothingCounted(table[..], DataNum(bitSize));
    for i := 0 to |data|
      invariant Counted(table[..], Weights(Symbols(data[..i], bitSize), DataNum(bitSize)))
    {
      SymbolsSnoc(data, i, bitSize);
      SymbolsCount(data, i, bitSize);
      CountByte(table, data[i], bitSize, Symbols(data[..i], bitSize));
    }
    assert data[..|data|] == data;
  }

  // ----- Writing the stream -----

  /** Stores the whole bytes among the last `len` digits of the word. */
  method Drain(out: array<byte>, start: nat, capacity: nat, word: nat, len: nat) returns (ok: bool, d: nat, left: nat)
    requires start <= capacity <= out.Length
    modifies out
    ensures out[capacity..] == old(out[capacity..])
    ensures 8 * (len / 8) <= len && ok == (start + len / 8 <= capacity)
    ensures ok ==>
      && d == start + len / 8 && left == len % 8
      && out[..d] == old(out[..start]) + Flush(word, len, len / 8)
  {
    Eighths(len);
    d, left := start, len;
    var k := len / 8;
    ok := capacity - d >= k;
    if !ok {
      return;
    }
    ghost var f := Flush(word, len, k);
    for i := 0 to k
      invariant d == start + i && start + k <= capacity
      invariant out[..d] == old(out[..start]) + f[..i]
      invariant out[capacity..] == old(out[capacity..])
    {
      FlushAt(word, len, k, i);
      out[d] := Drained(word, len - (i + 1) * 8);
      d := d + 1;
      assert out[..d] == out[..d - 1] + [f[i]];
    }
    left := len % 8;
  }

  /** The buffer holds `head` and what the encoder has drained. */
  ghost predicate Coding(buf: seq<byte>, head: seq<byte>, e: Encoder, word: nat, len: nat) {
    buf == head + e.out && word == e.word && len == e.len < 8
  }

  /** Shifts one code in and drains the word. */
  method EncodeSymbol(
    out: array<byte>, start: nat, capacity: nat, entry: Data, word: nat, len: nat,
    ghost head: seq<byte>, ghost e: Encoder)
    returns (ok: bool, d: nat, word': nat, len': nat)
    requires start <= capacity <= out.Length && Coding(out[..start], head, e, word, len)
    modifies out
    ensures out[capacity..] == old(out[capacity..])
    ensures ok == (|head| + |Push(e, entry.paDepth, entry.code).out| <= capacity)
    ensures ok ==> d <= capacity && Coding(out[..d], head, Push(e, entry.paDepth, entry.code), word', len')
  {
    word' := BitOr(ShiftLeft(word, entry.paDepth), entry.code);
    ok, d, len' := Drain(out, start, capacity, word', len + entry.paDepth);
  }

  lemma {:induction false} FeedGrows(table: seq<Data>, syms: seq<byte>, i: nat)
    requires i <= |syms| && forall j :: 0 <= j < |syms| ==> syms[j] < |table|
    ensures |Feed(table, syms[..i]).out| <= |Feed(table, syms).out|
  {
    if i < |syms| {
      FeedGrows(table, syms[..|syms| - 1], i);
      assert syms[..|syms| - 1][..i] == syms[..i];
    } else {
      assert syms[..i] == syms;
    }
  }

  lemma FeedSnoc(table: seq<Data>, syms: seq<byte>, i: nat)
    requires i < |syms| && forall j :: 0 <= j < |syms| ==> syms[j] < |table|
    ensures Feed(table, syms[..i + 1])
      == Push(Feed(table, syms[..i]), table[syms[i]].paDepth, table[syms[i]].code)
  {
    assert syms[..i + 1][..i] == syms[..i];
  }

  /** One more symbol: what is stored, or that the whole stream cannot fit. */
  method EncodeNext(
    out: array<byte>, start: nat, capacity: nat, table: array<Data>, v: byte, word: nat, len: nat,
    ghost head: seq<byte>, ghost syms: seq<byte>, ghost i: nat)
    returns (ok: bool, d: nat, word': nat, len': nat)
    requires start <= capacity <= out.Length && i < |syms| && v == syms[i]
    requires forall j :: 0 <= j < |syms| ==> syms[j] < table.Length
    requires Coding(out[..start], head, Feed(table[..], syms[..i]), word, len)
    modifies out
    ensures out[capacity..] == old(out[capacity..])
    ensures !ok ==> |head| + |Feed(table[..], syms).out| > capacity
    ensures ok ==> d <= capacity && Coding(out[..d], head, Feed(table[..], syms[..i + 1]), word', len')
  {
    FeedSnoc(table[..], syms, i);
    FeedGrows(table[..], syms, i + 1);
    ok, d, word', len' := EncodeSymbol(out, start, capacity, table[v], word, len, head, Feed(table[..], syms[..i]));
  }

  lemma {:induction false} SymbolAt(data: seq<byte>, i: nat, bitSize: nat)
    requires i < |data|
    ensures bitSize != 4 ==> Symbols(data, bitSize)[i] == data[i]
    ensures bitSize == 4 ==>
      && Symbols(data, bitSize)[2 * i] == data[i] % 16 && Symbols(data, bitSize)[2 * i + 1] == data[i] / 16
    decreases |data|
  {
    if bitSize == 4 && i < |data| - 1 {
      SymbolAt(data[..|data| - 1], i, bitSize);
    }
  }

  /** The number of symbols that the first `i` bytes make. */
  function SymbolCount(i: nat, bitSize: nat): nat { if bitSize == 4 then 2 * i else i }

  /** The symbols of one byte. */
  method EncodeByte(
    out: array<byte>, start: nat, capacity: nat, table: array<Data>, bitSize: nat, v: byte, word: nat, len: nat,
    ghost head: seq<byte>, ghost syms: seq<byte>, ghost n: nat)
    returns (ok: bool, d: nat, word': nat, len': nat)
    requires start <= capacity <= out.Length && (bitSize == 4 || bitSize == 8)
    requires n + SymbolCount(1, bitSize) <= |syms| && forall j :: 0 <= j < |syms| ==> syms[j] < table.Length
    requires if bitSize == 4 then syms[n] == v % 16 && syms[n + 1] == v / 16 else syms[n] == v
    requires Coding(out[..start], head, Feed(table[..], syms[..n]), word, len)
    modifies out
    ensures out[capacity..] == old(out[capacity..])
    ensures !ok ==> |head| + |Feed(table[..], syms).out| > capacity
    ensures ok ==>
      && d <= capacity
      && Coding(out[..d], head, Feed(table[..], syms[..n + SymbolCount(1, bitSize)]), word', len')
  {
    if bitSize == 8 {
      ok, d, word', len' := EncodeNext(out, start, capacity, table, v, word, len, head, syms, n);
    } else {
      ok, d, word', len' := EncodeNext(out, start, capacity, table, v % 16, word, len, head, syms, n);
      if ok {
        ok, d, word', len' := EncodeNext(out, d, capacity, table, v / 16 % 16, word', len', head, syms, n + 1);
      }
    }
  }

  /** The loop over the data. */
  method EncodeData(
    out: array<byte>, start: nat, capacity: nat, table: array<Data>, data: seq<byte>, bitSize: nat,
    ghost head: seq<byte>)
    returns (ok: bool, d: nat, word: nat, len: nat)
    requires start <= capacity <= out.Length && (bitSize == 4 || bitSize == 8)
    requires table.Length == 2 * DataNum(bitSize) && out[..start] == head
    modifies out
    ensures forall j :: 0 <= j < |Symbols(data, bitSize)| ==> Symbols(data, bitSize)[j] < table.Length
    ensures out[capacity..] == old(out[capacity..])
    ensures !ok ==> |head| + |Feed(table[..], Symbols(data, bitSize)).out| > capacity
    ensures ok ==> d <= capacity && Coding(out[..d], head, Feed(table[..], Symbols(data, bitSize)), word, len)
  {
    ghost var syms := Symbols(data, bitSize);
    SymbolsInTable(data, bitSize);
    ok, d, word, len := true, start, 0, 0;
    for i := 0 to |data|
      invariant d <= capacity && SymbolCount(i, bitSize) <= |syms|
      invariant Coding(out[..d], head, Feed(table[..], syms[..SymbolCount(i, bitSize)]), word, len)
      invariant out[capacity..] == old(out[capacity..])
    {
      SymbolAt(data, i, bitSize);
      ok, d, word, len :=
        EncodeByte(out, d, capacity, table, bitSize, data[i], word, len, head, syms, SymbolCount(i, bitSize));
      if !ok {
        return;
      }
    }
    assert syms[..|syms|] == syms;
  }

  // ----- Closing the stream -----

  /** Stores the last digits. */
  method StoreLast(out: array<byte>, start: nat, capacity: nat, word: nat, len: nat) returns (ok: bool, d: nat)
    requires start <= capacity <= out.Length && len < 8
    modifies out
    ensures out[capacity..] == old(out[capacity..])
    ensures ok == (start + |LastByte(word, len)| <= capacity)
    ensures ok ==> d <= capacity && out[..d] == old(out[..start]) + LastByte(word, len)
  {
    ok, d := true, start;
    if len != 0 {
      if capacity - d < 1 {
        return false, d;
      }
      out[d] := Shl(word, 8 - len) % 256;
      d := d + 1;
    }
  }

  /** Reverses one word in place. */
  method SwapWord(out: array<byte>, i: nat, ghost w: seq<byte>)
    requires i + 4 <= out.Length && w == out[i..i + 4]
    modifies out
    ensures out[..i + 4] == old(out[..i]) + Rev(w)
    ensures out[i + 4..] == old(out[i + 4..])
  {
    out[i], out[i + 1], out[i + 2], out[i + 3] := out[i + 3], out[i + 2], out[i + 1], out[i];
  }

  lemma SwapStep(done: seq<byte>, w: seq<byte>, rest: seq<byte>)
    requires |w| == 4
    ensures done + Rev(w) + SwapWords(rest) == done + SwapWords(w + rest)
  {
    SwapFirst(w, rest);
    assert done + Rev(w) + SwapWords(rest) == done + (Rev(w) + SwapWords(rest));
  }

  lemma SliceWord(a: seq<byte>, i: nat, end: nat)
    requires i + 4 <= end <= |a|
    ensures a[i..end] == a[i..i + 4] + a[i + 4..end]
  {
  }

  /** Reverses the bytes of each word of the stream, in place. */
  method SwapInPlace(out: array<byte>, start: nat, end: nat)
    requires start <= end <= out.Length && (end - start) % 4 == 0
    modifies out
    ensures out[..end] == old(out[..start]) + SwapWords(old(out[start..end]))
    ensures out[end..] == old(out[end..])
  {
    ghost var target := out[..start] + SwapWords(out[start..end]);
    var i := start;
    while i < end
      invariant start <= i <= end && (end - i) % 4 == 0
      invariant out[..i] + SwapWords(out[i..end]) == target
      invariant out[end..] == old(out[end..])
    {
      assert i + 4 <= end;
      ghost var done, w, rest := out[..i], out[i..i + 4], out[i + 4..end];
      SliceWord(out[..], i, end);
      SwapStep(done, w, rest);
      SwapWord(out, i, w);
      assert out[i + 4..end] == rest;
      assert out[end..] == old(out[end..]);
      i := i + 4;
    }
    assert SwapWords(out[end..end]) == [];
  }

  lemma PadAfter(head: seq<byte>, s: seq<byte>)
    requires |head| % 4 == 0
    ensures PadTo(head + s, 4) == head + PadTo(s, 4)
  {
    AlignAfter(|head|, |s|);
  }

  lemma AlignAfter(h: nat, n: nat)
    requires h % 4 == 0
    ensures Align(h + n, 4) == h + Align(n, 4)
  {
  }

  lemma SwappedLength(s: seq<byte>)
    requires |s| % 4 == 0
    ensures |SwapWords(s)| == |s|
  {
  }

  /** The end of compress: last byte, padding to words, swapping, padding to `align`. */
  method FinishStream(
    out: array<byte>, start: nat, begin: nat, capacity: nat, align: nat, word: nat, len: nat,
    ghost head: seq<byte>, ghost e: Encoder)
    returns (ok: bool, size: nat)
    requires start <= capacity <= out.Length && align > 0 && begin == |head| && |head| % 4 == 0
    requires Coding(out[..start], head, e, word, len)
    modifies out
    ensures out[capacity..] == old(out[capacity..])
    ensures ok == (|PadTo(head + SwapWords(Finish(e)), align)| <= capacity)
    ensures ok ==> size <= capacity && out[..size] == PadTo(head + SwapWords(Finish(e)), align)
  {
    size := 0;
    ghost var s := e.out + LastByte(word, len);
    PadAfter(head, s);
    SwappedLength(Finish(e));
    var d: nat;
    ok, d := StoreLast(out, start, capacity, word, len);
    if !ok {
      return;
    }
    assert out[..d] == head + s;
    ok, d := PadOutput(out, d, capacity, 4);
    if !ok {
      return;
    }
    assert out[..d] == head + Finish(e);
    assert out[begin..d] == Finish(e) && out[..begin] == head;
    ghost var beyond := out[capacity..];
    SwapInPlace(out, begin, d);
    assert out[capacity..] == beyond by {
      assert out[capacity..] == out[d..][capacity - d..];
    }
    ok, size := PadOutput(out, d, capacity, align);
  }

  lemma SizeByte(top: nat)
    requires 1 <= top <= 256
    ensures (Align(top % 256, 2) % 256 + 255) % 256 == Align(top, 2) - 1
  {
    AlignTwo(top);
    if top == 256 {
      AlignBytes();
    } else {
      SmallModulus(top, 256);
      ByteBefore(Align(top, 2));
    }
  }

  lemma AlignBytes()
    ensures Align(256 % 256, 2) == 0 && Align(256, 2) == 256
  {
  }

  lemma AlignTwo(x: nat)
    requires 1 <= x <= 256
    ensures 0 < Align(x, 2) <= 256
  {
    var q := (x + 1) / 2;
    assert q <= 128 && Align(x, 2) == q * 2;
  }

  lemma ByteBefore(a: nat)
    requires 0 < a <= 256
    ensures (a % 256 + 255) % 256 == a - 1
  {
  }

  /** The tree array holds the section once its first byte holds the size. */
  lemma SectionShown(table: seq<Data>, tree: seq<byte>, c: seq<Ctrl>, s: seq<Cell>, size: nat)
    requires Shown(table, tree, c, s) && |s| <= 512 && size == Align(|s| / 2, 2) - 1
    ensures size < 256 && 2 * (size + 1) <= 512 && tree[0 := size][..2 * (size + 1)] == Section(s)
  {
    var b := Section(s);
    forall k | 1 <= k < |b| ensures k < 512 && tree[k] == b[k] {
      assert ShownAt(table, tree, c, s, k);
    }
  }

  /** Stores the tree section. */
  method WriteSection(info: Info, out: array<byte>, start: nat, capacity: nat, ghost s: seq<Cell>)
    returns (ok: bool, d: nat)
    requires start <= capacity <= out.Length && out != info.tree && info.Shows(s) && |s| <= 512
    modifies out, info`treeTop, info.tree
    ensures out[capacity..] == old(out[capacity..])
    ensures ok == (start + |Section(s)| <= capacity)
    ensures ok ==> d <= capacity && out[..d] == old(out[..start]) + Section(s)
  {
    SizeByte(|s| / 2);
    SectionShown(info.table[..], info.tree[..], info.ctrl[..], s, Align(|s| / 2, 2) - 1);
    info.treeTop := Align(info.treeTop, 2) % 256;
    info.treeTop := (info.treeTop + 255) % 256;
    info.tree[0] := info.treeTop;
    d := start;
    var n := (info.treeTop + 1) * 2;
    assert info.tree[..n] == Section(s);
    ok := capacity - d >= n;
    if ok {
      CopyTree(info.tree, n, out, start, capacity);
      d := start + n;
    }
  }

  method CopyTree(tree: array<byte>, n: nat, out: array<byte>, start: nat, ghost capacity: nat)
    requires n <= tree.Length && start + n <= capacity <= out.Length && out != tree
    modifies out
    ensures out[capacity..] == old(out[capacity..]) && out[..start + n] == old(out[..start]) + tree[..n]
  {
    for i := 0 to n
      invariant out[..start + i] == old(out[..start]) + tree[..i] && out[capacity..] == old(out[capacity..])
    {
      out[start + i] := tree[i];
      assert out[..start + i + 1] == out[..start + i] + [tree[i]];
    }
  }

  // ----- compress -----

  lemma ShortWord(n: nat, bitSize: nat)
    requires n <= 0xFFFFFF && bitSize < 16
    ensures n * 256 + 0x20 + bitSize < U32_LIMIT
  {
  }

  /** Stores the header words. */
  method WriteHeader(out: array<byte>, capacity: nat, bitSize: nat, n: nat) returns (ok: bool, d: nat)
    requires n < U32_LIMIT && bitSize < 16 && capacity <= out.Length
    modifies out
    ensures out[capacity..] == old(out[capacity..])
    ensures ok == (|Header(bitSize, n)| <= capacity)
    ensures ok ==> d <= capacity && out[..d] == Header(bitSize, n)
  {
    ok, d := false, 0;
    if 0 < n <= 0xFFFFFF {
      if capacity >= 4 {
        ShortWord(n, bitSize);
        StoreLe32(out, 0, n * 256 + 0x20 + bitSize, capacity);
        ok, d := true, 4;
      }
    } else if capacity >= 8 {
      StoreLe32(out, 0, 0x20 + bitSize, capacity);
      StoreLe32(out, 4, n, capacity);
      assert out[..8] == out[..4] + out[4..8];
      ok, d := true, 8;
    }
  }

  /** Counting, tree and layout. */
  method BuildTree(data: seq<byte>, bitSize: nat) returns (info: Info, ghost w: seq<nat>, ghost t: Tree)
    requires (bitSize == 4 || bitSize == 8) && |Symbols(data, bitSize)| < U32_LIMIT
    ensures fresh(info) && fresh(info.table) && fresh(info.tree) && fresh(info.ctrl)
    ensures info.table.Length == 2 * DataNum(bitSize) && w == Weights(Symbols(data, bitSize), DataNum(bitSize))
    ensures CodeTable(info.table[..], w, t) && Bounded(w, t)
    ensures WellShaped(Start(t)) && 2 <= |Run(Start(t))| <= 512 && info.Shows(Run(Start(t)))
  {
    var dataNum := if bitSize == 4 then 16 else 256;
    info := new Info(dataNum);
    w := Weights(Symbols(data, bitSize), dataNum);
    CountData(info.table, data, bitSize);
    SymbolsInTable(data, bitSize);
    WeightsSum(Symbols(data, bitSize), dataNum);
    var root;
    root, t := ConstructTree(info.table, dataNum, w);
    HeldRepresents(info.table[..], t, 0);
    LayoutDone(w, t);
    info.MakeHuffTree(root, t);
  }

  /** The total size needed once the stream is known. */
  lemma FileLength(bitSize: nat, data: seq<byte>, align: nat, table: seq<Data>, cells: seq<Cell>)
    requires |data| < U32_LIMIT && (bitSize == 4 || bitSize == 8) && align > 0
    requires |table| == 2 * DataNum(bitSize) && 2 <= |cells| <= 512 && |cells| % 2 == 0
    ensures forall i :: 0 <= i < |Symbols(data, bitSize)| ==> Symbols(data, bitSize)[i] < |table|
    ensures
      var head := Header(bitSize, |data|) + Section(cells);
      var e := Feed(table, Symbols(data, bitSize));
      && |head| % 4 == 0 && e.len < 8
      && File(bitSize, data, align, table, cells) == PadTo(head + SwapWords(Finish(e)), align)
      && |File(bitSize, data, align, table, cells)| >= |head| + |e.out|
  {
    SymbolsInTable(data, bitSize);
    FeedLen(table, Symbols(data, bitSize));
    SectionWords(cells);
    HeaderWords(Header(bitSize, |data|), Section(cells));
    StreamLength(Header(bitSize, |data|) + Section(cells), Feed(table, Symbols(data, bitSize)), align);
  }

  lemma HeaderWords(head: seq<byte>, section: seq<byte>)
    requires (|head| == 4 || |head| == 8) && |section| % 4 == 0
    ensures |head + section| % 4 == 0
  {
  }

  lemma StreamLength(head: seq<byte>, e: Encoder, align: nat)
    requires e.len < 8 && align > 0
    ensures |PadTo(head + SwapWords(Finish(e)), align)| >= |head| + |e.out|
  {
    SwappedLength(Finish(e));
  }

  lemma SectionWords(cells: seq<Cell>)
    requires 2 <= |cells| <= 512 && |cells| % 2 == 0
    ensures |Section(cells)| % 4 == 0
  {
    DoubleEven(Align(|cells| / 2, 2));
  }

  lemma DoubleEven(x: nat)
    requires x % 2 == 0
    ensures (2 * x) % 4 == 0
  {
  }

  /** compress: the file of a greedy code tree for the data whenever it fits, and failure means that it
      does not. `table` and `t` are the finished table and its tree. */
  method Compress(data: seq<byte>, out: array<byte>, capacity: nat, align: nat, bitSize: nat)
    returns (ok: bool, size: nat, ghost table: seq<Data>, ghost w: seq<nat>, ghost t: Tree)
    requires |data| < U32_LIMIT && (bitSize == 4 || bitSize == 8) && |Symbols(data, bitSize)| < U32_LIMIT
    requires capacity <= out.Length && align > 0
    modifies out
    ensures out[capacity..] == old(out[capacity..])
    ensures |table| == 2 * DataNum(bitSize) && w == Weights(Symbols(data, bitSize), DataNum(bitSize))
    ensures CodeTable(table, w, t) && Bounded(w, t)
    ensures WellShaped(Start(t)) && 2 <= |Run(Start(t))| <= 512 && |Run(Start(t))| % 2 == 0
    ensures ok == (|File(bitSize, data, align, table, Run(Start(t)))| <= capacity)
    ensures ok ==> size <= capacity && out[..size] == File(bitSize, data, align, table, Run(Start(t)))
  {
    size := 0;
    var info;
    info, w, t := BuildTree(data, bitSize);
    table := info.table[..];
    ghost var cells := Run(Start(t));
    FileLength(bitSize, data, align, table, cells);
    var d: nat;
    ok, d := WriteHeader(out, capacity, bitSize, |data|);
    if !ok {
      return;
    }
    ok, d := WriteSection(info, out, d, capacity, cells);
    if !ok {
      return;
    }
    var begin := d;
    ghost var head := out[..d];
    var word, len;
    ok, d, word, len := EncodeData(out, d, capacity, info.table, data, bitSize, head);
    if !ok {
      return;
    }
    ok, size := FinishStream(out, d, begin, capacity, align, word, len, head, Feed(table, Symbols(data, bitSize)));
  }
}
