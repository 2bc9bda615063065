/** The size of a Huffman file (src/huffman.cpp, GetCompressBoundSize): a buffer of the size the bound names is
    always large enough, because no code is longer than the 64 bits that the bound allows for each byte. */
module HuffmanBound {
  import opened Bytes
  import opened Bounds
  import opened HuffmanTable
  import opened HuffmanTree
  import opened HuffmanLayout
  import opened HuffmanCode
  import opened Huffman
  import HuffmanStream

  // ----- The formula -----

  /** GetCompressBoundSize, in 32-bit arithmetic as the source computes it. */
  function BoundSize(n: nat, align: nat): nat
    requires n < U32_LIMIT && 0 < align < U32_LIMIT
  {
    Rounded(HeaderSize(n) + 512 + n * 8 % U32_LIMIT, align)
  }

  /** The size before rounding that the formula stands for, in unbounded arithmetic. */
  function UnroundedBound(n: nat): nat { HeaderSize(n) + 512 + n * 8 }

  // ----- The length of the codes -----

  /** Fibonacci numbers double in two steps. */
  lemma {:induction false} FibDoubles(k: nat)
    ensures Fib(2 * k + 1) >= Shl(1, k)
  {
    if k > 0 {
      FibDoubles(k - 1);
      FibMonotone(2 * k - 1, 2 * k);
    }
  }

  /** No code of a file in memory has as many as 64 bits. */
  lemma NoLongCodes(w: seq<nat>, t: Tree, k: nat)
    requires Bounded(w, t) && Sum(w) < U32_LIMIT && k == 32
    ensures Height(t) < 2 * k
  {
    if Height(t) >= 2 * k {
      FibDoubles(k);
      Powers();
      FibMonotone(2 * k + 1, Height(t) + 2);
    }
  }

  /** What a byte costs at most: 64 bits. */
  lemma CostPerByte(data: seq<byte>, bitSize: nat, w: seq<nat>, t: Tree)
    requires |data| < U32_LIMIT && (bitSize == 4 || bitSize == 8)
    requires w == Weights(Symbols(data, bitSize), DataNum(bitSize)) && Internals(t) < |w| && Bounded(w, t)
    ensures Height(t) * |Symbols(data, bitSize)| <= 64 * |data|
  {
    if bitSize == 4 {
      HeightBelowInternals(t);
      ProductBelow(Height(t), 32, 2 * |data|);
    } else {
      SymbolsInTable(data, bitSize);
      WeightsSum(Symbols(data, bitSize), DataNum(bitSize));
      NoLongCodes(w, t, 32);
      ProductBelow(Height(t), 64, |data|);
    }
  }

  lemma ProductBelow(a: nat, b: nat, n: nat)
    requires a <= b
    ensures a * n <= b * n
  {
  }

  // ----- The length of the stream -----

  /** Draining turns every eight bits into a byte. */
  lemma PushLength(e: HuffmanStream.Encoder, depth: nat, code: nat)
    ensures var f := HuffmanStream.Push(e, depth, code); 8 * |f.out| + f.len == 8 * |e.out| + e.len + depth
  {
    HuffmanStream.Eighths(e.len + depth);
  }

  /** Feeding one more symbol. */
  lemma FeedOneMore(table: seq<Data>, syms: seq<byte>, h: nat, bits: nat)
    requires syms != [] && forall i :: 0 <= i < |syms| ==> syms[i] < |table| && table[syms[i]].paDepth <= h
    requires var e := Feed(table, syms[..|syms| - 1]); 8 * |e.out| + e.len <= bits
    ensures 8 * |Feed(table, syms).out| + Feed(table, syms).len <= bits + h
  {
    var front, v := syms[..|syms| - 1], syms[|syms| - 1];
    PushLength(Feed(table, front), table[v].paDepth, table[v].code);
  }

  lemma OneMoreTime(h: nat, n: nat)
    ensures h * (n + 1) == h * n + h
  {
  }

  /** Every symbol adds at most `h` bits. */
  lemma {:induction false} FeedBound(table: seq<Data>, syms: seq<byte>, h: nat)
    requires forall i :: 0 <= i < |syms| ==> syms[i] < |table| && table[syms[i]].paDepth <= h
    ensures 8 * |Feed(table, syms).out| + Feed(table, syms).len <= h * |syms|
  {
    if syms != [] {
      var front := syms[..|syms| - 1];
      FeedBound(table, front, h);
      FeedOneMore(table, syms, h, h * |front|);
      OneMoreTime(h, |front|);
    } else {
      assert h * |syms| == 0;
    }
  }

  /** The stream is no longer than its bits, rounded up, if they leave room for whole words. */
  lemma FinishBound(e: HuffmanStream.Encoder, n: nat)
    requires e.len < 8 && 8 * |e.out| + e.len <= 64 * n
    ensures |SwapWords(HuffmanStream.Finish(e))| <= 8 * n
  {
    var s := e.out + HuffmanStream.LastByte(e.word, e.len);
    assert |s| <= 8 * n;
    WholeWords(|s|, 8 * n);
  }

  lemma WholeWords(m: nat, n: nat)
    requires m <= n && n % 4 == 0
    ensures Align(m, 4) <= n
  {
  }

  lemma DepthBound(table: seq<Data>, w: seq<nat>, t: Tree, sym: nat)
    requires CodeTable(table, w, t) && HasLeaf(t, sym)
    ensures sym < |table| && table[sym].paDepth <= Height(t)
  {
    PathInTable(table, t, 0, [], 0, sym, |w|);
  }

  /** The tree takes at most 512 bytes. */
  lemma SectionBound(cells: seq<Cell>)
    requires 2 <= |cells| <= 512 && |cells| % 2 == 0
    ensures |Section(cells)| <= 512
  {
    AlignMonotone(|cells| / 2, 256, 2);
  }

  // ----- The bound -----

  lemma StreamBound(data: seq<byte>, bitSize: nat, table: seq<Data>, w: seq<nat>, t: Tree)
    requires |data| < U32_LIMIT && (bitSize == 4 || bitSize == 8) && |table| == 2 * DataNum(bitSize)
    requires w == Weights(Symbols(data, bitSize), DataNum(bitSize)) && CodeTable(table, w, t) && Bounded(w, t)
    ensures forall i :: 0 <= i < |Symbols(data, bitSize)| ==> Symbols(data, bitSize)[i] < |table|
    ensures |StoredStream(table, Symbols(data, bitSize))| <= 8 * |data|
  {
    var syms := Symbols(data, bitSize);
    SymbolsInTable(data, bitSize);
    DataCoded(data, bitSize, table, w, t);
    forall i | 0 <= i < |syms| ensures table[syms[i]].paDepth <= Height(t) {
      DepthBound(table, w, t, syms[i]);
    }
    FeedBound(table, syms, Height(t));
    FeedLen(table, syms);
    CostPerByte(data, bitSize, w, t);
    FinishBound(Feed(table, syms), |data|);
  }

  /** A buffer of the size the bound names is always large enough when the bound does not wrap. */
  lemma BoundSuffices(data: seq<byte>, bitSize: nat, align: nat, table: seq<Data>, w: seq<nat>, t: Tree)
    requires |data| < U32_LIMIT && (bitSize == 4 || bitSize == 8) && 0 < align && |table| == 2 * DataNum(bitSize)
    requires w == Weights(Symbols(data, bitSize), DataNum(bitSize)) && CodeTable(table, w, t) && Bounded(w, t)
    requires UnroundedBound(|data|) + align - 1 < U32_LIMIT
    ensures WellShaped(Start(t)) && 2 <= |Run(Start(t))| <= 512 && |Run(Start(t))| % 2 == 0
    ensures |File(bitSize, data, align, table, Run(Start(t)))| <= BoundSize(|data|, align)
  {
    LayoutDone(w, t);
    var cells := Run(Start(t));
    StreamBound(data, bitSize, table, w, t);
    SectionBound(cells);
    ProductWraps(|data| * 8);
    RoundedOrWrapped(UnroundedBound(|data|), HeaderSize(|data|) + 512 + |data| * 8 % U32_LIMIT, align);
    AlignMonotone(
      |Header(bitSize, |data|) + Section(cells) + StoredStream(table, Symbols(data, bitSize))|,
      UnroundedBound(|data|), align);
  }

  // ----- When it wraps -----

  /** Every symbol adds at least one bit. */
  lemma {:induction false} FeedAtLeast(table: seq<Data>, syms: seq<byte>)
    requires forall i :: 0 <= i < |syms| ==> syms[i] < |table| && table[syms[i]].paDepth >= 1
    ensures 8 * |Feed(table, syms).out| + Feed(table, syms).len >= |syms|
  {
    if syms != [] {
      var front, v := syms[..|syms| - 1], syms[|syms| - 1];
      FeedAtLeast(table, front);
      PushLength(Feed(table, front), table[v].paDepth, table[v].code);
    }
  }

  lemma FinishAtLeast(e: HuffmanStream.Encoder)
    requires e.len < 8
    ensures 8 * |SwapWords(HuffmanStream.Finish(e))| >= 8 * |e.out| + e.len
  {
    var s := e.out + HuffmanStream.LastByte(e.word, e.len);
    assert |HuffmanStream.Finish(e)| == Align(|s|, 4);
    WholeWords(|s|, |HuffmanStream.Finish(e)|);
  }

  lemma DepthAtLeast(table: seq<Data>, w: seq<nat>, t: Tree, sym: nat)
    requires CodeTable(table, w, t) && HasLeaf(t, sym)
    ensures sym < |table| && table[sym].paDepth >= 1
  {
    PathInTable(table, t, 0, [], 0, sym, |w|);
  }

  /** The stream has a bit for each symbol. */
  lemma StreamAtLeast(data: seq<byte>, bitSize: nat, table: seq<Data>, w: seq<nat>, t: Tree)
    requires |data| < U32_LIMIT && (bitSize == 4 || bitSize == 8) && |table| == 2 * DataNum(bitSize)
    requires w == Weights(Symbols(data, bitSize), DataNum(bitSize)) && CodeTable(table, w, t)
    ensures forall i :: 0 <= i < |Symbols(data, bitSize)| ==> Symbols(data, bitSize)[i] < |table|
    ensures 8 * |StoredStream(table, Symbols(data, bitSize))| >= |data|
  {
    var syms := Symbols(data, bitSize);
    SymbolsInTable(data, bitSize);
    DataCoded(data, bitSize, table, w, t);
    forall i | 0 <= i < |syms| ensures table[syms[i]].paDepth >= 1 {
      DepthAtLeast(table, w, t, syms[i]);
    }
    FeedAtLeast(table, syms);
    FeedLen(table, syms);
    FinishAtLeast(Feed(table, syms));
  }

  /** There are sizes for which a sum that wraps is too small whatever the data: half a gigabyte. */
  lemma BoundWraps(data: seq<byte>, bitSize: nat, table: seq<Data>, w: seq<nat>, t: Tree)
    requires |data| == 0x2000_0000 && (bitSize == 4 || bitSize == 8) && |table| == 2 * DataNum(bitSize)
    requires w == Weights(Symbols(data, bitSize), DataNum(bitSize)) && CodeTable(table, w, t)
    ensures WellShaped(Start(t)) && 2 <= |Run(Start(t))| <= 512 && |Run(Start(t))| % 2 == 0
    ensures BoundSize(|data|, 1) == 520 < |File(bitSize, data, 1, table, Run(Start(t)))|
  {
    LayoutDone(w, t);
    StreamAtLeast(data, bitSize, table, w, t);
    assert BoundSize(|data|, 1) == 520;
  }

  lemma FinishAtMost(e: HuffmanStream.Encoder, m: nat)
    requires e.len < 8 && 8 * |e.out| + e.len <= 8 * m
    ensures |SwapWords(HuffmanStream.Finish(e))| <= Align(m, 4)
  {
    var s := e.out + HuffmanStream.LastByte(e.word, e.len);
    assert |s| <= m;
    AlignMonotone(|s|, m, 4);
  }

  /** Half-byte codes have at most 15 bits. */
  lemma HalfByteStream(data: seq<byte>, bitSize: nat, table: seq<Data>, w: seq<nat>, t: Tree, m: nat)
    requires |data| < U32_LIMIT && bitSize == 4 && |table| == 2 * DataNum(bitSize) && 30 * |data| <= 8 * m
    requires w == Weights(Symbols(data, bitSize), DataNum(bitSize)) && CodeTable(table, w, t)
    ensures forall i :: 0 <= i < |Symbols(data, bitSize)| ==> Symbols(data, bitSize)[i] < |table|
    ensures |StoredStream(table, Symbols(data, bitSize))| <= Align(m, 4)
  {
    var syms := Symbols(data, bitSize);
    SymbolsInTable(data, bitSize);
    DataCoded(data, bitSize, table, w, t);
    HeightBelowInternals(t);
    forall i | 0 <= i < |syms| ensures table[syms[i]].paDepth <= 15 {
      DepthBound(table, w, t, syms[i]);
    }
    FeedBound(table, syms, 15);
    FeedLen(table, syms);
    FinishAtMost(Feed(table, syms), m);
  }

  lemma FileAtMost(
    data: seq<byte>, bitSize: nat, align: nat, table: seq<Data>, w: seq<nat>, t: Tree, m: nat, size: nat)
    requires |data| < U32_LIMIT && bitSize == 4 && align > 0 && |table| == 2 * DataNum(bitSize)
    requires w == Weights(Symbols(data, bitSize), DataNum(bitSize)) && CodeTable(table, w, t)
    requires 30 * |data| <= 8 * m && size == 520 + Align(m, 4)
    ensures WellShaped(Start(t)) && 2 <= |Run(Start(t))| <= 512 && |Run(Start(t))| % 2 == 0
    ensures |File(bitSize, data, align, table, Run(Start(t)))| <= Align(size, align)
  {
    LayoutDone(w, t);
    var cells := Run(Start(t));
    HalfByteStream(data, bitSize, table, w, t, m);
    SectionBound(cells);
    AlignMonotone(
      |Header(bitSize, |data|) + Section(cells) + StoredStream(table, Symbols(data, bitSize))|, size, align);
  }

  lemma HarmlessNumbers(n: nat, align: nat, m: nat)
    requires n == 1073741624 && align == 4 && m == 4026531092
    ensures 30 * n <= 8 * m && Align(m, 4) == m && Align(520 + m, align) == 520 + m
    ensures UnroundedBound(n) + align - 1 >= U32_LIMIT && BoundSize(n, align) == 4294966216
  {
  }

  /** There are others for which it does no harm, whatever the data, since no file is nearly as long as the formula
      says: that the sum wraps is not the exact condition here. */
  lemma WrapCanBeHarmless(data: seq<byte>, bitSize: nat, align: nat, table: seq<Data>, w: seq<nat>, t: Tree)
    requires |data| == 1073741624 && bitSize == 4 && align == 4 && |table| == 2 * DataNum(bitSize)
    requires w == Weights(Symbols(data, bitSize), DataNum(bitSize)) && CodeTable(table, w, t)
    ensures UnroundedBound(|data|) + align - 1 >= U32_LIMIT
    ensures WellShaped(Start(t)) && 2 <= |Run(Start(t))| <= 512 && |Run(Start(t))| % 2 == 0
    ensures |File(bitSize, data, align, table, Run(Start(t)))| <= BoundSize(|data|, align)
  {
    var m := 4026531092;
    HarmlessNumbers(|data|, align, m);
    FileAtMost(data, bitSize, align, table, w, t, m, 520 + m);
  }
}
