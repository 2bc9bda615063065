/** Huffman files (src/huffman.cpp): what a file means, and that decoding one gives the data back. */
module Huffman {
  import opened Bytes
  import opened Bounds
  import opened HuffmanTable
  import opened HuffmanTree
  import opened HuffmanLayout
  import opened HuffmanFits
  import opened HuffmanCode
  import opened HuffmanLoss
  import opened FileForm
  import HuffmanStream

  // ----- Symbols -----

  /** The symbols of a byte string: its bytes, or the two halves of each byte, the low one first. */
  function Symbols(data: seq<byte>, bitSize: nat): (s: seq<byte>)
    ensures |s| == if bitSize == 4 then 2 * |data| else |data|
  {
    if bitSize != 4 then data
    else if data == [] then []
    else Symbols(data[..|data| - 1], bitSize) + [data[|data| - 1] % 16, data[|data| - 1] / 16]
  }

  /** Byte `i` is stored as its low half and then its high half. */
  lemma {:induction false} HalvesInOrder(data: seq<byte>, i: nat)
    requires i < |data|
    ensures data[i] == 16 * Symbols(data, 4)[2 * i + 1] as int + Symbols(data, 4)[2 * i] as int
    ensures Symbols(data, 4)[2 * i] < 16
  {
    if i < |data| - 1 {
      HalvesInOrder(data[..|data| - 1], i);
    }
  }

  /** The bytes that the decoder assembles from symbols. */
  function Assembled(syms: seq<byte>, bitSize: nat): seq<byte> {
    if bitSize != 4 then syms
    else if |syms| < 2 then []
    else Assembled(syms[..|syms| - 2], bitSize) + [(syms[|syms| - 2] as int % 16) + (syms[|syms| - 1] as int % 16) * 16]
  }

  lemma {:induction false} AssembledSymbols(data: seq<byte>, bitSize: nat)
    ensures Assembled(Symbols(data, bitSize), bitSize) == data
  {
    if bitSize == 4 && data != [] {
      var front, d := data[..|data| - 1], data[|data| - 1];
      AssembledSymbols(front, bitSize);
      AssembledPair(Symbols(front, bitSize), d);
      assert data == front + [d];
    }
  }

  lemma AssembledPair(s: seq<byte>, d: byte)
    ensures Assembled(s + [d % 16, d / 16], 4) == Assembled(s, 4) + [d]
  {
    assert (s + [d % 16, d / 16])[..|s|] == s;
  }

  lemma {:induction false} SymbolsSmall(data: seq<byte>, i: nat)
    requires i < 2 * |data|
    ensures Symbols(data, 4)[i] < 16
  {
    if i < 2 * |data| - 2 {
      SymbolsSmall(data[..|data| - 1], i);
    }
  }

  /** How often symbol `v` occurs. */
  function Occurrences(syms: seq<byte>, v: nat): nat {
    if syms == [] then 0
    else Occurrences(syms[..|syms| - 1], v) + if syms[|syms| - 1] == v then 1 else 0
  }

  function Weights(syms: seq<byte>, dataNum: nat): (w: seq<nat>)
    ensures |w| == dataNum
  {
    seq(dataNum, v requires 0 <= v < dataNum => Occurrences(syms, v))
  }

  lemma {:induction false} OccurringIsCounted(syms: seq<byte>, i: nat)
    requires i < |syms|
    ensures Occurrences(syms, syms[i]) > 0
  {
    if i < |syms| - 1 {
      OccurringIsCounted(syms[..|syms| - 1], i);
    }
  }

  lemma {:induction false} SumBump(w: seq<nat>, u: seq<nat>, v: nat)
    requires |w| == |u| && v < |w| && u[v] == w[v] + 1 && forall i :: 0 <= i < |w| && i != v ==> u[i] == w[i]
    ensures Sum(u) == Sum(w) + 1
  {
    if v < |w| - 1 {
      SumBump(w[..|w| - 1], u[..|u| - 1], v);
    } else {
      assert u[..|u| - 1] == w[..|w| - 1];
    }
  }

  lemma {:induction false} SumOfZeros(w: seq<nat>)
    requires forall i :: 0 <= i < |w| ==> w[i] == 0
    ensures Sum(w) == 0
  {
    if w != [] {
      SumOfZeros(w[..|w| - 1]);
    }
  }

  /** The weights add up to the number of symbols. */
  lemma {:induction false} WeightsSum(syms: seq<byte>, dataNum: nat)
    requires forall i :: 0 <= i < |syms| ==> syms[i] < dataNum
    ensures Sum(Weights(syms, dataNum)) == |syms|
  {
    if syms == [] {
      SumOfZeros(Weights(syms, dataNum));
    } else {
      var front := syms[..|syms| - 1];
      WeightsSum(front, dataNum);
      SumBump(Weights(front, dataNum), Weights(syms, dataNum), syms[|syms| - 1]);
    }
  }

  // ----- Words -----

  /** Every word of four bytes read backwards. */
  function SwapWords(s: seq<byte>): (r: seq<byte>)
    ensures |r| == |s| / 4 * 4
  {
    if |s| < 4 then [] else Rev(s[..4]) + SwapWords(s[4..])
  }

  /** Byte `j` of a word becomes byte `3 - j`. */
  lemma {:induction false} SwappedAt(s: seq<byte>, q: nat, j: nat)
    requires j < 4 && 4 * q + 4 <= |s|
    ensures 4 * q + j < |SwapWords(s)| && SwapWords(s)[4 * q + j] == s[4 * q + 3 - j]
  {
    if q > 0 {
      SwappedAt(s[4..], q - 1, j);
    }
  }

  /** The digits that the decoder takes from stored words. */
  function StoredBits(s: seq<byte>): seq<bool> {
    if |s| < 4 then [] else HuffmanStream.Unpacked(Rev(s[..4])) + StoredBits(s[4..])
  }

  lemma SwapFirst(w: seq<byte>, rest: seq<byte>)
    requires |w| == 4
    ensures SwapWords(w + rest) == Rev(w) + SwapWords(rest)
  {
    assert (w + rest)[..4] == w && (w + rest)[4..] == rest;
  }

  lemma StoredFirst(w: seq<byte>, rest: seq<byte>)
    requires |w| == 4
    ensures StoredBits(Rev(w) + rest) == HuffmanStream.Unpacked(w) + StoredBits(rest)
  {
    assert (Rev(w) + rest)[..4] == Rev(w) && (Rev(w) + rest)[4..] == rest;
    assert Rev(Rev(w)) == w;
  }

  lemma {:induction false} StoredBitsOfSwapped(s: seq<byte>, tail: seq<byte>)
    requires |s| % 4 == 0
    ensures StoredBits(SwapWords(s) + tail) == HuffmanStream.Unpacked(s) + StoredBits(tail)
    decreases |s|, 0
  {
    if |s| < 4 {
      assert s == [] && SwapWords(s) + tail == tail;
    } else {
      StoredWord(s[..4], s[4..], tail);
      assert s[..4] + s[4..] == s;
    }
  }

  lemma StoredWord(w: seq<byte>, rest: seq<byte>, tail: seq<byte>)
    requires |w| == 4 && |rest| % 4 == 0
    ensures StoredBits(SwapWords(w + rest) + tail) == HuffmanStream.Unpacked(w + rest) + StoredBits(tail)
    decreases |rest|, 1
  {
    StoredBitsOfSwapped(rest, tail);
    SwapFirst(w, rest);
    assert Rev(w) + SwapWords(rest) + tail == Rev(w) + (SwapWords(rest) + tail);
    StoredFirst(w, SwapWords(rest) + tail);
    HuffmanStream.UnpackedConcat(w, rest);
  }

  // ----- The file -----

  /** The encoder after a run of symbols. */
  function Feed(table: seq<Data>, syms: seq<byte>): HuffmanStream.Encoder
    requires forall i :: 0 <= i < |syms| ==> syms[i] < |table|
  {
    if syms == [] then HuffmanStream.Encoder(0, 0, [])
    else
      var d := table[syms[|syms| - 1]];
      HuffmanStream.Push(Feed(table, syms[..|syms| - 1]), d.paDepth, d.code)
  }

  lemma FeedLen(table: seq<Data>, syms: seq<byte>)
    requires forall i :: 0 <= i < |syms| ==> syms[i] < |table|
    ensures Feed(table, syms).len < 8
  {
  }

  function Header(bitSize: nat, n: nat): (s: seq<byte>)
    requires n < U32_LIMIT && bitSize < 16
    ensures |s| == HeaderSize(n)
  {
    SizeHeader(0x20 + bitSize, n)
  }

  function DataNum(bitSize: nat): nat { if bitSize == 4 then 16 else 256 }

  /** compress: the header, the laid-out tree, and the stream as swapped words, padded to `align`. */
  function File(bitSize: nat, data: seq<byte>, align: nat, table: seq<Data>, cells: seq<Cell>): (f: seq<byte>)
    requires |data| < U32_LIMIT && (bitSize == 4 || bitSize == 8) && align > 0
    requires |table| == 2 * DataNum(bitSize) && 2 <= |cells| <= 512 && |cells| % 2 == 0
  {
    SymbolsInTable(data, bitSize);
    PadTo(Header(bitSize, |data|) + Section(cells) + StoredStream(table, Symbols(data, bitSize)), align)
  }

  /** A file begins with the tag 0x20, the number of bits of a symbol and the size; the tree follows, and the stream;
      it is padded with zeros. */
  lemma FileFormed(bitSize: nat, data: seq<byte>, align: nat, table: seq<Data>, cells: seq<Cell>)
    requires |data| < U32_LIMIT && (bitSize == 4 || bitSize == 8) && align > 0
    requires |table| == 2 * DataNum(bitSize) && 2 <= |cells| <= 512 && |cells| % 2 == 0
    requires forall i :: 0 <= i < |Symbols(data, bitSize)| ==> Symbols(data, bitSize)[i] < |table|
    ensures
      var c, head := File(bitSize, data, align, table, cells), if 0 < |data| <= 0xFF_FFFF then 4 else 8;
      var body := Section(cells) + StoredStream(table, Symbols(data, bitSize));
      && TaggedSize(c, 0x20 + bitSize, |data|) && |c| >= head && ZeroPadded(c, c[..head] + body, align)
  {
    var head, body := Header(bitSize, |data|), Section(cells) + StoredStream(table, Symbols(data, bitSize));
    var c, s := File(bitSize, data, align, table, cells), head + body;
    Associate(head, Section(cells), StoredStream(table, Symbols(data, bitSize)));
    PadsWithZeros(s, align);
    SizeHeaderStands(0x20 + bitSize, |data|, body);
    PrefixTagged(s, c, 0x20 + bitSize, |data|);
    assert c[..|head|] == s[..|head|] == head;
  }

  function StoredStream(table: seq<Data>, syms: seq<byte>): seq<byte>
    requires forall i :: 0 <= i < |syms| ==> syms[i] < |table|
  {
    FeedLen(table, syms);
    SwapWords(HuffmanStream.Finish(Feed(table, syms)))
  }

  lemma SymbolsInTable(data: seq<byte>, bitSize: nat)
    ensures forall i :: 0 <= i < |Symbols(data, bitSize)| ==> Symbols(data, bitSize)[i] < DataNum(bitSize)
  {
    if bitSize == 4 {
      forall i | 0 <= i < 2 * |data| ensures Symbols(data, bitSize)[i] < 16 {
        SymbolsSmall(data, i);
      }
    }
  }

  datatype FileInfo = FileInfo(bitSize: nat, size: nat, at: nat)

  /** The header checks of Uncompress: the kind, the size, and where the tree begins. */
  function ParseHeader(c: seq<byte>): (r: Option<FileInfo>)
    ensures r.Some? ==> r.value.at < |c| && (r.value.bitSize == 4 || r.value.bitSize == 8) && r.value.size < U32_LIMIT
  {
    if |c| > 4 && c[0] / 16 == 2 && (c[0] % 16 == 4 || c[0] % 16 == 8) then
      var size := FromLe32(c[..4]) / 256;
      if size != 0 then Some(FileInfo(c[0] % 16, size, 4))
      else if |c| > 8 then Some(FileInfo(c[0] % 16, FromLe32(c[4..8]), 8))
      else None
    else None
  }

  /** Uncompress, given `capacity` bytes of room. */
  function Decompressed(c: seq<byte>, capacity: nat): Option<seq<byte>> {
    match ParseHeader(c)
    case None => None
    case Some(info) =>
      var b := c[info.at..];
      var treeSize := SectionSize(b);
      if capacity < info.size || treeSize > |b| || !Accepts(b, info.bitSize) then None
      else
        match DecodeSymbols(b, 1, StoredBits(b[treeSize..]), info.size * 8 / info.bitSize, info.bitSize)
        case None => None
        case Some(syms) => Some(Assembled(syms, info.bitSize))
  }

  /** The header is valid and the section after it links the bytes of `t`. */
  predicate Linked(c: seq<byte>, t: Tree) {
    ParseHeader(c).Some? && t.Node? && Realises(c[ParseHeader(c).value.at..], 1, t)
  }

  // ----- The round trip -----

  /** Feeding symbols stores their codes, except for digits pushed out of the word. */
  lemma {:induction false} FeedStores(table: seq<Data>, w: seq<nat>, t: Tree, syms: seq<byte>)
    returns (front: seq<bool>, tail: seq<bool>, older: seq<bool>)
    requires CodeTable(table, w, t) && Height(t) < 32
    requires forall i :: 0 <= i < |syms| ==> syms[i] < |table| && HasLeaf(t, syms[i])
    ensures HuffmanStream.Encodes(Feed(table, syms), front, tail, older)
    ensures front + tail == Stored(t, syms, |w|) && |tail| < 8
  {
    if syms == [] {
      return [], [], [];
    }
    var rest := syms[..|syms| - 1];
    front, tail, older := FeedStores(table, w, t, rest);
    var p := FeedMore(table, w, t, syms, rest);
    front, tail, older := StoreMore(Feed(table, rest), front, tail, older, p);
  }

  lemma FeedMore(table: seq<Data>, w: seq<nat>, t: Tree, syms: seq<byte>, rest: seq<byte>) returns (p: seq<bool>)
    requires CodeTable(table, w, t) && Height(t) < 32
    requires forall i :: 0 <= i < |syms| ==> syms[i] < |table| && HasLeaf(t, syms[i])
    requires syms != [] && rest == syms[..|syms| - 1]
    ensures Feed(table, syms) == HuffmanStream.Push(Feed(table, rest), |p|, Bits(p)) && |p| < 32
    ensures Stored(t, syms, |w|) == Squeezed(Stored(t, rest, |w|), |p|) + p
  {
    var v := syms[|syms| - 1];
    p := Path(t, v, |w|);
    CodeInTable(table, w, t, v);
  }

  lemma StoreMore(
    e: HuffmanStream.Encoder, front: seq<bool>, tail: seq<bool>, older: seq<bool>, p: seq<bool>)
    returns (front': seq<bool>, tail': seq<bool>, older': seq<bool>)
    requires HuffmanStream.Encodes(e, front, tail, older) && |tail| < 8 && |p| < 32
    ensures HuffmanStream.Encodes(HuffmanStream.Push(e, |p|, Bits(p)), front', tail', older') && |tail'| < 8
    ensures front' + tail' == Squeezed(front + tail, |p|) + p
  {
    SqueezedParts(front, tail, |p|);
    front', tail', older' := HuffmanStream.PushStores(e, front, tail, older, p);
  }

  /** The digits of a file start with those stored for its symbols. */
  lemma StoredCodes(table: seq<Data>, w: seq<nat>, t: Tree, syms: seq<byte>, tail: seq<byte>) returns (rest: seq<bool>)
    requires CodeTable(table, w, t) && Height(t) < 32
    requires forall i :: 0 <= i < |syms| ==> syms[i] < |table| && HasLeaf(t, syms[i])
    ensures StoredBits(StoredStream(table, syms) + tail) == Stored(t, syms, |w|) + rest
  {
    var e := Feed(table, syms);
    FeedLen(table, syms);
    var front, held, older := FeedStores(table, w, t, syms);
    var fill := HuffmanStream.FinishUnpacks(e, front, held, older);
    rest := StoredRest(HuffmanStream.Finish(e), Stored(t, syms, |w|), fill, tail);
  }

  lemma StoredRest(stream: seq<byte>, codes: seq<bool>, fill: seq<bool>, tail: seq<byte>) returns (rest: seq<bool>)
    requires |stream| % 4 == 0 && HuffmanStream.Unpacked(stream) == codes + fill
    ensures StoredBits(SwapWords(stream) + tail) == codes + rest
  {
    StoredBitsOfSwapped(stream, tail);
    rest := fill + StoredBits(tail);
    assert codes + fill + StoredBits(tail) == codes + rest;
  }

  lemma {:induction false} RealisesPrefix(b: seq<byte>, b': seq<byte>, k: nat, t: Tree)
    requires Realises(b, k, t) && b <= b'
    ensures Realises(b', k, t)
    decreases t
  {
    if t.Node? {
      RealisesPrefix(b, b', 2 * PairOf(b, k), t.left);
      RealisesPrefix(b, b', 2 * PairOf(b, k) + 1, t.right);
    }
  }

  lemma HeaderParses(bitSize: nat, n: nat, rest: seq<byte>)
    requires n < U32_LIMIT && (bitSize == 4 || bitSize == 8) && |rest| > 0
    ensures ParseHeader(Header(bitSize, n) + rest) == Some(FileInfo(bitSize, n, |Header(bitSize, n)|))
  {
    var c := Header(bitSize, n) + rest;
    if 0 < n <= 0xFFFFFF {
      var x := n * 256 + 0x20 + bitSize;
      assert c[..4] == Le32(x);
      Le32RoundTrip(x);
      KindByte(n, bitSize);
    } else {
      var x := 0x20 + bitSize;
      assert c[..4] == Le32(x) && c[4..8] == Le32(n);
      Le32RoundTrip(x);
      Le32RoundTrip(n);
      KindByte(0, bitSize);
    }
  }

  lemma KindByte(n: nat, bitSize: nat)
    requires bitSize == 4 || bitSize == 8
    ensures var x := n * 256 + 0x20 + bitSize;
      x / 256 == n && x % 256 == 0x20 + bitSize && x % 256 / 16 == 2 && x % 256 % 16 == bitSize
  {
  }

  /** What the layout of an exact tree gives the decoder. */
  lemma SectionReady(w: seq<nat>, t: Tree, cells: seq<Cell>, b: seq<byte>, bitSize: nat)
    requires t.Node? && Numbered(t, |w|) && |w| == DataNum(bitSize) && Done(cells, t) && Section(cells) <= b
    requires |cells| <= 2 * |w|
    ensures SectionSize(b) == |Section(cells)| <= |b| && Accepts(b, bitSize) && Realises(b, 1, t)
  {
    LayoutScans(cells, t, b, 1);
    LayoutAccepted(cells, t, b, bitSize);
    LayoutRealises(cells, t, 1, |w|);
    RealisesPrefix(Section(cells), b, 1, t);
  }

  /** What File's layout is for a finished table. */
  lemma LayoutDone(w: seq<nat>, t: Tree)
    requires t.Node? && Internals(t) < |w| <= 256
    ensures WellShaped(Start(t)) && var cells := Run(Start(t));
      2 <= |cells| <= 2 * |w| && |cells| % 2 == 0 && (Exact(cells) ==> Done(cells, t))
  {
    StartStructured(t);
    StartReaches(t);
    RunStructured(Start(t), t);
  }

  /** Decoding a section followed by the stored digits gives the data exactly if they are the codes. */
  lemma DecodeBody(
    data: seq<byte>, w: seq<nat>, t: Tree, b: seq<byte>, rest: seq<bool>, bitSize: nat)
    requires (bitSize == 4 || bitSize == 8) && |w| == DataNum(bitSize)
    requires CodeTree(t) && Numbered(t, |w|) && Internals(t) < |w| && |b| > 1 && Realises(b, 1, t)
    requires SymbolsOf(t, Symbols(data, bitSize), bitSize)
    ensures
      var r := DecodeSymbols(
        b, 1, Stored(t, Symbols(data, bitSize), |w|) + rest, |data| * 8 / bitSize, bitSize);
      (r.Some? && Assembled(r.value, bitSize) == data) <==> NothingLost(t, Symbols(data, bitSize), |w|)
  {
    var syms := Symbols(data, bitSize);
    var bits := Stored(t, syms, |w|);
    StoredIff(t, syms, |w|);
    assert |data| * 8 / bitSize == |syms|;
    if NothingLost(t, syms, |w|) {
      DecodeEncoded(b, t, syms, rest, bitSize, |w|);
      AssembledSymbols(data, bitSize);
    } else {
      LossIsBytes(w, t, syms, bitSize);
      if DecodeSymbols(b, 1, bits + rest, |syms|, bitSize) == Some(syms) {
        DecodedStands(b, t, bits + rest, syms, |syms|, bitSize, |w|);
        StoredWithin(t, syms, |w|);
        SamePrefix(bits, rest, Encoded(t, syms, |w|));
      }
    }
  }

  lemma SamePrefix(s: seq<bool>, rest: seq<bool>, e: seq<bool>)
    requires |s| == |e| && e <= s + rest
    ensures s == e
  {
    assert e == (s + rest)[..|s|] == s;
  }

  /** Digits are lost only in byte files with several symbols. */
  lemma LossIsBytes(w: seq<nat>, t: Tree, syms: seq<byte>, bitSize: nat)
    requires (bitSize == 4 || bitSize == 8) && |w| == DataNum(bitSize)
    requires CodeTree(t) && Numbered(t, |w|) && Internals(t) < |w| && !NothingLost(t, syms, |w|)
    ensures bitSize == 8 && Distinct(t)
  {
    HeightBelowInternals(t);
    if Height(t) <= 25 {
      ShortCodesFit(t, syms, |w|);
    }
  }

  /** Every symbol of the data is a leaf, and fits in `bitSize` bits. */
  lemma DataCoded(data: seq<byte>, bitSize: nat, table: seq<Data>, w: seq<nat>, t: Tree)
    requires bitSize == 4 || bitSize == 8
    requires w == Weights(Symbols(data, bitSize), DataNum(bitSize)) && CodeTable(table, w, t)
    ensures SymbolsOf(t, Symbols(data, bitSize), bitSize)
  {
    var syms := Symbols(data, bitSize);
    SymbolsInTable(data, bitSize);
    forall i | 0 <= i < |syms| ensures HasLeaf(t, syms[i]) && SymbolOf(syms[i], bitSize) == syms[i] {
      OccurringIsCounted(syms, i);
      assert w[syms[i]] == Occurrences(syms, syms[i]);
      SymbolIsLeaf(t, syms[i], |w|);
    }
  }

  /** A file is a header, a section, and a stream; nothing else matters to the decoder. */
  lemma DecompressedIs(c: seq<byte>, head: seq<byte>, b: seq<byte>, info: FileInfo, capacity: nat)
    requires c == head + b && |b| > 1 && ParseHeader(c) == Some(info) && info.at == |head| && capacity >= info.size
    requires SectionSize(b) <= |b| && Accepts(b, info.bitSize)
    ensures
      var r := DecodeSymbols(
        b, 1, StoredBits(b[SectionSize(b)..]), info.size * 8 / info.bitSize, info.bitSize);
      Decompressed(c, capacity) == if r.None? then None else Some(Assembled(r.value, info.bitSize))
  {
    assert c[|head|..] == b;
  }

  /** There is a file made with the layout of `t`, and it holds `t` for the decoder to walk. */
  ghost predicate Stands(data: seq<byte>, bitSize: nat, align: nat, table: seq<Data>, t: Tree) {
    && |data| < U32_LIMIT && (bitSize == 4 || bitSize == 8) && align > 0 && |table| == 2 * DataNum(bitSize)
    && t.Node? && WellShaped(Start(t))
    && var cells := Run(Start(t));
       && 2 <= |cells| <= 512 && |cells| % 2 == 0
       && Linked(File(bitSize, data, align, table, cells), t)
  }

  /** That file decompresses to the data. */
  ghost predicate Restores(data: seq<byte>, bitSize: nat, align: nat, table: seq<Data>, t: Tree, capacity: nat) {
    && Stands(data, bitSize, align, table, t)
    && Decompressed(File(bitSize, data, align, table, Run(Start(t))), capacity) == Some(data)
  }

  /** Exactly which files are read back, for codes of fewer than 32 bits: those in whose coding no code pushes a
      digit out of the word that is not zero. The offsets of the laid-out tree are always exact. */
  lemma RoundTripIff(
    data: seq<byte>, bitSize: nat, align: nat, table: seq<Data>, w: seq<nat>, t: Tree, capacity: nat)
    requires |data| < U32_LIMIT && (bitSize == 4 || bitSize == 8) && align > 0 && capacity >= |data|
    requires |table| == 2 * DataNum(bitSize) && w == Weights(Symbols(data, bitSize), DataNum(bitSize))
    requires CodeTable(table, w, t) && Height(t) < 32
    ensures Stands(data, bitSize, align, table, t)
    ensures Restores(data, bitSize, align, table, t, capacity) <==> NothingLost(t, Symbols(data, bitSize), |w|)
  {
    LayoutDone(w, t);
    AlwaysFits(t);
    var cells, syms := Run(Start(t)), Symbols(data, bitSize);
    DataCoded(data, bitSize, table, w, t);
    var pad := FileSplits(bitSize, data, align, table, cells);
    var head, section, stored := Header(bitSize, |data|), Section(cells), StoredStream(table, syms);
    var b := section + (stored + pad);
    var rest := StoredCodes(table, w, t, syms, pad);
    SectionReady(w, t, cells, b, bitSize);
    BodyDecodes(data, bitSize, w, t, head, section, stored + pad, rest, capacity);
  }

  /** The round trip: Uncompress gives back what was compressed whenever the codes are at most 25 bits long. */
  lemma RoundTrip(
    data: seq<byte>, bitSize: nat, align: nat, table: seq<Data>, w: seq<nat>, t: Tree, capacity: nat)
    requires |data| < U32_LIMIT && (bitSize == 4 || bitSize == 8) && align > 0 && capacity >= |data|
    requires |table| == 2 * DataNum(bitSize) && w == Weights(Symbols(data, bitSize), DataNum(bitSize))
    requires CodeTable(table, w, t) && Height(t) <= 25
    ensures Restores(data, bitSize, align, table, t, capacity)
  {
    ShortCodesFit(t, Symbols(data, bitSize), |w|);
    RoundTripIff(data, bitSize, align, table, w, t, capacity);
  }

  lemma FileSplits(bitSize: nat, data: seq<byte>, align: nat, table: seq<Data>, cells: seq<Cell>)
    returns (pad: seq<byte>)
    requires |data| < U32_LIMIT && (bitSize == 4 || bitSize == 8) && align > 0
    requires |table| == 2 * DataNum(bitSize) && 2 <= |cells| <= 512 && |cells| % 2 == 0
    ensures forall i :: 0 <= i < |Symbols(data, bitSize)| ==> Symbols(data, bitSize)[i] < |table|
    ensures File(bitSize, data, align, table, cells)
      == Header(bitSize, |data|) + (Section(cells) + (StoredStream(table, Symbols(data, bitSize)) + pad))
  {
    SymbolsInTable(data, bitSize);
    pad := PadSplits(Header(bitSize, |data|), Section(cells), StoredStream(table, Symbols(data, bitSize)), align);
  }

  lemma PadSplits(a: seq<byte>, b: seq<byte>, c: seq<byte>, align: nat) returns (pad: seq<byte>)
    requires align > 0
    ensures PadTo(a + b + c, align) == a + (b + (c + pad))
  {
    pad := PadTo(a + b + c, align)[|a + b + c|..];
    assert a + b + c + pad == a + (b + (c + pad));
  }

  lemma BodyDecodes(
    data: seq<byte>, bitSize: nat, w: seq<nat>, t: Tree,
    head: seq<byte>, section: seq<byte>, tail: seq<byte>, rest: seq<bool>, capacity: nat)
    requires |data| < U32_LIMIT && (bitSize == 4 || bitSize == 8) && capacity >= |data|
    requires head == Header(bitSize, |data|) && |section| > 1
    requires var b := section + tail; SectionSize(b) == |section| && Accepts(b, bitSize) && Realises(b, 1, t)
    requires CodeTree(t) && Numbered(t, |w|) && Internals(t) < |w| && |w| == DataNum(bitSize)
    requires SymbolsOf(t, Symbols(data, bitSize), bitSize)
    requires StoredBits(tail) == Stored(t, Symbols(data, bitSize), |w|) + rest
    ensures
      Decompressed(head + (section + tail), capacity) == Some(data) <==> NothingLost(t, Symbols(data, bitSize), |w|)
    ensures Linked(head + (section + tail), t)
  {
    var b := section + tail;
    assert b[|section|..] == tail;
    HeaderParses(bitSize, |data|, b);
    assert (head + b)[|head|..] == b;
    DecodeBody(data, w, t, b, rest, bitSize);
    DecompressedIs(head + b, head, b, FileInfo(bitSize, |data|, |head|), capacity);
  }

  /** The round trip of half-byte files, on every input: sixteen symbols never need more than 15 bits. */
  lemma NibbleRoundTrip(
    data: seq<byte>, bitSize: nat, align: nat, table: seq<Data>, w: seq<nat>, t: Tree, capacity: nat)
    requires bitSize == 4 && |data| < U32_LIMIT && align > 0 && capacity >= |data| && |table| == 2 * DataNum(bitSize)
    requires w == Weights(Symbols(data, bitSize), DataNum(bitSize)) && CodeTable(table, w, t)
    ensures Restores(data, bitSize, align, table, t, capacity)
  {
    HeightBelowInternals(t);
    RoundTrip(data, bitSize, align, table, w, t, capacity);
  }

  /** The round trip of byte files of fewer than 317811 bytes, whatever their bytes. */
  lemma ByteRoundTrip(
    data: seq<byte>, bitSize: nat, align: nat, table: seq<Data>, w: seq<nat>, t: Tree, capacity: nat)
    requires bitSize == 8 && |data| < 317811 && align > 0 && capacity >= |data| && |table| == 2 * DataNum(bitSize)
    requires w == Weights(Symbols(data, bitSize), DataNum(bitSize)) && CodeTable(table, w, t) && Bounded(w, t)
    ensures Restores(data, bitSize, align, table, t, capacity)
  {
    WeightsSum(Symbols(data, bitSize), DataNum(bitSize));
    DepthAtMost25(w, t);
    RoundTrip(data, bitSize, align, table, w, t, capacity);
  }
}
