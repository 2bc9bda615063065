/** Uncompress over buffers (src/huffman.cpp): bits are taken from the top of 32-bit words, symbols are
    gathered into 32-bit words from the top down. */
module HuffmanDecoder {
  import opened Bytes
  import opened Output
  import opened HuffmanTable
  import opened HuffmanCode
  import opened HuffmanStream
  import opened Huffman

  // ----- Gathering symbols into words -----

  /** The number whose digits of `bitSize` bits, least significant first, are `s`. */
  function Value(s: seq<byte>, bitSize: nat): nat {
    if s == [] then 0 else Value(s[..|s| - 1], bitSize) + Shl(s[|s| - 1], bitSize * (|s| - 1))
  }

  lemma {:induction false} ShrShr(x: nat, a: nat, b: nat)
    ensures Shr(Shr(x, a), b) == Shr(x, a + b)
  {
    if a > 0 {
      ShrShr(x / 2, a - 1, b);
    }
  }

  lemma {:induction false} ShrSum(v: nat, y: nat, a: nat, m: nat)
    requires m <= a
    ensures Shr(Shl(v, a) + y, m) == Shl(v, a - m) + Shr(y, m)
  {
    if m > 0 {
      assert (Shl(v, a) + y) / 2 == Shl(v, a - 1) + y / 2;
      ShrSum(v, y / 2, a - 1, m - 1);
    }
  }

  lemma {:induction false} ShrBound(x: nat, a: nat, b: nat)
    requires x < Shl(1, a + b)
    ensures Shr(x, a) < Shl(1, b)
    decreases a
  {
    if a > 0 {
      ShrBound(x / 2, a - 1, b);
    }
  }

  /** A symbol shifted in from the top. */
  function Gather(word: nat, v: byte, bitSize: nat): nat
    requires bitSize <= 32
  {
    BitOr(Shl(v, 32 - bitSize) % U32_LIMIT, Shr(word, bitSize))
  }

  lemma TopDigit(v: byte, bitSize: nat)
    requires bitSize == 4 || bitSize == 8
    ensures Shl(v, 32 - bitSize) % U32_LIMIT == Shl(SymbolOf(v, bitSize), 32 - bitSize)
    ensures SymbolOf(v, bitSize) < Shl(1, bitSize)
  {
    Powers();
    assert Shl(1, 4) == 16;
    var s, k := SymbolOf(v, bitSize), 32 - bitSize;
    ShlIsProduct(v, k);
    ShlIsProduct(s, k);
    ShlBelow(s, bitSize, k);
    if bitSize == 4 {
      ShlIsProduct(16, k);
      assert Shl(1, 28) * 16 == U32_LIMIT;
      DivModUnique(Shl(v, k), v / 16, Shl(s, k), U32_LIMIT);
    } else {
      SmallModulus(Shl(v, k), U32_LIMIT);
    }
  }

  /** Gathering keeps the symbols taken since the last full word in the upper digits. */
  lemma GatherValue(word: nat, s: seq<byte>, v: byte, bitSize: nat)
    requires (bitSize == 4 || bitSize == 8) && word < U32_LIMIT && bitSize * (|s| + 1) <= 32
    requires Shr(word, 32 - bitSize * |s|) == Value(s, bitSize)
    ensures Gather(word, v, bitSize) < U32_LIMIT
    ensures
      Shr(Gather(word, v, bitSize), 32 - bitSize * (|s| + 1)) == Value(s + [SymbolOf(v, bitSize)], bitSize)
  {
    var u, k, m: nat := SymbolOf(v, bitSize), 32 - bitSize, 32 - bitSize * (|s| + 1);
    GatherSum(word, v, bitSize, k);
    ShrSum(u, Shr(word, bitSize), k, m);
    ShrShr(word, bitSize, m);
    assert (s + [u])[..|s|] == s;
  }

  lemma GatherSum(word: nat, v: byte, bitSize: nat, k: nat)
    requires (bitSize == 4 || bitSize == 8) && word < U32_LIMIT && k == 32 - bitSize
    ensures Gather(word, v, bitSize) == Shl(SymbolOf(v, bitSize), k) + Shr(word, bitSize) < U32_LIMIT
    ensures Shr(word, bitSize) < Shl(1, k)
  {
    var u := SymbolOf(v, bitSize);
    TopDigit(v, bitSize);
    Powers();
    ShrBound(word, bitSize, k);
    OrIsSum(u, k, Shr(word, bitSize));
    ShlBelow(u, bitSize, k);
    GatherBound(u, k, bitSize, Shr(word, bitSize));
  }

  lemma GatherBound(u: nat, k: nat, b: nat, y: nat)
    requires u < Shl(1, b) && y < Shl(1, k)
    ensures Shl(u, k) + y < Shl(1, b + k)
  {
    ShlIsProduct(u, k);
    ShlIsProduct(u + 1, k);
    ShlLe(u + 1, b, k);
  }

  lemma {:induction false} ShlLe(v: nat, a: nat, b: nat)
    requires v <= Shl(1, a)
    ensures Shl(v, b) <= Shl(1, a + b)
  {
    if b > 0 {
      ShlLe(v, a, b - 1);
    }
  }

  ghost predicate InRange(s: seq<byte>, bitSize: nat) {
    forall i :: 0 <= i < |s| ==> SymbolOf(s[i], bitSize) == s[i]
  }

  lemma {:induction false} AssembledLength(s: seq<byte>, bitSize: nat)
    ensures |Assembled(s, bitSize)| == if bitSize == 4 then |s| / 2 else |s|
  {
    if bitSize == 4 && |s| >= 2 {
      AssembledLength(s[..|s| - 2], bitSize);
    }
  }

  lemma PairValue(lo: nat, hi: nat, k: nat)
    ensures Shl(lo, k) + Shl(hi, k + 4) == Shl(lo + hi * 16, k)
  {
    ShlAdd(lo, 16 * hi, k);
    ShlIsProduct(hi, k + 4);
    ShlIsProduct(16 * hi, k);
    ShlIsProduct(16, k);
    FourMore(k);
    assert hi * (16 * Shl(1, k)) == 16 * hi * Shl(1, k);
  }

  lemma FourMore(k: nat)
    ensures Shl(1, k + 4) == 16 * Shl(1, k)
  {
    assert Shl(1, k + 2) == 4 * Shl(1, k);
  }

  lemma ValueSnoc(s: seq<byte>, v: byte, bitSize: nat)
    ensures Value(s + [v], bitSize) == Value(s, bitSize) + Shl(v, bitSize * |s|)
  {
    assert (s + [v])[..|s|] == s;
  }

  lemma AssembledSnoc(s: seq<byte>, lo: byte, hi: byte, bitSize: nat)
    requires bitSize == 4 && lo < 16 && hi < 16
    ensures Assembled(s + [lo] + [hi], bitSize) == Assembled(s, bitSize) + [lo as int + hi as int * 16]
  {
    var t := s + [lo] + [hi];
    assert t[..|t| - 2] == s && t[|t| - 2] == lo && t[|t| - 1] == hi;
  }

  lemma EightFour(n: nat, m: nat)
    requires m % 2 == 0 && n == m / 2
    ensures 8 * n == 4 * m
  {
  }

  lemma NibblePair(front: seq<byte>, lo: byte, hi: byte)
    requires |front| % 2 == 0 && lo < 16 && hi < 16 && Value(front, 4) == Value(Assembled(front, 4), 8)
    ensures Value(front + [lo] + [hi], 4) == Value(Assembled(front + [lo] + [hi], 4), 8)
  {
    var a, v, k := Assembled(front, 4), lo as int + hi as int * 16, 4 * |front|;
    AssembledLength(front, 4);
    EightFour(|a|, |front|);
    PairValue(lo, hi, k);
    NibbleValues(front, lo, hi, k);
    ValueSnoc(a, v, 8);
    AssembledSnoc(front, lo, hi, 4);
  }

  lemma NibbleValues(front: seq<byte>, lo: byte, hi: byte, k: nat)
    requires k == 4 * |front|
    ensures Value(front + [lo] + [hi], 4) == Value(front, 4) + (Shl(lo, k) + Shl(hi, k + 4))
  {
    ValueSnoc(front, lo, 4);
    ValueSnoc(front + [lo], hi, 4);
  }

  /** Half-byte symbols and the bytes they make stand for the same number. */
  lemma {:induction false} NibbleValue(s: seq<byte>)
    requires |s| % 2 == 0 && InRange(s, 4)
    ensures Value(s, 4) == Value(Assembled(s, 4), 8)
    decreases |s|
  {
    if s != [] {
      var m := |s| - 2;
      var front, lo, hi := s[..m], s[m], s[m + 1];
      assert SymbolOf(lo, 4) == lo && SymbolOf(hi, 4) == hi;
      NibbleValue(front);
      NibblePair(front, lo, hi);
      assert s == front + [lo] + [hi];
    }
  }

  /** Up to four bytes as the number they stand for, stored as a word. */
  lemma ByteValue(s: seq<byte>, x: nat)
    requires |s| <= 4 && x == Value(s, 8)
    ensures x < U32_LIMIT && Le32(x) == s + Zeros(4 - |s|)
  {
    var a, b, c, d := ValueOfWord(s);
    WordDigits(x, a, b, c, d);
  }

  lemma ValueOfWord(s: seq<byte>) returns (a: byte, b: byte, c: byte, d: byte)
    requires |s| <= 4
    ensures s + Zeros(4 - |s|) == [a, b, c, d]
    ensures Value(s, 8) == a as int + b as int * 256 + c as int * 0x10000 + d as int * 0x100_0000
  {
    var p := s + Zeros(4 - |s|);
    a, b, c, d := p[0], p[1], p[2], p[3];
    ByteShifts();
    assert Value(s[..0], 8) == 0;
    for i := 0 to |s|
      invariant Value(s[..i], 8)
        == (if i > 0 then s[0] as int else 0) + (if i > 1 then s[1] as int * 256 else 0)
        + (if i > 2 then s[2] as int * 0x10000 else 0) + if i > 3 then s[3] as int * 0x100_0000 else 0
    {
      ValueSnoc(s[..i], s[i], 8);
      assert s[..i + 1] == s[..i] + [s[i]];
      ShlIsProduct(s[i], 8 * i);
      assert 8 * i == 0 || 8 * i == 8 || 8 * i == 16 || 8 * i == 24;
    }
    assert s[..|s|] == s;
  }

  lemma ByteShifts()
    ensures Shl(1, 8) == 256 && Shl(1, 16) == 0x10000 && Shl(1, 24) == 0x100_0000
  {
    assert Shl(1, 8) == 256;
    assert Shl(1, 16) == 0x10000;
  }

  lemma DivTwice(x: nat)
    ensures x / 0x10000 == x / 256 / 256
  {
  }

  lemma WordDigits(x: nat, a: byte, b: byte, c: byte, d: byte)
    requires x == a as int + b as int * 256 + c as int * 0x10000 + d as int * 0x100_0000
    ensures x < U32_LIMIT && Le32(x) == [a, b, c, d]
  {
    var q1: nat := b as int + c as int * 256 + d as int * 0x10000;
    var q2: nat := c as int + d as int * 256;
    DivModUnique(x, q1, a, 256);
    DivModUnique(q1, q2, b, 256);
    DivModUnique(q2, d, c, 256);
    DivTwice(x);
    DivTwice(q1);
    DivThrice(x);
  }

  lemma DivThrice(x: nat)
    ensures x / 0x100_0000 == x / 256 / 0x10000
  {
  }

  lemma {:induction false} AssembledConcat(a: seq<byte>, b: seq<byte>, bitSize: nat)
    requires bitSize == 4 ==> |a| % 2 == 0 && |b| % 2 == 0
    ensures Assembled(a + b, bitSize) == Assembled(a, bitSize) + Assembled(b, bitSize)
    decreases |b|
  {
    if bitSize == 4 {
      if b == [] {
        assert a + b == a;
      } else {
        var m := |b| - 2;
        AssembledConcat(a, b[..m], bitSize);
        assert (a + b)[..|a + b| - 2] == a + b[..m];
        var x := (b[m] as int % 16) + (b[m + 1] as int % 16) * 16;
        assert Assembled(a, 4) + (Assembled(b[..m], 4) + [x]) == Assembled(a, 4) + Assembled(b[..m], 4) + [x];
      }
    }
  }

  /** The symbols that `n` bytes hold. */
  function Count(n: nat, bitSize: nat): nat { if bitSize == 4 then 2 * n else n }

  /** The buffer holds the bytes of `done`, and the word the symbols `held` in its upper digits. */
  ghost predicate Gathered(
    buf: seq<byte>, word: nat, count: nat, done: seq<byte>, held: seq<byte>, bitSize: nat)
  {
    && (bitSize == 4 || bitSize == 8) && |held| == count && bitSize * count <= 32
    && |done| == Count(|buf|, bitSize) && buf == Assembled(done, bitSize)
    && word < U32_LIMIT && InRange(held, bitSize) && Shr(word, 32 - bitSize * count) == Value(held, bitSize)
  }

  /** The word that is stored: the held symbols as bytes, and zeros. */
  lemma StoredWordIs(buf: seq<byte>, word: nat, count: nat, done: seq<byte>, held: seq<byte>, bitSize: nat, x: nat)
    requires Gathered(buf, word, count, done, held, bitSize) && x == Shr(word, 32 - bitSize * count)
    requires bitSize == 4 ==> count % 2 == 0
    ensures
      var a := Assembled(held, bitSize);
      && x < U32_LIMIT && |a| <= 4 && count == Count(|a|, bitSize) && Le32(x) == a + Zeros(4 - |a|)
      && buf + a == Assembled(done + held, bitSize)
  {
    AssembledLength(held, bitSize);
    AssembledConcat(done, held, bitSize);
    var a := Assembled(held, bitSize);
    if bitSize == 4 {
      NibbleValue(held);
    }
    ByteValue(a, x);
  }

  /** Stores the word. */
  method FlushWord(
    out: array<byte>, pos: nat, x: nat, ghost buf: seq<byte>, ghost a: seq<byte>)
    requires pos + 4 <= out.Length && |a| <= 4 && buf == out[..pos] && x < U32_LIMIT && Le32(x) == a + Zeros(4 - |a|)
    modifies out
    ensures out[..pos + |a|] == buf + a
    ensures out[pos + 4..] == old(out[pos + 4..])
  {
    StoreLe32(out, pos, x, pos + 4);
    assert out[..pos + 4] == out[..pos] + out[pos..pos + 4];
  }

  /** The output while `size` bytes are being decoded: before the end, the word still has room and data are
      missing; afterwards the first `size` bytes are what all the symbols make. */
  ghost predicate Dest(
    out: seq<byte>, size: nat, pos: nat, word: nat, count: nat, done: seq<byte>, held: seq<byte>, bitSize: nat)
  {
    if pos < size then
      && pos <= |out| && pos % 4 == 0 && Gathered(out[..pos], word, count, done, held, bitSize)
      && bitSize * count < 32 && count < Count(size - pos, bitSize)
    else
      && size <= |out| && held == [] && |done| == Count(size, bitSize) && out[..size] == Assembled(done, bitSize)
  }

  lemma GatherStep(buf: seq<byte>, word: nat, v: byte, count: nat, done: seq<byte>, held: seq<byte>, bitSize: nat)
    requires Gathered(buf, word, count, done, held, bitSize) && bitSize * count < 32
    ensures Gathered(
      buf, Gather(word, v, bitSize), count + 1, done, held + [SymbolOf(v, bitSize)], bitSize)
  {
    assert bitSize * (count + 1) <= 32;
    GatherValue(word, held, v, bitSize);
  }

  /** When the word is due: it is full, or the data end in it. */
  lemma DueWhen(size: nat, pos: nat, count: nat, bitSize: nat, dataNum: nat)
    requires (bitSize == 4 && dataNum == 8) || (bitSize == 8 && dataNum == 4)
    requires pos < size && 0 < count <= dataNum && count <= Count(size - pos, bitSize)
    ensures (size - pos <= count * bitSize / 8) == (count == Count(size - pos, bitSize))
    ensures (dataNum - count) * bitSize == 32 - bitSize * count
    ensures (count == dataNum) == (bitSize * count == 32)
    ensures bitSize == 4 && (count == dataNum || count == Count(size - pos, bitSize)) ==> count % 2 == 0
  {
    if bitSize == 4 {
      HalfBytes(size - pos, count);
    }
  }

  lemma HalfBytes(n: nat, count: nat)
    requires count <= 2 * n
    ensures (n <= count * 4 / 8) == (count == 2 * n)
  {
    assert count * 4 / 8 == count / 2;
  }

  lemma WordFits(pos: nat, size: nat)
    requires pos < size && pos % 4 == 0
    ensures pos + 4 <= Align(size, 4)
  {
  }

  lemma DestFlushed(
    out: seq<byte>, size: nat, pos: nat, word: nat, buf: seq<byte>, a: seq<byte>, k: nat, done: seq<byte>, bitSize: nat)
    requires (bitSize == 4 || bitSize == 8) && pos < size <= |out| && pos % 4 == 0 && pos + 4 <= |out|
    requires word < U32_LIMIT
    requires |buf| == pos && |a| <= 4 && out[..pos + |a|] == buf + a == Assembled(done, bitSize)
    requires |done| == Count(pos, bitSize) + k && k == Count(|a|, bitSize)
    requires k <= Count(size - pos, bitSize) && (k == Count(size - pos, bitSize) || |a| == 4)
    ensures Dest(out, size, pos + 4, word, 0, done, [], bitSize)
  {
    Powers();
    ShrBound(word, 32, 0);
  }

  /** Stores the due word. */
  method StoreDue(
    out: array<byte>, size: nat, pos: nat, x: nat, bitSize: nat,
    ghost word: nat, ghost k: nat, ghost done: seq<byte>, ghost held: seq<byte>)
    requires pos < size && pos % 4 == 0 && Align(size, 4) <= out.Length
    requires Gathered(out[..pos], word, k, done, held, bitSize) && x == Shr(word, 32 - bitSize * k)
    requires bitSize == 4 ==> k % 2 == 0
    requires k <= Count(size - pos, bitSize) && (k == Count(size - pos, bitSize) || bitSize * k == 32)
    modifies out
    ensures Dest(out[..], size, pos + 4, x, 0, done + held, [], bitSize)
    ensures out[Align(size, 4)..] == old(out[Align(size, 4)..])
  {
    ghost var buf := out[..pos];
    StoredWordIs(buf, word, k, done, held, bitSize, x);
    WordFits(pos, size);
    ghost var a := Assembled(held, bitSize);
    FlushWord(out, pos, x, buf, a);
    assert out[Align(size, 4)..] == out[pos + 4..][Align(size, 4) - pos - 4..];
    DestFlushed(out[..], size, pos, x, buf, a, k, done + held, bitSize);
  }

  /** One decoded symbol. */
  method TakeSymbol(
    out: array<byte>, size: nat, pos: nat, word: nat, count: nat, v: byte, bitSize: nat,
    ghost done: seq<byte>, ghost held: seq<byte>)
    returns (pos': nat, word': nat, count': nat, ghost done': seq<byte>, ghost held': seq<byte>)
    requires pos < size && Dest(out[..], size, pos, word, count, done, held, bitSize)
    requires Align(size, 4) <= out.Length
    modifies out
    ensures Dest(out[..], size, pos', word', count', done', held', bitSize)
    ensures done' + held' == done + held + [SymbolOf(v, bitSize)]
    ensures out[Align(size, 4)..] == old(out[Align(size, 4)..])
  {
    var dataNum := 4 + bitSize % 8;
    GatherStep(out[..pos], word, v, count, done, held, bitSize);
    pos', word', count' := pos, Gather(word, v, bitSize), count + 1;
    done', held' := done, held + [SymbolOf(v, bitSize)];
    ghost var all := done' + held';
    DueWhen(size, pos, count', bitSize, dataNum);
    if size - pos <= count' * bitSize / 8 {
      word' := Shr(word', (dataNum - count') * bitSize);
      count' := dataNum;
    }
    if count' == dataNum {
      StoreDue(out, size, pos, word', bitSize, Gather(word, v, bitSize), count + 1, done', held');
      pos' := pos + 4;
      count' := 0;
      done' := done' + held';
      held' := [];
    }
    assert done' + held' == all;
  }

  // ----- Taking bits -----

  /** The decoder stands at a node of the byte tree, and what is still to come completes `syms`. */
  ghost predicate Decoding(
    b: seq<byte>, k: nat, u: Tree, bits: seq<bool>, syms: seq<byte>, need: nat, bitSize: nat,
    total: Option<seq<byte>>)
  {
    && |b| > 1 && u.Node? && Realises(b, k, u)
    && total == Prepend(syms, DecodeSymbols(b, k, bits, need, bitSize))
  }

  lemma PrependTwice(a: seq<byte>, v: byte, r: Option<seq<byte>>)
    ensures Prepend(a, Prepend([v], r)) == Prepend(a + [v], r)
  {
    if r.Some? {
      assert a + ([v] + r.value) == a + [v] + r.value;
    }
  }

  /** One bit: to a leaf, which yields its symbol and returns to the root, or to an internal node. */
  lemma DecodeStep(
    b: seq<byte>, k: nat, u: Tree, t: Tree, bit: bool, more: seq<bool>, syms: seq<byte>, need: nat, bitSize: nat,
    total: Option<seq<byte>>)
    requires need > 0 && t.Node? && Realises(b, 1, t)
    requires Decoding(b, k, u, [bit] + more, syms, need, bitSize, total)
    ensures
      var next, v := NextByte(b, k, bit), if bit then u.right else u.left;
      && next < |b| && (if bit then RightIsLeaf(b[k]) else LeftIsLeaf(b[k])) == v.Leaf?
      && if v.Leaf?
         then Decoding(b, 1, t, more, syms + [SymbolOf(b[next], bitSize)], need - 1, bitSize, total)
         else Decoding(b, next, v, more, syms, need, bitSize, total)
  {
    var next := NextByte(b, k, bit);
    assert next == 2 * PairOf(b, k) + if bit then 1 else 0;
    var bits := [bit] + more;
    assert bits[0] == bit && bits[1..] == more;
    PrependTwice(syms, SymbolOf(b[next], bitSize), DecodeSymbols(b, 1, more, need - 1, bitSize));
  }

  /** The top bit of the word, and the word without it. */
  lemma TopBit(q: seq<bool>)
    requires |q| == 32
    ensures Shr(Bits(q), 31) % 2 == 1 <==> q[0]
    ensures ShiftLeft(Bits(q), 1) == Bits(q[1..] + [false])
  {
    BitsPrefix(q, 1);
    assert q[..1] == [q[0]];
    assert [q[0]][..0] == [];
    assert Bits([q[0]]) == if q[0] then 1 else 0;
    ShiftIn(q, [false]);
    assert [false][..0] == [];
    assert Bits([false]) == 0;
    assert Last(q + [false], 32) == q[1..] + [false];
    OrZero(ShiftLeft(Bits(q), 1));
  }

  lemma StillNeeded(
    out: seq<byte>, size: nat, pos: nat, word: nat, count: nat, done: seq<byte>, held: seq<byte>, bitSize: nat)
    requires (bitSize == 4 || bitSize == 8) && Dest(out, size, pos, word, count, done, held, bitSize)
    ensures pos < size ==> |done + held| < Count(size, bitSize)
    ensures pos >= size ==> |done + held| == Count(size, bitSize)
  {
  }

  /** One turn of the inner loop. */
  method DecodeBit(
    b: seq<byte>, k: nat, bit: bool, out: array<byte>, size: nat, pos: nat, word: nat, count: nat, bitSize: nat,
    ghost u: Tree, ghost t: Tree, ghost more: seq<bool>, ghost done: seq<byte>, ghost held: seq<byte>,
    ghost total: Option<seq<byte>>)
    returns (
      k': nat, pos': nat, word': nat, count': nat, ghost u': Tree, ghost done': seq<byte>, ghost held': seq<byte>)
    requires (bitSize == 4 || bitSize == 8) && t.Node? && Realises(b, 1, t) && Align(size, 4) <= out.Length
    requires pos < size && Dest(out[..], size, pos, word, count, done, held, bitSize)
    requires |done + held| < Count(size, bitSize)
    requires Decoding(b, k, u, [bit] + more, done + held, Count(size, bitSize) - |done + held|, bitSize, total)
    modifies out
    ensures out[Align(size, 4)..] == old(out[Align(size, 4)..])
    ensures Dest(out[..], size, pos', word', count', done', held', bitSize)
    ensures |done' + held'| <= Count(size, bitSize)
    ensures Decoding(b, k', u', more, done' + held', Count(size, bitSize) - |done' + held'|, bitSize, total)
  {
    ghost var syms := done + held;
    DecodeStep(b, k, u, t, bit, more, syms, Count(size, bitSize) - |syms|, bitSize, total);
    var leaf := if bit then b[k] / 64 % 2 == 1 else b[k] >= 128;
    k' := k / 2 * 2 + (b[k] as int % 64 + 1) * 2 + if bit then 1 else 0;
    pos', word', count', u', done', held' := pos, word, count, if bit then u.right else u.left, done, held;
    if leaf {
      pos', word', count', done', held' := TakeSymbol(out, size, pos, word, count, b[k'], bitSize, done, held);
      k', u' := 1, t;
      assert |done' + held'| == |syms| + 1;
    }
  }

  /** The digits of a stored word. */
  lemma WordBits(w: seq<byte>)
    requires |w| == 4
    ensures Bits(Unpacked(Rev(w))) == FromLe32(w)
  {
    assert Rev(w) == [w[3]] + [w[2]] + [w[1]] + [w[0]];
    UnpackedConcat([w[3]] + [w[2]] + [w[1]], [w[0]]);
    UnpackedConcat([w[3]] + [w[2]], [w[1]]);
    UnpackedConcat([w[3]], [w[2]]);
    ByteDigits(w[0]);
    ByteDigits(w[1]);
    ByteDigits(w[2]);
    ByteDigits(w[3]);
    JoinDigits(Unpacked([w[3]]), Unpacked([w[2]]));
    JoinDigits(Unpacked([w[3]]) + Unpacked([w[2]]), Unpacked([w[1]]));
    JoinDigits(Unpacked([w[3]]) + Unpacked([w[2]]) + Unpacked([w[1]]), Unpacked([w[0]]));
  }

  lemma JoinDigits(a: seq<bool>, b: seq<bool>)
    requires |b| == 8
    ensures Bits(a + b) == 256 * Bits(a) + Bits(b)
  {
    BitsConcat(a, b);
    ShlIsProduct(Bits(a), 8);
    Powers();
  }

  lemma ByteDigits(v: byte)
    ensures |Unpacked([v])| == 8 && Bits(Unpacked([v])) == v
  {
    UnpackedOne(v);
    var b := ByteBits(v);
    TopDigits(v, 8);
    assert b[..8] == b;
  }

  lemma {:induction false} TopDigits(v: byte, i: nat)
    requires i <= 8
    ensures Bits(ByteBits(v)[..i]) == Shr(v, 8 - i)
  {
    var b := ByteBits(v);
    if i == 0 {
      ByteShiftsOut(v);
    } else {
      TopDigits(v, i - 1);
      assert b[..i][..i - 1] == b[..i - 1];
      ShrShr(v, 8 - i, 1);
    }
  }

  lemma ByteShiftsOut(v: byte)
    ensures Shr(v, 8) == 0
  {
    Powers();
    ShrBound(v, 8, 0);
  }

  /** Between two words: the data are complete, or the decoder is ready for more bits. */
  ghost predicate Underway(
    b: seq<byte>, k: nat, u: Tree, bits: seq<bool>, out: seq<byte>, size: nat, pos: nat, word: nat, count: nat,
    done: seq<byte>, held: seq<byte>, bitSize: nat, total: Option<seq<byte>>)
  {
    && (bitSize == 4 || bitSize == 8) && Dest(out, size, pos, word, count, done, held, bitSize)
    && |done + held| <= Count(size, bitSize)
    && if pos < size then Decoding(b, k, u, bits, done + held, Count(size, bitSize) - |done + held|, bitSize, total)
       else total == Some(done)
  }

  /** The inner loop: one word of the stream, or as much of it as the data need. */
  method DecodeWord(
    b: seq<byte>, k: nat, w: seq<byte>, out: array<byte>, size: nat, pos: nat, word: nat, count: nat, bitSize: nat,
    ghost u: Tree, ghost t: Tree, ghost rest: seq<bool>, ghost done: seq<byte>, ghost held: seq<byte>,
    ghost total: Option<seq<byte>>)
    returns (
      k': nat, pos': nat, word': nat, count': nat, ghost u': Tree, ghost done': seq<byte>, ghost held': seq<byte>)
    requires (bitSize == 4 || bitSize == 8) && t.Node? && Realises(b, 1, t) && Align(size, 4) <= out.Length
    requires |w| == 4 && pos < size && Dest(out[..], size, pos, word, count, done, held, bitSize)
    requires |done + held| <= Count(size, bitSize)
    requires Decoding(
      b, k, u, Unpacked(Rev(w)) + rest, done + held, Count(size, bitSize) - |done + held|, bitSize, total)
    modifies out
    ensures out[Align(size, 4)..] == old(out[Align(size, 4)..])
    ensures Underway(b, k', u', rest, out[..], size, pos', word', count', done', held', bitSize, total)
  {
    k', pos', word', count', u', done', held' := k, pos, word, count, u, done, held;
    WordBits(w);
    ghost var rem := Unpacked(Rev(w));
    var x := FromLe32(w);
    ghost var q := rem;
    assert |rem| == 32;
    for i := 0 to 32
      invariant |rem| == 32 - i && |q| == 32 && rem <= q && x == Bits(q)
      invariant pos' < size && Dest(out[..], size, pos', word', count', done', held', bitSize)
      invariant |done' + held'| <= Count(size, bitSize)
      invariant Decoding(
        b, k', u', rem + rest, done' + held', Count(size, bitSize) - |done' + held'|, bitSize, total)
      invariant out[Align(size, 4)..] == old(out[Align(size, 4)..])
    {
      TopBit(q);
      var bit := Shr(x, 31) % 2 == 1;
      ghost var more := rem[1..] + rest;
      assert rem + rest == [bit] + more;
      StillNeeded(out[..], size, pos', word', count', done', held', bitSize);
      k', pos', word', count', u', done', held' :=
        DecodeBit(b, k', bit, out, size, pos', word', count', bitSize, u', t, more, done', held', total);
      if pos' >= size {
        Finished(out[..], size, pos', word', count', done', held', b, k', u', more, bitSize, total);
        return;
      }
      x := ShiftLeft(x, 1);
      q := q[1..] + [false];
      rem := rem[1..];
    }
    assert rem + rest == rest;
  }

  lemma Finished(
    out: seq<byte>, size: nat, pos: nat, word: nat, count: nat, done: seq<byte>, held: seq<byte>,
    b: seq<byte>, k: nat, u: Tree, more: seq<bool>, bitSize: nat, total: Option<seq<byte>>)
    requires (bitSize == 4 || bitSize == 8) && pos >= size && Dest(out, size, pos, word, count, done, held, bitSize)
    requires |done + held| <= Count(size, bitSize)
    requires Decoding(b, k, u, more, done + held, Count(size, bitSize) - |done + held|, bitSize, total)
    ensures total == Some(done)
  {
    assert done + held == done;
    assert done + [] == done;
  }

  /** The outer loop: words are taken from `src` on until the data are complete. */
  method DecodeWords(b: seq<byte>, src: nat, out: array<byte>, size: nat, bitSize: nat, ghost t: Tree)
    returns (ok: bool)
    requires (bitSize == 4 || bitSize == 8) && t.Node? && Realises(b, 1, t) && Align(size, 4) <= out.Length
    requires src <= |b| && |b| > 1
    modifies out
    ensures out[Align(size, 4)..] == old(out[Align(size, 4)..])
    ensures
      var total := DecodeSymbols(b, 1, StoredBits(b[src..]), Count(size, bitSize), bitSize);
      ok == total.Some? && (ok ==> out[..size] == Assembled(total.value, bitSize))
  {
    ghost var total := DecodeSymbols(b, 1, StoredBits(b[src..]), Count(size, bitSize), bitSize);
    var k: nat, pos: nat, word: nat, count: nat, at: nat := 1, 0, 0, 0, src;
    ghost var u, done: seq<byte>, held: seq<byte> := t, [], [];
    StartDest(out[..], size, bitSize);
    StartDecoding(b, t, StoredBits(b[src..]), Count(size, bitSize), bitSize, total);
    while pos < size
      invariant at <= |b|
      invariant Underway(b, k, u, StoredBits(b[at..]), out[..], size, pos, word, count, done, held, bitSize, total)
      invariant out[Align(size, 4)..] == old(out[Align(size, 4)..])
      decreases |b| - at
    {
      if |b| - at < 4 {
        StillNeeded(out[..], size, pos, word, count, done, held, bitSize);
        return false;
      }
      WordAt(b, at);
      k, pos, word, count, u, done, held :=
        DecodeWord(b, k, b[at..at + 4], out, size, pos, word, count, bitSize, u, t, StoredBits(b[at + 4..]),
                   done, held, total);
      at := at + 4;
    }
    return true;
  }

  lemma WordAt(b: seq<byte>, at: nat)
    requires at + 4 <= |b|
    ensures b[at..][..4] == b[at..at + 4] && b[at..][4..] == b[at + 4..]
  {
  }

  lemma StartDest(out: seq<byte>, size: nat, bitSize: nat)
    requires (bitSize == 4 || bitSize == 8) && size <= |out|
    ensures Dest(out, size, 0, 0, 0, [], [], bitSize)
  {
    Powers();
    ShrBound(0, 32, 0);
  }

  lemma StartDecoding(b: seq<byte>, t: Tree, bits: seq<bool>, need: nat, bitSize: nat, total: Option<seq<byte>>)
    requires |b| > 1 && t.Node? && Realises(b, 1, t) && total == DecodeSymbols(b, 1, bits, need, bitSize)
    ensures Decoding(b, 1, t, bits, [], need, bitSize, total) && (need == 0 ==> total == Some([]))
  {
    if total.Some? {
      assert [] + total.value == total.value;
    }
  }

  /** The header checks. */
  method ReadHeader(c: seq<byte>) returns (ok: bool, info: FileInfo)
    ensures ok == ParseHeader(c).Some? && (ok ==> ParseHeader(c) == Some(info))
  {
    info := FileInfo(0, 0, 0);
    ok := |c| > 4 && c[0] / 16 == 2 && (c[0] % 16 == 4 || c[0] % 16 == 8);
    if ok {
      info := FileInfo(c[0] % 16, FromLe32(c[..4]) / 256, 4);
      ok := info.size != 0 || |c| > 8;
      if ok && info.size == 0 {
        info := FileInfo(info.bitSize, FromLe32(c[4..8]), 8);
      }
    }
  }

  lemma CountIs(size: nat, bitSize: nat)
    requires bitSize == 4 || bitSize == 8
    ensures Count(size, bitSize) == size * 8 / bitSize
  {
  }

  /** Uncompress, into a buffer with room for `capacity` bytes rounded up to a whole word. The tree section is
      required to describe a tree, since the decoder follows its offsets without looking. */
  method Uncompress(c: seq<byte>, out: array<byte>, capacity: nat, ghost t: Tree) returns (ok: bool, size: nat)
    requires Align(capacity, 4) <= out.Length
    requires ParseHeader(c).Some? ==> Linked(c, t)
    modifies out
    ensures out[Align(capacity, 4)..] == old(out[Align(capacity, 4)..])
    ensures ok == Decompressed(c, capacity).Some?
    ensures ok ==> size <= capacity && Decompressed(c, capacity) == Some(out[..size])
  {
    size := 0;
    var info;
    ok, info := ReadHeader(c);
    if !ok {
      return;
    }
    var b := c[info.at..];
    var treeSize := (b[0] as int + 1) * 2;
    ok := capacity >= info.size && treeSize <= |b|;
    if ok {
      ok := VerifyHuffmanTable(b, info.bitSize);
    }
    if !ok {
      return;
    }
    size := info.size;
    CountIs(size, info.bitSize);
    AlignMonotone(size, capacity, 4);
    ok := DecodeWords(b, treeSize, out, size, info.bitSize, t);
    assert out[Align(capacity, 4)..] == out[Align(size, 4)..][Align(capacity, 4) - Align(size, 4)..];
  }
}
