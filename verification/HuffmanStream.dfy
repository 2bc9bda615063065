/** The bit stream of the Huffman coder (src/huffman.cpp, compress): codes are shifted into a 32-bit word
    and drained byte by byte; the stream is stored as byte-swapped words. */
module HuffmanStream {
  import opened Bytes
  import opened FlagGroups

  // ----- Digits -----

  lemma {:induction false} BitsConcat(a: seq<bool>, b: seq<bool>)
    ensures Bits(a + b) == Shl(Bits(a), |b|) + Bits(b)
  {
    if b == [] {
      assert a + b == a;
    } else {
      var c := b[..|b| - 1];
      BitsConcat(a, c);
      assert (a + b)[..|a + b| - 1] == a + c;
    }
  }

  lemma {:induction false} ShlIsProduct(x: nat, k: nat)
    ensures Shl(x, k) == x * Shl(1, k)
  {
    if k > 0 {
      ShlIsProduct(x, k - 1);
    }
  }

  /** Truncating a number keeps its last digits. */
  lemma BitsSuffix(b: seq<bool>, k: nat)
    requires k <= |b|
    ensures Shl(1, k) > 0 && Bits(b) % Shl(1, k) == Bits(b[|b| - k..])
  {
    var hi, lo := b[..|b| - k], b[|b| - k..];
    assert b == hi + lo;
    BitsConcat(hi, lo);
    ShlIsProduct(Bits(hi), k);
    BitsBound(lo);
    DivModUnique(Bits(b), Bits(hi), Bits(lo), Shl(1, k));
  }

  /** The last digits, at most `k` of them. */
  function Last<T>(b: seq<T>, k: nat): (r: seq<T>)
    ensures |r| == Min(|b|, k)
  {
    if |b| <= k then b else b[|b| - k..]
  }

  lemma SmallModulus(x: nat, m: nat)
    requires x < m
    ensures x % m == x
  {
  }

  lemma WordKeepsLast(b: seq<bool>)
    ensures Bits(b) % U32_LIMIT == Bits(Last(b, 32))
  {
    Powers();
    if |b| > 32 {
      BitsSuffix(b, 32);
    } else {
      BitsBound(b);
      ShlMonotone(|b|, 32);
      SmallModulus(Bits(b), U32_LIMIT);
    }
  }

  // ----- OR -----

  function BitOr(x: nat, y: nat): nat
    decreases x + y
  {
    if x == 0 && y == 0 then 0
    else 2 * BitOr(x / 2, y / 2) + if x % 2 == 1 || y % 2 == 1 then 1 else 0
  }

  lemma {:induction false} OrZero(x: nat)
    ensures BitOr(x, 0) == x
  {
    if x > 0 {
      OrZero(x / 2);
    }
  }

  /** Digits that do not overlap are joined by OR as by addition. */
  lemma {:induction false} OrIsSum(x: nat, d: nat, c: nat)
    requires c < Shl(1, d)
    ensures BitOr(Shl(x, d), c) == Shl(x, d) + c
  {
    if d == 0 {
      OrZero(x);
    } else {
      OrIsSum(x, d - 1, c / 2);
      var y := Shl(x, d - 1);
      assert Shl(x, d) == 2 * y;
      OrStep(y, c);
    }
  }

  lemma OrStep(y: nat, c: nat)
    ensures BitOr(2 * y, c) == 2 * BitOr(y, c / 2) + c % 2
  {
    assert 2 * y / 2 == y;
    if y == 0 && c == 0 {
      assert BitOr(0, 0) == 0;
    }
  }

  // ----- The 32-bit word -----

  /** A 32-bit left shift; the count is taken modulo 32, which matters only for codes longer than any
      the tree of fewer than Fib(34) symbols can have. */
  function ShiftLeft(x: nat, k: nat): nat { Shl(x, k % 32) % U32_LIMIT }

  function Falses(n: nat): (b: seq<bool>)
    ensures |b| == n && forall i :: 0 <= i < n ==> !b[i]
  {
    seq(n, _ => false)
  }

  lemma {:induction false} BitsOfFalses(n: nat)
    ensures Bits(Falses(n)) == 0
  {
    if n > 0 {
      BitsOfFalses(n - 1);
      assert Falses(n)[..n - 1] == Falses(n - 1);
    }
  }

  lemma Shifted(q: seq<bool>, d: nat)
    requires d < 32 && |q| <= 32
    ensures ShiftLeft(Bits(q), d) == Shl(Bits(Last(q, 32 - d)), d)
  {
    SmallModulus(d, 32);
    var r, z := Last(q, 32 - d), Falses(d);
    BitsOfFalses(d);
    BitsConcat(q, z);
    WordKeepsLast(q + z);
    assert Last(q + z, 32) == r + z;
    BitsConcat(r, z);
  }

  /** Shifting a code in appends its digits and drops the oldest beyond 32. */
  lemma ShiftIn(q: seq<bool>, code: seq<bool>)
    requires |code| < 32 && |q| <= 32
    ensures BitOr(ShiftLeft(Bits(q), |code|), Bits(code)) == Bits(Last(q + code, 32))
  {
    var d := |code|;
    var r := Last(q, 32 - d);
    Shifted(q, d);
    BitsBound(code);
    OrIsSum(Bits(r), d, Bits(code));
    BitsConcat(r, code);
    LastJoin(q, code, d);
  }

  lemma LastJoin(q: seq<bool>, code: seq<bool>, d: nat)
    requires d == |code| < 32
    ensures Last(q + code, 32) == Last(q, 32 - d) + code
  {
  }

  // ----- Bytes as digits -----

  function ByteBits(v: byte): (b: seq<bool>)
    ensures |b| == 8
  {
    seq(8, i requires 0 <= i < 8 => BitSet(v, i))
  }

  /** The digits of the bytes, most significant first. */
  function Unpacked(s: seq<byte>): (b: seq<bool>)
    ensures |b| == 8 * |s|
  {
    if s == [] then [] else Unpacked(s[..|s| - 1]) + ByteBits(s[|s| - 1])
  }

  lemma {:induction false} UnpackedConcat(s: seq<byte>, u: seq<byte>)
    ensures Unpacked(s + u) == Unpacked(s) + Unpacked(u)
  {
    if u == [] {
      assert s + u == s;
    } else {
      var v := u[..|u| - 1];
      UnpackedConcat(s, v);
      assert (s + u)[..|s + u| - 1] == s + v;
    }
  }

  lemma ByteOfBits(b: seq<bool>)
    requires |b| == 8
    ensures Bits(b) < 256 && ByteBits(Bits(b)) == b
  {
    BitsBound(b);
    Powers();
    forall i | 0 <= i < 8 ensures BitSet(Bits(b), i) == b[i] {
      BitOfBits(b, i);
    }
    assert ByteBits(Bits(b)) == b;
  }

  lemma UnpackedOne(v: byte)
    ensures Unpacked([v]) == ByteBits(v)
  {
    assert Unpacked([v]) == Unpacked([]) + ByteBits(v);
  }

  /** The byte drained from above the last `m` digits. */
  function Drained(word: nat, m: nat): byte { Shr(word, m) % 256 }

  lemma DrainedBits(h: seq<bool>, b: seq<bool>, rest: seq<bool>)
    requires |b| == 8
    ensures ByteBits(Drained(Bits(h + b + rest), |rest|)) == b
  {
    var q := h + b + rest;
    BitsPrefix(q, |h| + 8);
    assert q[..|h| + 8] == h + b;
    LowByte(h, b);
    ByteOfBits(b);
  }

  // ----- The encoder -----

  /** The word, how many of its digits are still to be drained, and the bytes already drained. */
  datatype Encoder = Encoder(word: nat, len: nat, out: seq<byte>)

  /** The first `k` whole bytes of the last `len` digits of the word. */
  function Flush(word: nat, len: nat, k: nat): (s: seq<byte>)
    requires 8 * k <= len
    ensures |s| == k
    decreases k
  {
    if k == 0 then [] else [Drained(word, len - 8)] + Flush(word, len - 8, k - 1)
  }

  lemma {:induction false} FlushAt(word: nat, len: nat, k: nat, i: nat)
    requires 8 * k <= len && i < k
    ensures Flush(word, len, k)[i] == Drained(word, len - 8 * (i + 1))
    decreases k
  {
    if i > 0 {
      FlushAt(word, len - 8, k - 1, i - 1);
    }
  }

  lemma Eighths(n: nat)
    ensures 8 * (n / 8) + n % 8 == n && n % 8 < 8
  {
  }

  function Push(e: Encoder, depth: nat, code: nat): Encoder {
    var word, len := BitOr(ShiftLeft(e.word, depth), code), e.len + depth;
    Eighths(len);
    Encoder(word, len % 8, e.out + Flush(word, len, len / 8))
  }

  /** The last digits, left-justified in a byte. */
  function LastByte(word: nat, len: nat): seq<byte>
    requires len < 8
  {
    if len != 0 then [Shl(word, 8 - len) % 256] else []
  }

  /** The stream as it is stored: the bytes drained, the last byte, and zeros up to a whole word. */
  function Finish(e: Encoder): (s: seq<byte>)
    requires e.len < 8
    ensures |s| % 4 == 0
  {
    PadTo(e.out + LastByte(e.word, e.len), 4)
  }

  /** The encoder has drained the digits `front` and holds `tail`, behind some older digits. */
  ghost predicate Encodes(e: Encoder, front: seq<bool>, tail: seq<bool>, older: seq<bool>) {
    e.len == |tail| && |older + tail| <= 32 && e.word == Bits(older + tail) && Unpacked(e.out) == front
  }

  lemma {:induction false} FlushUnpacks(h: seq<bool>, p: seq<bool>, rest: seq<bool>, k: nat)
    requires |p| == 8 * k
    ensures Unpacked(Flush(Bits(h + p + rest), |p| + |rest|, k)) == p
    decreases k
  {
    if k > 0 {
      var b, p' := p[..8], p[8..];
      assert b + p' == p;
      TakeByte(h, b, p', rest);
      DrainedBits(h, b, p' + rest);
      FlushUnpacks(h + b, p', rest, k - 1);
      FlushFirst(Bits(h + p + rest), b, |p| + |rest|, k, p');
    }
  }

  lemma TakeByte(h: seq<bool>, b: seq<bool>, p: seq<bool>, rest: seq<bool>)
    ensures h + (b + p) + rest == h + b + (p + rest) == h + b + p + rest
  {
    Associate(h, b, p);
    Associate(h + b, p, rest);
  }

  lemma FlushFirst(word: nat, b: seq<bool>, len: nat, k: nat, p: seq<bool>)
    requires k > 0 && 8 * k <= len && ByteBits(Drained(word, len - 8)) == b
    requires Unpacked(Flush(word, len - 8, k - 1)) == p
    ensures Unpacked(Flush(word, len, k)) == b + p
  {
    UnpackedConcat([Drained(word, len - 8)], Flush(word, len - 8, k - 1));
    UnpackedOne(Drained(word, len - 8));
  }

  lemma PushWord(older: seq<bool>, tail: seq<bool>, code: seq<bool>) returns (older': seq<bool>)
    requires |older + tail| <= 32 && |code| < 32 && |tail| + |code| <= 32
    ensures |older' + (tail + code)| <= 32
    ensures BitOr(ShiftLeft(Bits(older + tail), |code|), Bits(code)) == Bits(older' + (tail + code))
  {
    ShiftIn(older + tail, code);
    older' := LastSplit(older, tail, code);
  }

  lemma LastSplit(a: seq<bool>, b: seq<bool>, c: seq<bool>) returns (a': seq<bool>)
    requires |b| + |c| <= 32
    ensures Last(a + b + c, 32) == a' + (b + c) && |a' + (b + c)| <= 32
  {
    a' := Last(a, 32 - |b| - |c|);
    assert a + b + c == a + (b + c);
  }

  /** Pushing a code appends its digits to what has been encoded, while no more than 32 are in flight. */
  lemma PushEncodes(e: Encoder, front: seq<bool>, tail: seq<bool>, older: seq<bool>, code: seq<bool>)
    returns (front': seq<bool>, tail': seq<bool>, older': seq<bool>)
    requires Encodes(e, front, tail, older) && |code| < 32 && |tail| + |code| <= 32
    ensures Encodes(Push(e, |code|, Bits(code)), front', tail', older')
    ensures front' + tail' == front + tail + code && |tail'| < 8
  {
    var h := PushWord(older, tail, code);
    var p := tail + code;
    var word := Bits(h + p);
    var k := PushIs(e, |code|, Bits(code), word, |p|);
    front', tail', older' := DrainedSplit(e, word, front, p, h, k);
    assert front + p == front + tail + code;
  }

  lemma DrainedSplit(e: Encoder, word: nat, front: seq<bool>, p: seq<bool>, h: seq<bool>, k: nat)
    returns (front': seq<bool>, tail': seq<bool>, older': seq<bool>)
    requires word == Bits(h + p) && |h + p| <= 32 && 8 * k <= |p| < 8 * k + 8 && Unpacked(e.out) == front
    ensures Encodes(Encoder(word, |p| - 8 * k, e.out + Flush(word, |p|, k)), front', tail', older')
    ensures front' + tail' == front + p && |tail'| < 8
  {
    var p0 := p[..8 * k];
    tail' := p[8 * k..];
    front' := front + p0;
    older' := h + p0;
    assert p == p0 + tail';
    Associate(h, p0, tail');
    Associate(front, p0, tail');
    DrainedEncodes(e, word, front, p0, tail', h, k);
  }

  lemma PushIs(e: Encoder, depth: nat, code: nat, word: nat, len: nat) returns (k: nat)
    requires word == BitOr(ShiftLeft(e.word, depth), code) && len == e.len + depth
    ensures 8 * k <= len < 8 * k + 8
    ensures Push(e, depth, code) == Encoder(word, len - 8 * k, e.out + Flush(word, len, k))
  {
    Eighths(len);
    k := len / 8;
  }

  lemma DrainedEncodes(
    e: Encoder, word: nat, front: seq<bool>, p: seq<bool>, rest: seq<bool>, h: seq<bool>, k: nat)
    requires word == Bits(h + p + rest) && |h + p + rest| <= 32 && |p| == 8 * k && Unpacked(e.out) == front
    ensures Encodes(Encoder(word, |rest|, e.out + Flush(word, |p| + |rest|, k)), front + p, rest, h + p)
  {
    FlushUnpacks(h, p, rest, k);
    UnpackedConcat(e.out, Flush(word, |p| + |rest|, k));
  }

  lemma LastByteUnpacks(older: seq<bool>, tail: seq<bool>) returns (fill: seq<bool>)
    requires |tail| < 8
    ensures Unpacked(LastByte(Bits(older + tail), |tail|)) == tail + fill
  {
    if tail == [] {
      return [];
    }
    fill := Falses(8 - |tail|);
    LastByteBits(older, tail, fill);
    ByteOfBits(tail + fill);
    UnpackedOne(Bits(tail + fill));
  }

  lemma LastByteBits(older: seq<bool>, tail: seq<bool>, fill: seq<bool>)
    requires 0 < |tail| < 8 && fill == Falses(8 - |tail|)
    ensures LastByte(Bits(older + tail), |tail|) == [Bits(tail + fill)]
  {
    BitsOfFalses(8 - |tail|);
    BitsConcat(older + tail, fill);
    assert older + tail + fill == older + (tail + fill);
    LowByte(older, tail + fill);
  }

  lemma LowByte(h: seq<bool>, b: seq<bool>)
    requires |b| == 8
    ensures Bits(h + b) % 256 == Bits(b)
  {
    BitsSuffix(h + b, 8);
    Powers();
    assert (h + b)[|h + b| - 8..] == b;
  }

  /** The finished stream starts with exactly the digits that were pushed. */
  lemma FinishUnpacks(e: Encoder, front: seq<bool>, tail: seq<bool>, older: seq<bool>) returns (rest: seq<bool>)
    requires Encodes(e, front, tail, older) && e.len < 8
    ensures Unpacked(Finish(e)) == front + tail + rest
  {
    var last := LastByte(e.word, e.len);
    var s := e.out + last;
    var pad := Finish(e)[|s|..];
    UnpackedConcat(s, pad);
    UnpackedConcat(e.out, last);
    var fill := LastByteUnpacks(older, tail);
    rest := fill + Unpacked(pad);
    assert front + (tail + fill) + Unpacked(pad) == front + tail + rest;
  }

  // ----- Codes for which the word is too short -----

  /** How many of `pending` digits are shifted out of the word when a code of `size` digits comes in. */
  function Lost(pending: nat, size: nat): (n: nat)
    ensures n <= pending
  {
    if pending + size <= 32 then 0 else Min(pending, pending + size - 32)
  }

  /** The digits shifted out read as zeros. */
  function Blanked(tail: seq<bool>, n: nat): (s: seq<bool>)
    requires n <= |tail|
    ensures |s| == |tail|
  {
    Falses(n) + tail[n..]
  }

  /** Leading zeros do not change a number. */
  lemma LeadingFalses(n: nat, s: seq<bool>)
    ensures Bits(Falses(n) + s) == Bits(s)
  {
    BitsOfFalses(n);
    BitsConcat(Falses(n), s);
    ShlZero(|s|);
  }

  /** The word keeps the last 32 digits. */
  lemma KeptWord(q: seq<bool>, code: seq<bool>, kept: seq<bool>)
    requires |q| <= 32 && |code| < 32 && |kept| == 32 <= |q + code| && (q + code)[|q + code| - 32..] == kept
    ensures BitOr(ShiftLeft(Bits(q), |code|), Bits(code)) == Bits(kept)
  {
    ShiftIn(q, code);
  }

  lemma KeptDigits(older: seq<bool>, tail: seq<bool>, code: seq<bool>, n: nat)
    requires n <= |tail| && |tail| + |code| == 32 + n
    ensures (older + tail + code)[|older + tail + code| - 32..] == tail[n..] + code
  {
  }

  /** The bytes are drained as if zeros stood before the digits kept. */
  lemma BlankedWord(older: seq<bool>, tail: seq<bool>, code: seq<bool>, n: nat)
    requires |older + tail| <= 32 && |code| < 32 && n <= |tail| && |tail| + |code| == 32 + n
    ensures BitOr(ShiftLeft(Bits(older + tail), |code|), Bits(code)) == Bits(Blanked(tail, n) + code)
  {
    var kept := tail[n..] + code;
    KeptDigits(older, tail, code, n);
    KeptWord(older + tail, code, kept);
    LeadingFalses(n, kept);
    Associate(Falses(n), tail[n..], code);
  }

  /** Draining the 32 digits behind the blanks leaves as many digits as there are blanks. */
  lemma BlankedDrained(e: Encoder, q: seq<bool>, word: nat, kept: seq<bool>, front: seq<bool>, k: nat)
    returns (older: seq<bool>)
    requires Bits(q) == word == Bits(kept) && |kept| == 32 <= |q| < 40 && k == 4
    requires q[|q| - 32..] == kept && Unpacked(e.out) == front
    ensures Encodes(
      Encoder(word, |q| - 8 * k, e.out + Flush(word, |q|, k)), front + q[..8 * k], q[8 * k..], older)
  {
    var p, rest := q[..8 * k], q[8 * k..];
    assert [] + p + rest == q;
    FlushUnpacks([], p, rest, k);
    UnpackedConcat(e.out, Flush(word, |q|, k));
    older := kept[..32 - |rest|];
    assert older + rest == kept;
  }

  /** Pushing a code of fewer than 32 digits appends it, but the pending digits for which there is no room are
      stored as zeros. */
  lemma PushStores(e: Encoder, front: seq<bool>, tail: seq<bool>, older: seq<bool>, code: seq<bool>)
    returns (front': seq<bool>, tail': seq<bool>, older': seq<bool>)
    requires Encodes(e, front, tail, older) && |tail| < 8 && |code| < 32
    ensures Encodes(Push(e, |code|, Bits(code)), front', tail', older') && |tail'| < 8
    ensures front' + tail' == front + Blanked(tail, Lost(|tail|, |code|)) + code
  {
    var n := Lost(|tail|, |code|);
    if n == 0 {
      assert Blanked(tail, n) == tail;
      front', tail', older' := PushEncodes(e, front, tail, older, code);
    } else {
      front', tail', older' := PushBlanks(e, front, tail, older, code, n);
    }
  }

  lemma PushBlanks(e: Encoder, front: seq<bool>, tail: seq<bool>, older: seq<bool>, code: seq<bool>, n: nat)
    returns (front': seq<bool>, tail': seq<bool>, older': seq<bool>)
    requires Encodes(e, front, tail, older) && |tail| < 8 && |code| < 32
    requires 0 < n <= |tail| && |tail| + |code| == 32 + n
    ensures Encodes(Push(e, |code|, Bits(code)), front', tail', older') && |tail'| < 8
    ensures front' + tail' == front + Blanked(tail, n) + code
  {
    var q := Blanked(tail, n) + code;
    BlankedWord(older, tail, code, n);
    var k := PushIs(e, |code|, Bits(code), Bits(q), |q|);
    assert q[n..] == tail[n..] + code && q == Falses(n) + q[n..];
    LeadingFalses(n, q[n..]);
    older' := BlankedDrained(e, q, Bits(q), q[n..], front, k);
    front', tail' := front + q[..8 * k], q[8 * k..];
    assert front' + tail' == front + q;
    assert front + q == front + Blanked(tail, n) + code;
  }
}
