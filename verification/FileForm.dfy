/** The outer form of the compressed files: how the size is recorded at the front (src/lz77.cpp, src/runlength.cpp,
    src/huffman.cpp, src/yaz0.cpp) and what the alignment adds at the end. */
module FileForm {
  import opened Bytes

  /** The four bytes from `at` are the word `x`, least significant byte first. */
  predicate WordAt(c: seq<byte>, at: nat, x: nat) {
    at + 4 <= |c|
    && c[at] as int + 256 * c[at + 1] as int + 0x10000 * c[at + 2] as int + 0x100_0000 * c[at + 3] as int == x
  }

  /** The four bytes from `at` are the word `x`, most significant byte first. */
  predicate BigWordAt(c: seq<byte>, at: nat, x: nat) {
    at + 4 <= |c|
    && 0x100_0000 * c[at] as int + 0x10000 * c[at + 1] as int + 256 * c[at + 2] as int + c[at + 3] as int == x
  }

  /** A tag byte and the size in the three bytes behind it; a size that is 0 or too large for them is in a word of its
      own, and the three bytes are 0. */
  predicate TaggedSize(c: seq<byte>, tag: nat, n: nat) {
    if 0 < n <= 0xFF_FFFF then WordAt(c, 0, tag + 256 * n) && c[0] == tag
    else WordAt(c, 0, tag) && c[0] == tag && WordAt(c, 4, n)
  }

  /** `c` is `s` followed by as few zeros as make its length a multiple of `align`. */
  predicate ZeroPadded(c: seq<byte>, s: seq<byte>, align: nat)
    requires align > 0
  {
    && s <= c && |c| % align == 0 && |c| < |s| + align && forall i :: |s| <= i < |c| ==> c[i] == 0
  }

  lemma PadsWithZeros(s: seq<byte>, align: nat)
    requires align > 0
    ensures ZeroPadded(PadTo(s, align), s, align)
  {
  }

  lemma Le32At(x: nat, rest: seq<byte>)
    requires x < U32_LIMIT
    ensures WordAt(Le32(x) + rest, 0, x) && (Le32(x) + rest)[0] == x % 256
  {
    Le32RoundTrip(x);
    assert FromLe32(Le32(x)) == x;
  }

  lemma LowByte(n: nat, tag: nat, x: nat)
    requires tag < 256 && x == n * 256 + tag
    ensures x % 256 == tag
  {
  }

  /** The header that three of the formats share. */
  function SizeHeader(tag: nat, n: nat): seq<byte>
    requires tag < 256 && n < U32_LIMIT
  {
    if 0 < n <= 0xFF_FFFF then Le32(n * 256 + tag) else Le32(tag) + Le32(n)
  }

  lemma SizeHeaderStands(tag: nat, n: nat, rest: seq<byte>)
    requires tag < 256 && n < U32_LIMIT
    ensures TaggedSize(SizeHeader(tag, n) + rest, tag, n)
  {
    if 0 < n <= 0xFF_FFFF {
      LowByte(n, tag, n * 256 + tag);
      Le32At(n * 256 + tag, rest);
    } else {
      var c := Le32(tag) + Le32(n) + rest;
      Le32At(tag, []);
      Le32At(n, []);
      assert Le32(tag) + [] == Le32(tag) && Le32(n) + [] == Le32(n);
      forall i | 0 <= i < 4 ensures c[i] == Le32(tag)[i] && c[4 + i] == Le32(n)[i] {
      }
    }
  }

  lemma Be32At(x: nat, at: nat, c: seq<byte>)
    requires x < U32_LIMIT && at + 4 <= |c| && c[at..at + 4] == Be32(x)
    ensures BigWordAt(c, at, x)
  {
    Be32RoundTrip(x);
    forall i | 0 <= i < 4 ensures c[at + i] == Be32(x)[i] {
      assert c[at..at + 4][i] == c[at + i];
    }
  }

  lemma PrefixTagged(c: seq<byte>, d: seq<byte>, tag: nat, n: nat)
    requires TaggedSize(c, tag, n) && c <= d
    ensures TaggedSize(d, tag, n)
  {
  }
}
