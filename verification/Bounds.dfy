/** What the size bounds of the codecs have in common (GetCompressBoundSize): they are computed in 32 bits. */
module Bounds {
  import opened Bytes

  /** The largest alignment, a signed 32-bit number. */
  const MAX_ALIGN: nat := 0x7FFF_FFFF

  /** The size of the header of an LZ77, Huffman or run-length file. */
  function HeaderSize(n: nat): nat { if 0 < n <= 0xFFFFFF then 4 else 8 }

  /** Rounding up to the alignment, as it is computed. */
  function Rounded(x: nat, align: nat): nat
    requires 0 < align < U32_LIMIT
  {
    (x + align - 1) % U32_LIMIT / align * align % U32_LIMIT
  }

  /** `wrapped` is `exact` up to a wrap. */
  predicate Wraps(exact: nat, wrapped: nat) { wrapped == exact || wrapped + U32_LIMIT <= exact }

  lemma ProductWraps(x: nat)
    ensures Wraps(x, x % U32_LIMIT)
  {
    WrappedSum(x);
  }

  lemma GroupsWrap(n: nat)
    requires n < U32_LIMIT
    ensures Wraps((n + 7) / 8 * 9, (n + 7) % U32_LIMIT / 8 * 9 % U32_LIMIT)
  {
    WrappedGroups(n);
  }

  /** Either the sum does not wrap and is rounded up, or four gigabytes are missing. */
  lemma RoundedOrWrapped(exact: nat, wrapped: nat, align: nat)
    requires 0 < align < U32_LIMIT && Wraps(exact, wrapped)
    ensures exact + align - 1 < U32_LIMIT ==> Rounded(wrapped, align) == Align(exact, align)
    ensures exact + align - 1 >= U32_LIMIT ==> Rounded(wrapped, align) + U32_LIMIT < exact + align
  {
    var sum := wrapped + align - 1;
    WrappedSum(sum);
    RoundDown(sum % U32_LIMIT, align);
    WrappedSum(sum % U32_LIMIT / align * align);
  }
}
