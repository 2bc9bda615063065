/** The Yaz0 codec with its one-byte lookahead (src/yaz0.cpp). */
module Yaz0Codec {
  import opened Bytes
  import opened Bounds
  import opened TokenStream
  import opened GreedyParse
  import opened SlidingWindow
  import opened MatchSearch
  import opened StreamWriter
  import opened Output
  import opened StreamReader
  import opened Unmatched
  import opened ParseMatches
  import opened FileForm

  const MAGIC: seq<byte> := [0x59, 0x61, 0x7A, 0x30]

  /** "Yaz0", the size, the alignment property and a zero word, all most significant byte first. */
  function Header(n: nat, yaz0Align: nat): (s: seq<byte>)
    requires n < U32_LIMIT && yaz0Align < U32_LIMIT
    ensures |s| == 16
  {
    MAGIC + Be32(n) + Be32(yaz0Align) + Be32(0)
  }

  function CompressedBytes(data: seq<byte>, yaz0Align: nat): (s: seq<byte>)
    requires |data| < U32_LIMIT && yaz0Align < U32_LIMIT
  {
    ParseDescribes(Yaz0, data, 0);
    Header(|data|, yaz0Align) + EncodeTokens(Yaz0, Parse(Yaz0, data, 0))
  }

  /** The compressed file, as a function of the data. */
  function CompressedFile(data: seq<byte>, align: nat, yaz0Align: nat): (s: seq<byte>)
    requires |data| < U32_LIMIT && align > 0 && yaz0Align < U32_LIMIT
    ensures |s| == Align(|CompressedBytes(data, yaz0Align)|, align)
  {
    PadTo(CompressedBytes(data, yaz0Align), align)
  }

  /** A file begins with "Yaz0", the size, the alignment property and four zeros, and is padded with zeros. */
  lemma FileFormed(data: seq<byte>, align: nat, yaz0Align: nat)
    requires |data| < U32_LIMIT && align > 0 && yaz0Align < U32_LIMIT
    ensures
      var c := CompressedFile(data, align, yaz0Align);
      && |c| >= 16 && c[..4] == [0x59, 0x61, 0x7A, 0x30] && BigWordAt(c, 4, |data|) && BigWordAt(c, 8, yaz0Align)
      && c[12..16] == [0, 0, 0, 0] && ZeroPadded(c, CompressedBytes(data, yaz0Align), align)
  {
    var c, s := CompressedFile(data, align, yaz0Align), CompressedBytes(data, yaz0Align);
    PadsWithZeros(s, align);
    assert c[..16] == s[..16] == Header(|data|, yaz0Align);
    assert c[..4] == c[..16][..4] && c[4..8] == c[..16][4..8] && c[8..12] == c[..16][8..12];
    assert c[12..16] == c[..16][12..16] == Be32(0);
    Be32At(|data|, 4, c);
    Be32At(yaz0Align, 8, c);
  }

  /** What the decoder makes of any input, given room for `capacity` bytes. */
  function Decompressed(c: seq<byte>, capacity: nat): Option<seq<byte>> {
    if |c| >= 16 && c[..4] == MAGIC then
      var n := FromBe32(c[4..8]);
      if capacity < n then None else DecodeGroups(Yaz0, c, 16, [], n)
    else None
  }

  /** The codec's round trip, lookahead included: every input and every alignment. */
  lemma RoundTrip(data: seq<byte>, align: nat, yaz0Align: nat, capacity: nat)
    requires |data| < U32_LIMIT && align > 0 && yaz0Align < U32_LIMIT && capacity >= |data|
    ensures Decompressed(CompressedFile(data, align, yaz0Align), capacity) == Some(data)
  {
    var toks, head := Parse(Yaz0, data, 0), Header(|data|, yaz0Align);
    ParseExpands(Yaz0, data);
    var c := CompressedFile(data, align, yaz0Align);
    var e := EncodeTokens(Yaz0, toks);
    assert c[..16 + |e|] == head + e;
    assert c[16..16 + |e|] == e;
    assert c[..4] == c[..16 + |e|][..4] == MAGIC;
    assert c[4..8] == c[..16 + |e|][4..8] == Be32(|data|);
    Be32RoundTrip(|data|);
    DecodeEncoded(Yaz0, toks, c, 16);
  }

  // ----- The bound -----

  /** GetCompressBoundSize, in 32-bit arithmetic as the source computes it. */
  function BoundSize(n: nat, align: nat): nat
    requires n < U32_LIMIT && 0 < align < U32_LIMIT
  {
    Rounded(16 + (n + 7) % U32_LIMIT / 8 * 9 % U32_LIMIT, align)
  }

  /** The size before rounding that the formula stands for, in unbounded arithmetic. */
  function UnroundedBound(n: nat): nat { 16 + (n + 7) / 8 * 9 }

  /** The formula is exact, or its sum wraps around. */
  lemma BoundOrWrap(n: nat, align: nat)
    requires n < U32_LIMIT && 0 < align < U32_LIMIT
    ensures UnroundedBound(n) + align - 1 < U32_LIMIT ==> BoundSize(n, align) == Align(UnroundedBound(n), align)
    ensures UnroundedBound(n) + align - 1 >= U32_LIMIT ==> BoundSize(n, align) + U32_LIMIT < UnroundedBound(n) + align
  {
    var groups := (n + 7) % U32_LIMIT / 8 * 9 % U32_LIMIT;
    GroupsWrap(n);
    RoundedOrWrapped(UnroundedBound(n), 16 + groups, align);
  }

  /** A buffer of the size the bound names is always large enough when the bound does not wrap. */
  lemma BoundSuffices(data: seq<byte>, align: nat, yaz0Align: nat)
    requires |data| < U32_LIMIT && 0 < align && yaz0Align < U32_LIMIT
    requires UnroundedBound(|data|) + align - 1 < U32_LIMIT
    ensures |CompressedFile(data, align, yaz0Align)| <= BoundSize(|data|, align)
  {
    BoundOrWrap(|data|, align);
    StreamBound(Yaz0, data);
    AlignMonotone(|CompressedBytes(data, yaz0Align)|, UnroundedBound(|data|), align);
  }

  /** A sum that wraps gives a number far below the size of data without matches. */
  lemma BoundTooSmall(n: nat, align: nat, yaz0Align: nat)
    requires n < U32_LIMIT && 0 < align <= MAX_ALIGN && yaz0Align < U32_LIMIT
    requires UnroundedBound(n) + align - 1 >= U32_LIMIT
    ensures BoundSize(n, align) < |CompressedFile(Counting(n), align, yaz0Align)|
  {
    BoundOrWrap(n, align);
    CountingStream(Yaz0, n);
  }

  /** A buffer of the size the bound names is large enough for all data of that size if and only if the 32-bit sum
      does not wrap around. */
  lemma BoundSufficesIff(n: nat, align: nat, yaz0Align: nat)
    requires n < U32_LIMIT && 0 < align <= MAX_ALIGN && yaz0Align < U32_LIMIT
    ensures
      (forall data: seq<byte> :: |data| == n ==> |CompressedFile(data, align, yaz0Align)| <= BoundSize(n, align))
      <==> UnroundedBound(n) + align - 1 < U32_LIMIT
  {
    if UnroundedBound(n) + align - 1 < U32_LIMIT {
      forall data: seq<byte> | |data| == n ensures |CompressedFile(data, align, yaz0Align)| <= BoundSize(n, align) {
        BoundSuffices(data, align, yaz0Align);
      }
    } else {
      BoundTooSmall(n, align, yaz0Align);
    }
  }

  /** Data of one byte value become short: 273 bytes take three and a flag. */
  lemma ConstantFile(b: byte, n: nat, yaz0Align: nat)
    requires n < U32_LIMIT && yaz0Align < U32_LIMIT
    ensures 8 * |CompressedFile(Repeated(b, n), 1, yaz0Align)| <= 128 + n / 10 + 70
  {
    ConstantIsShort(Yaz0, b, n);
    assert Align(|CompressedBytes(Repeated(b, n), yaz0Align)|, 1) == |CompressedBytes(Repeated(b, n), yaz0Align)|;
  }

  // ----- Decoding -----

  /** Uncompress: what the destination holds afterwards, for every input. */
  method Uncompress(c: seq<byte>, out: array<byte>, capacity: nat) returns (ok: bool, size: nat)
    requires capacity <= out.Length
    modifies out
    ensures out[capacity..] == old(out[capacity..])
    ensures ok == Decompressed(c, capacity).Some?
    ensures ok ==> size <= capacity && Decompressed(c, capacity) == Some(out[..size])
  {
    ok, size := false, 0;
    if |c| >= 16 && c[..4] == MAGIC {
      var n := FromBe32(c[4..8]);
      if capacity >= n {
        size := n;
        ok := DecodeStream(Yaz0, c, 16, out, n);
        assert out[capacity..] == out[n..][capacity - n..];
      }
    }
  }

  // ----- Encoding -----

  /** Stores a match, with the length forms and the checks of the source. */
  method WriteMatch(out: array<byte>, d: nat, capacity: nat, len: nat, off: nat) returns (ok: bool, d': nat)
    requires WellFormed(Yaz0, Match(len, off)) && d <= capacity <= out.Length
    modifies out
    ensures out[capacity..] == old(out[capacity..])
    ensures ok == (d + |MatchBytes(Yaz0, len, off)| <= capacity)
    ensures ok ==> d' <= capacity && out[..d'] == old(out[..d]) + MatchBytes(Yaz0, len, off)
  {
    ok, d' := false, d;
    if len >= 0xF + 3 {
      if capacity - d >= 3 {
        out[d] := (off - 1) / 256;
        out[d + 1] := (off - 1) % 256;
        out[d + 2] := len - (0xF + 3);
        ok, d' := true, d + 3;
      }
    } else if capacity - d >= 2 {
      out[d] := (len - 2) * 16 + (off - 1) / 256;
      out[d + 1] := (off - 1) % 256;
      ok, d' := true, d + 2;
    }
    if ok {
      assert out[d..d'] == MatchBytes(Yaz0, len, off);
      assert out[..d'] == out[..d] + out[d..d'];
    }
  }

  /** Stores one token in the open group; only a literal sets its flag bit. */
  method EmitToken(
    out: array<byte>, at: nat, d: nat, capacity: nat, i: nat, t: Token,
    ghost head: seq<byte>, ghost full: seq<Token>, ghost g: seq<Token>) returns (ok: bool, d': nat)
    requires WellFormed(Yaz0, t)
    requires d <= capacity <= out.Length && i == |g| < 8 && Writing(Yaz0, out[..d], head, full, g)
    requires at == FlagPos(Yaz0, head, full)
    modifies out
    ensures out[capacity..] == old(out[capacity..])
    ensures !ok ==> d + |Payload(Yaz0, t)| > capacity
    ensures ok ==> d < d' <= capacity && Writing(Yaz0, out[..d'], head, full, g + [t])
  {
    WritingStep(Yaz0, out[..d], head, full, g, t);
    if t.Literal? {
      ok := EmitLiteral(Yaz0, out, at, d, capacity, i, t.b);
      d' := d + 1;
    } else {
      ghost var before := out[..d];
      ok, d' := WriteMatch(out, d, capacity, t.len, t.off);
      assert before[at := before[at]] == before;
    }
  }

  /** The lookahead's memory: a search already made for the current position. */
  datatype Cache = NoCache | Cached(size: nat, off: nat)

  /** A remembered search is exactly what searching again would find. */
  ghost predicate CacheOk(cache: Cache, data: seq<byte>, p: nat) {
    cache.Cached? ==> p < |data| && Best(cache.size, cache.off) == BestMatch(Yaz0, data, p)
  }

  const MAX_MATCH: nat := 0xFF + 0xF + 3

  /** The best match at `p`: the remembered one, or the result of a search. */
  method MatchHere(w: Window, data: seq<byte>, p: nat, cache: Cache) returns (size: nat, off: nat)
    requires p < |data| && Covers(w, Yaz0, data, p) && CacheOk(cache, data, p)
    ensures Best(size, off) == BestMatch(Yaz0, data, p) && size <= |data| - p
  {
    BestMatchIsMatch(Yaz0, data, p);
    if cache.Cached? {
      size, off := cache.size, cache.off;
    } else {
      size, off := SearchNewest(w, data, p, Min(MAX_MATCH, |data| - p));
    }
  }

  /** Decides the token at `p`; afterwards the window has slid over all its bytes, each once. */
  method FindToken(w: Window, data: seq<byte>, p: nat, cache: Cache) returns (t: Token, p': nat, cache': Cache)
    requires p < |data| && Covers(w, Yaz0, data, p) && CacheOk(cache, data, p)
    modifies w, w.next, w.prev, w.first, w.last
    ensures t == NextToken(Yaz0, data, p)
    ensures p' == p + Span(t) <= |data| && Covers(w, Yaz0, data, p') && CacheOk(cache', data, p')
  {
    cache' := NoCache;
    var size, off := MatchHere(w, data, p, cache);
    Slide(w, Yaz0, data, p, 1);
    p' := p + 1;
    if size < 3 {
      t := Literal(data[p]);
    } else {
      var lastSize, lastOff := SearchNewest(w, data, p + 1, Min(MAX_MATCH, |data| - p - 1));
      if lastSize > size {
        t := Literal(data[p]);
        cache' := Cached(lastSize, lastOff);
      } else {
        Slide(w, Yaz0, data, p + 1, size - 1);
        t := Match(size, off);
        p' := p + size;
      }
    }
  }

  /** One item: decide, slide, emit. */
  method CompressItem(
    data: seq<byte>, p: nat, cache: Cache, w: Window, out: array<byte>, at: nat, d: nat, capacity: nat, i: nat,
    ghost head: seq<byte>, ghost full: seq<Token>, ghost g: seq<Token>)
    returns (ok: bool, p': nat, cache': Cache, d': nat)
    requires p < |data| && Covers(w, Yaz0, data, p) && CacheOk(cache, data, p) && Apart(w, out)
    requires d <= capacity <= out.Length && i == |g| < 8
    requires Writing(Yaz0, out[..d], head, full, g) && Encoding(Yaz0, data, p, full, g)
    requires at == FlagPos(Yaz0, head, full)
    modifies out, w, w.next, w.prev, w.first, w.last
    ensures out[capacity..] == old(out[capacity..])
    ensures !ok ==> capacity < |head| + StreamSize(Yaz0, data)
    ensures ok ==>
      && p < p' <= |data| && d' <= capacity && Covers(w, Yaz0, data, p') && CacheOk(cache', data, p')
      && Writing(Yaz0, out[..d'], head, full, g + [NextToken(Yaz0, data, p)])
      && Encoding(Yaz0, data, p', full, g + [NextToken(Yaz0, data, p)])
  {
    NoRoom(Yaz0, data, p, full, g, out[..d], head);
    var t;
    t, p', cache' := FindToken(w, data, p, cache);
    EncodingStep(Yaz0, data, p, full, g, t, p');
    ok, d' := EmitToken(out, at, d, capacity, i, t, head, full, g);
  }

  /** One flag byte and its items; the lookahead's memory passes from group to group. */
  method CompressGroup(
    data: seq<byte>, p: nat, cache: Cache, w: Window, out: array<byte>, d: nat, capacity: nat,
    ghost head: seq<byte>, ghost full: seq<Token>)
    returns (ok: bool, p': nat, cache': Cache, d': nat, ghost full': seq<Token>)
    requires p < |data| && Covers(w, Yaz0, data, p) && CacheOk(cache, data, p) && Apart(w, out)
    requires d <= capacity <= out.Length && AllWellFormed(Yaz0, full) && |full| % 8 == 0
    requires out[..d] == head + EncodeTokens(Yaz0, full) && Encoding(Yaz0, data, p, full, [])
    modifies out, w, w.next, w.prev, w.first, w.last
    ensures out[capacity..] == old(out[capacity..])
    ensures !ok ==> capacity < |head| + StreamSize(Yaz0, data)
    ensures ok ==>
      && p < p' <= |data| && d' <= capacity && Covers(w, Yaz0, data, p') && CacheOk(cache', data, p')
      && AllWellFormed(Yaz0, full') && (p' < |data| ==> |full'| % 8 == 0)
      && out[..d'] == head + EncodeTokens(Yaz0, full') && Encoding(Yaz0, data, p', full', [])
  {
    p', cache', full' := p, cache, full;
    ghost var g: seq<Token> := [];
    var at := d;
    ok, d' := OpenGroup(Yaz0, data, p, out, d, capacity, head, full);
    if !ok {
      return;
    }
    var i := 0;
    while i < 8 && p' < |data|
      invariant 0 <= i == |g| <= 8 && p <= p' <= |data| && d' <= capacity
      invariant (p' == p) == (i == 0)
      invariant Covers(w, Yaz0, data, p') && CacheOk(cache', data, p')
      invariant Writing(Yaz0, out[..d'], head, full, g) && Encoding(Yaz0, data, p', full, g)
      invariant out[capacity..] == old(out[capacity..])
      decreases 8 - i
    {
      ghost var t := NextToken(Yaz0, data, p');
      ok, p', cache', d' := CompressItem(data, p', cache', w, out, at, d', capacity, i, head, full, g);
      if !ok {
        return;
      }
      g := g + [t];
      i := i + 1;
    }
    CloseGroup(Yaz0, data, p', out[..d'], head, full, g);
    full' := full + g;
  }

  method WriteHeader(n: nat, yaz0Align: nat, out: array<byte>, capacity: nat) returns (ok: bool)
    requires n < U32_LIMIT && yaz0Align < U32_LIMIT && capacity <= out.Length
    modifies out
    ensures out[capacity..] == old(out[capacity..])
    ensures ok == (16 <= capacity)
    ensures ok ==> out[..16] == Header(n, yaz0Align)
  {
    ok := 16 <= capacity;
    if ok {
      StoreBe32(out, 0, 0x59617A30, capacity);
      StoreBe32(out, 4, n, capacity);
      StoreBe32(out, 8, yaz0Align, capacity);
      StoreBe32(out, 12, 0, capacity);
    }
  }

  /** Compress: the file is `CompressedFile` whenever it fits, and failure means that it does not. */
  method Compress(data: seq<byte>, out: array<byte>, capacity: nat, align: nat, yaz0Align: nat)
    returns (ok: bool, size: nat)
    requires |data| < U32_LIMIT && capacity <= out.Length && align > 0 && yaz0Align < U32_LIMIT
    modifies out
    ensures out[capacity..] == old(out[capacity..])
    ensures ok == (|CompressedFile(data, align, yaz0Align)| <= capacity)
    ensures ok ==> size <= capacity && out[..size] == CompressedFile(data, align, yaz0Align)
  {
    size := 0;
    ghost var head := Header(|data|, yaz0Align);
    ghost var total := |head| + StreamSize(Yaz0, data);
    ok := WriteHeader(|data|, yaz0Align, out, capacity);
    if !ok {
      return;
    }
    var d: nat := 16;
    var w := new Window(4096);
    var p: nat := 0;
    var cache := NoCache;
    ghost var full: seq<Token> := [];
    assert out[..d] == head + EncodeTokens(Yaz0, full);
    while p < |data|
      invariant p <= |data| && d <= capacity && Covers(w, Yaz0, data, p) && CacheOk(cache, data, p) && Apart(w, out)
      invariant fresh(w) && fresh(w.next) && fresh(w.prev) && fresh(w.first) && fresh(w.last)
      invariant AllWellFormed(Yaz0, full) && (p < |data| ==> |full| % 8 == 0)
      invariant out[..d] == head + EncodeTokens(Yaz0, full) && Encoding(Yaz0, data, p, full, [])
      invariant out[capacity..] == old(out[capacity..])
    {
      ok, p, cache, d, full := CompressGroup(data, p, cache, w, out, d, capacity, head, full);
      if !ok {
        return;
      }
    }
    assert full + [] + [] == full == Parse(Yaz0, data, 0);
    ok, size := PadOutput(out, d, capacity, align);
  }
}
