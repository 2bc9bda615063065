/** The LZ77 and LZ77Ex codec (src/lz77.cpp). */
module Lz77 {
  import opened Bytes
  import opened Bounds
  import opened FlagGroups
  import opened TokenStream
  import opened GreedyParse
  import opened SlidingWindow
  import opened MatchSearch
  import opened StreamWriter
  import opened Output
  import opened StreamReader
  import opened Unmatched
  import opened ParseMatches
  import opened FileForm

  // ----- The file format -----

  /** The size word: in the first word when it fits there and is not zero, else in a second one. */
  function Header(f: Format, n: nat): (s: seq<byte>)
    requires OldestFirst(f) && n < U32_LIMIT
    ensures |s| == HeaderSize(n)
  {
    SizeHeader(if f.LzEx? then 0x11 else 0x10, n)
  }

  function CompressedBytes(f: Format, data: seq<byte>): (s: seq<byte>)
    requires OldestFirst(f) && |data| < U32_LIMIT
  {
    ParseDescribes(f, data, 0);
    Header(f, |data|) + EncodeTokens(f, Parse(f, data, 0))
  }

  /** The compressed file, as a function of the data. */
  function CompressedFile(f: Format, data: seq<byte>, align: nat): (s: seq<byte>)
    requires OldestFirst(f) && |data| < U32_LIMIT && align > 0
    ensures |s| == Align(|CompressedBytes(f, data)|, align)
  {
    PadTo(CompressedBytes(f, data), align)
  }

  /** A file begins with the tag of its format and the size, and is padded with zeros. */
  lemma FileFormed(f: Format, data: seq<byte>, align: nat)
    requires OldestFirst(f) && |data| < U32_LIMIT && align > 0
    ensures
      var c := CompressedFile(f, data, align);
      TaggedSize(c, if f.LzEx? then 0x11 else 0x10, |data|) && ZeroPadded(c, CompressedBytes(f, data), align)
  {
    var tag := if f.LzEx? then 0x11 else 0x10;
    ParseDescribes(f, data, 0);
    PadsWithZeros(CompressedBytes(f, data), align);
    SizeHeaderStands(tag, |data|, EncodeTokens(f, Parse(f, data, 0)));
    PrefixTagged(CompressedBytes(f, data), CompressedFile(f, data, align), tag, |data|);
  }

  datatype FileHeader = FileHeader(f: Format, size: nat, at: nat)

  function ReadHeader(c: seq<byte>): (r: Option<FileHeader>)
    ensures r.Some? ==> OldestFirst(r.value.f) && r.value.at <= |c|
  {
    if |c| >= 4 && c[0] as int / 16 == 1 && (c[0] as int % 16 == 0 || c[0] as int % 16 == 1) then
      var f := if c[0] as int % 16 == 0 then Lz else LzEx;
      var short := FromLe32(c[..4]) / 256;
      if short != 0 then Some(FileHeader(f, short, 4))
      else if |c| >= 8 then Some(FileHeader(f, FromLe32(c[4..8]), 8))
      else None
    else None
  }

  /** What the decoder makes of any input, given room for `capacity` bytes. */
  function Decompressed(c: seq<byte>, capacity: nat): Option<seq<byte>> {
    match ReadHeader(c)
    case None => None
    case Some(h) => if capacity < h.size then None else DecodeGroups(h.f, c, h.at, [], h.size)
  }

  lemma ReadWrittenHeader(f: Format, n: nat, rest: seq<byte>)
    requires OldestFirst(f) && n < U32_LIMIT
    ensures ReadHeader(Header(f, n) + rest) == Some(FileHeader(f, n, |Header(f, n)|))
  {
    var tag := if f.LzEx? then 0x11 else 0x10;
    var c := Header(f, n) + rest;
    if 0 < n <= 0xFFFFFF {
      Le32RoundTrip(n * 256 + tag);
      assert c[..4] == Le32(n * 256 + tag);
      assert (n * 256 + tag) / 256 == n;
    } else {
      Le32RoundTrip(tag);
      Le32RoundTrip(n);
      assert c[..4] == Le32(tag) && c[4..8] == Le32(n);
    }
  }

  /** The codec's round trip: every input, both formats, every alignment. */
  lemma RoundTrip(f: Format, data: seq<byte>, align: nat, capacity: nat)
    requires OldestFirst(f) && |data| < U32_LIMIT && align > 0 && capacity >= |data|
    ensures Decompressed(CompressedFile(f, data, align), capacity) == Some(data)
  {
    var toks, head := Parse(f, data, 0), Header(f, |data|);
    ParseExpands(f, data);
    var c := CompressedFile(f, data, align);
    var e := EncodeTokens(f, toks);
    PrefixParts(head, e, c);
    ReadWrittenHeader(f, |data|, c[|head|..]);
    DecodeEncoded(f, toks, c, |head|);
  }

  // ----- The bound -----

  /** GetCompressBoundSize, in 32-bit arithmetic as the source computes it. */
  function BoundSize(n: nat, align: nat): nat
    requires n < U32_LIMIT && 0 < align < U32_LIMIT
  {
    Rounded(HeaderSize(n) + (n + 7) % U32_LIMIT / 8 * 9 % U32_LIMIT, align)
  }

  /** The size before rounding that the formula stands for, in unbounded arithmetic. */
  function UnroundedBound(n: nat): nat { HeaderSize(n) + (n + 7) / 8 * 9 }

  /** The formula is exact, or its sum wraps around. */
  lemma BoundOrWrap(n: nat, align: nat)
    requires n < U32_LIMIT && 0 < align < U32_LIMIT
    ensures UnroundedBound(n) + align - 1 < U32_LIMIT ==> BoundSize(n, align) == Align(UnroundedBound(n), align)
    ensures UnroundedBound(n) + align - 1 >= U32_LIMIT ==> BoundSize(n, align) + U32_LIMIT < UnroundedBound(n) + align
  {
    var groups := (n + 7) % U32_LIMIT / 8 * 9 % U32_LIMIT;
    GroupsWrap(n);
    RoundedOrWrapped(UnroundedBound(n), HeaderSize(n) + groups, align);
  }

  /** A buffer of the size the bound names is always large enough when the bound does not wrap. */
  lemma BoundSuffices(f: Format, data: seq<byte>, align: nat)
    requires OldestFirst(f) && |data| < U32_LIMIT && 0 < align
    requires UnroundedBound(|data|) + align - 1 < U32_LIMIT
    ensures |CompressedFile(f, data, align)| <= BoundSize(|data|, align)
  {
    BoundOrWrap(|data|, align);
    StreamBound(f, data);
    AlignMonotone(|CompressedBytes(f, data)|, UnroundedBound(|data|), align);
  }

  /** A sum that wraps gives a number far below the size of data without matches. */
  lemma BoundTooSmall(f: Format, n: nat, align: nat)
    requires OldestFirst(f) && n < U32_LIMIT && 0 < align <= MAX_ALIGN
    requires UnroundedBound(n) + align - 1 >= U32_LIMIT
    ensures BoundSize(n, align) < |CompressedFile(f, Counting(n), align)|
  {
    BoundOrWrap(n, align);
    CountingStream(f, n);
  }

  /** A buffer of the size the bound names is large enough for all data of that size if and only if the 32-bit sum
      does not wrap around. */
  lemma BoundSufficesIff(f: Format, n: nat, align: nat)
    requires OldestFirst(f) && n < U32_LIMIT && 0 < align <= MAX_ALIGN
    ensures
      (forall data: seq<byte> :: |data| == n ==> |CompressedFile(f, data, align)| <= BoundSize(n, align))
      <==> UnroundedBound(n) + align - 1 < U32_LIMIT
  {
    if UnroundedBound(n) + align - 1 < U32_LIMIT {
      forall data: seq<byte> | |data| == n ensures |CompressedFile(f, data, align)| <= BoundSize(n, align) {
        BoundSuffices(f, data, align);
      }
    } else {
      BoundTooSmall(f, n, align);
    }
  }

  lemma WrappedBound(n: nat)
    requires n == 0xFFFF_FFFF
    ensures BoundSize(n, 1) == 8
  {
  }

  lemma SomeStream(f: Format, data: seq<byte>)
    requires OldestFirst(f) && 0xFFFFFF < |data| < U32_LIMIT
    ensures |CompressedBytes(f, data)| > 8
  {
    ParseDescribes(f, data, 0);
    var toks := Parse(f, data, 0);
    assert toks != [];
    EncodeLaidOut(Items(f, toks), 0);
  }

  /** There are sizes for which it is too small whatever the data: four gigabytes less one. */
  lemma BoundWraps(f: Format, data: seq<byte>)
    requires OldestFirst(f) && |data| == 0xFFFF_FFFF
    ensures BoundSize(|data|, 1) == 8 < |CompressedFile(f, data, 1)|
  {
    WrappedBound(|data|);
    SomeStream(f, data);
  }

  /** Data of one byte value become short: 18 bytes take two and a flag, and with LZ77Ex 65808 bytes take four. */
  lemma ConstantFile(f: Format, b: byte, n: nat)
    requires OldestFirst(f) && n < U32_LIMIT
    ensures 8 * |CompressedFile(f, Repeated(b, n), 1)| <= 64 + if f.LzEx? then n / 1000 + 120 else n + 110
  {
    ConstantIsShort(f, b, n);
    assert Align(|CompressedBytes(f, Repeated(b, n))|, 1) == |CompressedBytes(f, Repeated(b, n))|;
  }

  // ----- Decoding -----

  /** Uncompress: what the destination holds afterwards, for every input. */
  method Uncompress(c: seq<byte>, out: array<byte>, capacity: nat) returns (ok: bool, size: nat)
    requires capacity <= out.Length
    modifies out
    ensures out[capacity..] == old(out[capacity..])
    ensures ok == Decompressed(c, capacity).Some?
    ensures ok ==> size <= capacity && Decompressed(c, capacity) == Some(out[..size])
  {
    ok, size := false, 0;
    if |c| >= 4 && c[0] as int / 16 == 1 && (c[0] as int % 16 == 0 || c[0] as int % 16 == 1) {
      var n, head := FromLe32(c[..4]) / 256, 4;
      if n != 0 || |c| >= 8 {
        if n == 0 {
          n, head := FromLe32(c[4..8]), 8;
        }
        if capacity >= n {
          var f := if c[0] as int % 16 != 0 then LzEx else Lz;
          size := n;
          ok := DecodeStream(f, c, head, out, n);
          assert out[capacity..] == out[n..][capacity - n..];
        }
      }
    }
  }

  // ----- Encoding -----

  /** Stores the part of a long length that does not go with the distance, and leaves the rest of it. */
  method WriteLength(f: Format, out: array<byte>, d: nat, ghost capacity: nat, len: nat) returns (d': nat, n: nat)
    requires OldestFirst(f) && 3 <= len <= (if f.LzEx? then 0xFFFF + 0xFF + 0xF + 3 else 0xF + 3)
    requires d + 2 <= capacity <= out.Length
    modifies out
    ensures d' <= capacity && out[capacity..] == old(out[capacity..]) && n % 16 * 16 < 256
    ensures out[..d'] == old(out[..d]) + LengthBytes(f, len) && n == LengthRest(f, len)
  {
    d', n := d, len;
    if f.Lz? {
      n := n - 3;
    } else if n >= 0xFF + 0xF + 3 {
      n := n - (0xFF + 0xF + 3);
      out[d'] := 0x10 + n / 4096;
      out[d' + 1] := n / 16 % 256;
      d' := d' + 2;
    } else if n >= 0xF + 2 {
      n := n - (0xF + 2);
      out[d'] := n / 16;
      d' := d' + 1;
    } else {
      n := n - 1;
    }
  }

  function LengthRest(f: Format, len: nat): nat
    requires OldestFirst(f) && 3 <= len
  {
    if f.Lz? then len - 3
    else if len >= 0xFF + 0xF + 3 then len - (0xFF + 0xF + 3)
    else if len >= 0xF + 2 then len - (0xF + 2)
    else len - 1
  }

  function LengthBytes(f: Format, len: nat): seq<byte>
    requires OldestFirst(f) && 3 <= len <= (if f.LzEx? then 0xFFFF + 0xFF + 0xF + 3 else 0xF + 3)
  {
    var n := LengthRest(f, len);
    if f.Lz? then [] else if len >= 0xFF + 0xF + 3 then [0x10 + n / 4096, n / 16 % 256]
    else if len >= 0xF + 2 then [n / 16] else []
  }

  /** The bytes of a match: what a long length takes, and the rest of it together with the distance. */
  lemma MatchParts(f: Format, len: nat, off: nat)
    requires OldestFirst(f) && WellFormed(f, Match(len, off))
    ensures 3 <= len <= (if f.LzEx? then 0xFFFF + 0xFF + 0xF + 3 else 0xF + 3) && 1 <= off <= 4096
    ensures LengthRest(f, len) % 16 * 16 + (off - 1) / 256 < 256
    ensures MatchBytes(f, len, off) ==
      LengthBytes(f, len) + [LengthRest(f, len) % 16 * 16 + (off - 1) / 256, (off - 1) % 256]
  {
  }

  /** Stores a match, with the length forms and the checks of the source. */
  method WriteMatch(f: Format, out: array<byte>, d: nat, capacity: nat, len: nat, off: nat) returns (ok: bool, d': nat)
    requires OldestFirst(f) && WellFormed(f, Match(len, off)) && d <= capacity <= out.Length
    modifies out
    ensures out[capacity..] == old(out[capacity..])
    ensures ok == (d + |MatchBytes(f, len, off)| <= capacity)
    ensures ok ==> d' <= capacity && out[..d'] == old(out[..d]) + MatchBytes(f, len, off)
  {
    ok, d' := false, d;
    MatchParts(f, len, off);
    if capacity - d < 2 {
      return;
    }
    ghost var was := out[..d];
    var n: nat;
    d', n := WriteLength(f, out, d, capacity, len);
    assert |out[..d']| == d + |LengthBytes(f, len)|;
    if capacity - d' < 2 {
      return;
    }
    StorePair(out, d', capacity, n % 16 * 16 + (off - 1) / 256, (off - 1) % 256);
    Associate(was, LengthBytes(f, len), [n % 16 * 16 + (off - 1) / 256, (off - 1) % 256]);
    d' := d' + 2;
    ok := true;
  }

  method StorePair(out: array<byte>, d: nat, ghost capacity: nat, x: byte, y: byte)
    requires d + 2 <= capacity <= out.Length
    modifies out
    ensures out[capacity..] == old(out[capacity..]) && out[..d + 2] == old(out[..d]) + [x, y]
  {
    out[d], out[d + 1] := x, y;
  }

  /** Patches the flag byte and stores the match. */
  method EmitMatch(f: Format, out: array<byte>, at: nat, d: nat, capacity: nat, i: nat, len: nat, off: nat)
    returns (ok: bool, d': nat)
    requires OldestFirst(f) && WellFormed(f, Match(len, off)) && i < 8
    requires at < d <= capacity <= out.Length && 0 <= Flagged(f, out[at], Match(len, off), i) < 256
    modifies out
    ensures out[capacity..] == old(out[capacity..])
    ensures ok == (d + |MatchBytes(f, len, off)| <= capacity)
    ensures ok ==>
      && d' <= capacity
      && out[..d'] == old(out[..d])[at := Flagged(f, old(out[at]), Match(len, off), i)] + MatchBytes(f, len, off)
  {
    if capacity - d < 2 {
      return false, d;
    }
    out[at] := out[at] as int + Mask(i);
    ok, d' := WriteMatch(f, out, d, capacity, len, off);
  }

  method FindToken(w: Window, f: Format, data: seq<byte>, p: nat) returns (size: nat, off: nat)
    requires OldestFirst(f) && p < |data| && Covers(w, f, data, p)
    ensures Chosen(size, off, data[p]) == NextToken(f, data, p)
    ensures p + (if size < 3 then 1 else size) <= |data|
  {
    var maxSize := if f.LzEx? then 0xFFFF + 0xFF + 0xF + 3 else 0xF + 3;
    size, off := SearchOldest(w, f, data, p, Min(maxSize, |data| - p));
    BestMatchIsMatch(f, data, p);
  }

  /** Finds a token and slides over what it stands for. */
  method TakeToken(w: Window, f: Format, data: seq<byte>, p: nat) returns (size: nat, off: nat, p': nat)
    requires OldestFirst(f) && p < |data| && Covers(w, f, data, p)
    modifies w, w.next, w.prev, w.first, w.last
    ensures Chosen(size, off, data[p]) == NextToken(f, data, p)
    ensures p' == p + Span(Chosen(size, off, data[p])) && p < p' <= |data| && Covers(w, f, data, p')
  {
    size, off := FindToken(w, f, data, p);
    var count := if size < 3 then 1 else size;
    Slide(w, f, data, p, count);
    p' := p + count;
  }

  /** Stores one token in the open group. */
  method EmitToken(
    f: Format, out: array<byte>, at: nat, d: nat, capacity: nat, i: nat, size: nat, off: nat, b: byte,
    ghost head: seq<byte>, ghost full: seq<Token>, ghost g: seq<Token>) returns (ok: bool, d': nat)
    requires OldestFirst(f) && WellFormed(f, Chosen(size, off, b))
    requires d <= capacity <= out.Length && i == |g| < 8 && Writing(f, out[..d], head, full, g)
    requires at == FlagPos(f, head, full)
    modifies out
    ensures out[capacity..] == old(out[capacity..])
    ensures !ok ==> d + |Payload(f, Chosen(size, off, b))| > capacity
    ensures ok ==> d < d' <= capacity && Writing(f, out[..d'], head, full, g + [Chosen(size, off, b)])
  {
    WritingStep(f, out[..d], head, full, g, Chosen(size, off, b));
    if size < 3 {
      ok := EmitLiteral(f, out, at, d, capacity, i, b);
      d' := d + 1;
    } else {
      ok, d' := EmitMatch(f, out, at, d, capacity, i, size, off);
      if ok {
        assert |out[..d']| == d + |MatchBytes(f, size, off)|;
      }
    }
  }

  /** One item: search, slide, emit. */
  method CompressItem(
    f: Format, data: seq<byte>, p: nat, w: Window, out: array<byte>, at: nat, d: nat, capacity: nat, i: nat,
    ghost head: seq<byte>, ghost full: seq<Token>, ghost g: seq<Token>)
    returns (ok: bool, p': nat, d': nat, ghost t: Token)
    requires OldestFirst(f) && p < |data| && Covers(w, f, data, p) && Apart(w, out)
    requires d <= capacity <= out.Length && i == |g| < 8
    requires Writing(f, out[..d], head, full, g) && Encoding(f, data, p, full, g)
    requires at == FlagPos(f, head, full)
    modifies out, w, w.next, w.prev, w.first, w.last
    ensures out[capacity..] == old(out[capacity..])
    ensures !ok ==> capacity < |head| + StreamSize(f, data)
    ensures ok ==>
      && p < p' <= |data| && d' <= capacity && Covers(w, f, data, p')
      && Writing(f, out[..d'], head, full, g + [t])
      && Encoding(f, data, p', full, g + [t])
  {
    var size, off;
    size, off, p' := TakeToken(w, f, data, p);
    t := Chosen(size, off, data[p]);
    ItemStep(f, data, p, full, g, out[..d], head, t, p');
    ok, d' := EmitToken(f, out, at, d, capacity, i, size, off, data[p], head, full, g);
  }

  /** One flag byte and its items. */
  method CompressGroup(
    f: Format, data: seq<byte>, p: nat, w: Window, out: array<byte>, d: nat, capacity: nat,
    ghost head: seq<byte>, ghost full: seq<Token>)
    returns (ok: bool, p': nat, d': nat, ghost full': seq<Token>)
    requires OldestFirst(f) && p < |data| && Covers(w, f, data, p) && Apart(w, out)
    requires d <= capacity <= out.Length && AllWellFormed(f, full) && |full| % 8 == 0
    requires out[..d] == head + EncodeTokens(f, full) && Encoding(f, data, p, full, [])
    modifies out, w, w.next, w.prev, w.first, w.last
    ensures out[capacity..] == old(out[capacity..])
    ensures !ok ==> capacity < |head| + StreamSize(f, data)
    ensures ok ==>
      && p < p' <= |data| && d' <= capacity && Covers(w, f, data, p')
      && AllWellFormed(f, full') && (p' < |data| ==> |full'| % 8 == 0)
      && out[..d'] == head + EncodeTokens(f, full') && Encoding(f, data, p', full', [])
  {
    p', full' := p, full;
    ghost var g: seq<Token> := [];
    var at := d;
    ok, d' := OpenGroup(f, data, p, out, d, capacity, head, full);
    if !ok {
      return;
    }
    var i := 0;
    while i < 8 && p' < |data|
      invariant 0 <= i == |g| <= 8 && p <= p' <= |data| && d' <= capacity
      invariant (p' == p) == (i == 0)
      invariant Covers(w, f, data, p') && Writing(f, out[..d'], head, full, g) && Encoding(f, data, p', full, g)
      invariant out[capacity..] == old(out[capacity..])
      decreases 8 - i
    {
      ghost var t;
      ok, p', d', t := CompressItem(f, data, p', w, out, at, d', capacity, i, head, full, g);
      if !ok {
        return;
      }
      g := g + [t];
      i := i + 1;
    }
    CloseGroup(f, data, p', out[..d'], head, full, g);
    full' := full + g;
  }

  /** Stores the header words. */
  method WriteHeader(f: Format, n: nat, out: array<byte>, capacity: nat) returns (ok: bool, d: nat)
    requires OldestFirst(f) && n < U32_LIMIT && capacity <= out.Length
    modifies out
    ensures out[capacity..] == old(out[capacity..])
    ensures ok == (|Header(f, n)| <= capacity)
    ensures ok ==> d <= capacity && out[..d] == Header(f, n)
  {
    ok, d := false, 0;
    var tag := if f.LzEx? then 0x11 else 0x10;
    if 0 < n <= 0xFFFFFF {
      if capacity >= 4 {
        StoreLe32(out, 0, n * 256 + tag, capacity);
        ok, d := true, 4;
      }
    } else if capacity >= 8 {
      StoreLe32(out, 0, tag, capacity);
      StoreLe32(out, 4, n, capacity);
      assert out[..8] == out[..4] + out[4..8];
      ok, d := true, 8;
    }
  }

  /** compress: the file is `CompressedFile` whenever it fits, and failure means that it does not. */
  method Compress(f: Format, data: seq<byte>, out: array<byte>, capacity: nat, align: nat)
    returns (ok: bool, size: nat)
    requires OldestFirst(f) && |data| < U32_LIMIT && capacity <= out.Length && align > 0
    modifies out
    ensures out[capacity..] == old(out[capacity..])
    ensures ok == (|CompressedFile(f, data, align)| <= capacity)
    ensures ok ==> size <= capacity && out[..size] == CompressedFile(f, data, align)
  {
    size := 0;
    ghost var head := Header(f, |data|);
    ghost var total := |head| + StreamSize(f, data);
    var d: nat;
    ok, d := WriteHeader(f, |data|, out, capacity);
    if !ok {
      return;
    }
    var w := new Window(4096);
    var p: nat := 0;
    ghost var full: seq<Token> := [];
    assert out[..d] == head + EncodeTokens(f, full);
    while p < |data|
      invariant p <= |data| && d <= capacity && Covers(w, f, data, p) && Apart(w, out)
      invariant fresh(w) && fresh(w.next) && fresh(w.prev) && fresh(w.first) && fresh(w.last)
      invariant AllWellFormed(f, full) && (p < |data| ==> |full| % 8 == 0)
      invariant out[..d] == head + EncodeTokens(f, full) && Encoding(f, data, p, full, [])
      invariant out[capacity..] == old(out[capacity..])
    {
      ok, p, d, full := CompressGroup(f, data, p, w, out, d, capacity, head, full);
      if !ok {
        return;
      }
    }
    assert full + [] + [] == full == Parse(f, data, 0);
    ok, size := PadOutput(out, d, capacity, align);
  }
}
