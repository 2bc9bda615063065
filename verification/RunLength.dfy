/** The run-length codec (src/runlength.cpp). */
module RunLength {
  import opened Bytes
  import opened Bounds
  import opened Output
  import opened FileForm

  // ----- Parsing -----

  /** Three equal bytes begin here. */
  predicate TripleAt(data: seq<byte>, p: nat) {
    p + 2 < |data| && data[p] == data[p + 1] == data[p + 2]
  }

  /** How many bytes from `p` on are stored as they are: up to the next triple, the end, or `room` of them. */
  function RawLength(data: seq<byte>, p: nat, room: nat): (k: nat)
    requires p <= |data|
    ensures k <= room && p + k <= |data|
    ensures k == room || p + k == |data| || TripleAt(data, p + k)
    decreases room
  {
    if room == 0 || p == |data| || TripleAt(data, p) then 0 else 1 + RawLength(data, p + 1, room - 1)
  }

  /** How many bytes from `p` on, `room` of them at most, equal `b`. */
  function SameLength(data: seq<byte>, p: nat, b: byte, room: nat): (k: nat)
    requires p <= |data|
    ensures k <= room && p + k <= |data| && forall i :: p <= i < p + k ==> data[i] == b
    decreases room
  {
    if room == 0 || p == |data| || data[p] != b then 0 else 1 + SameLength(data, p + 1, b, room - 1)
  }

  /** The length of the run at `p`. */
  function RunLengthAt(data: seq<byte>, p: nat): (n: nat)
    requires TripleAt(data, p)
    ensures 3 <= n <= 130 && p + n <= |data| && forall i :: p <= i < p + n ==> data[i] == data[p]
  {
    3 + SameLength(data, p + 3, data[p], 127)
  }

  lemma {:induction false} SameIsMaximal(data: seq<byte>, p: nat, b: byte, room: nat)
    requires p <= |data|
    ensures var k := SameLength(data, p, b, room); k == room || p + k == |data| || data[p + k] != b
    decreases room
  {
    if room > 0 && p < |data| && data[p] == b {
      SameIsMaximal(data, p + 1, b, room - 1);
    }
  }

  /** A run goes on as long as the byte is the same: it ends at 130 bytes, at the end, or before another byte. */
  lemma RunIsMaximal(data: seq<byte>, p: nat)
    requires TripleAt(data, p)
    ensures var n := RunLengthAt(data, p); n == 130 || p + n == |data| || data[p + n] != data[p]
  {
    SameIsMaximal(data, p + 3, data[p], 127);
  }

  /** Bytes stay as they are only where no triple begins. */
  lemma {:induction false} RawIsFree(data: seq<byte>, p: nat, room: nat)
    requires p <= |data|
    ensures forall i :: p <= i < p + RawLength(data, p, room) ==> !TripleAt(data, i)
    decreases room
  {
    if room > 0 && p < |data| && !TripleAt(data, p) {
      RawIsFree(data, p + 1, room - 1);
    }
  }

  function RawBytes(raw: seq<byte>): (s: seq<byte>)
    requires 0 < |raw| <= 128
    ensures |s| == |raw| + 1
  {
    [|raw| - 1] + raw
  }

  function RunBytes(b: byte, n: nat): (s: seq<byte>)
    requires 3 <= n <= 130
    ensures |s| == 2
  {
    [0x80 + (n - 3), b]
  }

  /** Where the next piece ends: a run where a triple begins, and otherwise bytes that stay as they are. */
  function PieceEnd(data: seq<byte>, p: nat): (q: nat)
    requires p < |data|
    ensures p < q <= |data|
    ensures TripleAt(data, p) ==> IsRun(data, p, q)
    ensures !TripleAt(data, p) ==> q - p <= 128
  {
    if TripleAt(data, p) then p + RunLengthAt(data, p) else p + RawLength(data, p, 128)
  }

  predicate IsRun(data: seq<byte>, p: nat, q: nat) {
    3 <= q - p <= 130 && q <= |data| && forall i :: p <= i < q ==> data[i] == data[p]
  }

  function Piece(data: seq<byte>, p: nat, q: nat): (s: seq<byte>)
    requires p < q <= |data| && if TripleAt(data, p) then IsRun(data, p, q) else q - p <= 128
  {
    if TripleAt(data, p) then RunBytes(data[p], q - p) else RawBytes(data[p..q])
  }

  function Encoded(data: seq<byte>, p: nat): seq<byte>
    requires p <= |data|
    decreases |data| - p
  {
    if p == |data| then [] else Piece(data, p, PieceEnd(data, p)) + Encoded(data, PieceEnd(data, p))
  }

  // ----- Expanding -----

  /** What the decoder makes of a stream: it may refuse it, or read beyond it, which it does not check. */
  datatype Outcome = Expanded(data: seq<byte>) | Refused | Overrun

  function Expand(c: seq<byte>, s: nat, done: seq<byte>, n: nat): Outcome
    requires s <= |c| && |done| <= n
    decreases n - |done|
  {
    if |done| == n then Expanded(done)
    else if s == |c| then Refused
    else
      var x := c[s] as int;
      if x < 0x80 then
        if x + 1 > n - |done| then Refused
        else if s + 1 + (x + 1) > |c| then Overrun
        else Expand(c, s + 1 + (x + 1), done + c[s + 1..s + 1 + (x + 1)], n)
      else if x - 0x80 + 3 > n - |done| then Refused
      else if s + 2 > |c| then Overrun
      else Expand(c, s + 2, done + Repeated(c[s + 1], x - 0x80 + 3), n)
  }

  /** The bytes `e` stand in `c` from `s` on. */
  predicate Stands(c: seq<byte>, s: nat, e: seq<byte>) { s + |e| <= |c| && c[s..s + |e|] == e }

  lemma StandsParts(c: seq<byte>, s: nat, a: seq<byte>, b: seq<byte>)
    requires Stands(c, s, a + b)
    ensures Stands(c, s, a) && Stands(c, s + |a|, b)
  {
    var e := c[s..s + |a + b|];
    assert e[..|a|] == c[s..s + |a|] && e[|a|..] == c[s + |a|..s + |a| + |b|];
  }

  lemma ExpandRaw(c: seq<byte>, s: nat, done: seq<byte>, n: nat, raw: seq<byte>, rest: seq<byte>)
    requires s <= |c| && 0 < |raw| <= 128 && |done| + |raw| <= n && Stands(c, s, RawBytes(raw) + rest)
    ensures Stands(c, s + |raw| + 1, rest)
    ensures Expand(c, s, done, n) == Expand(c, s + |raw| + 1, done + raw, n)
  {
    StandsParts(c, s, RawBytes(raw), rest);
    StandsParts(c, s, [|raw| - 1], raw);
    assert c[s..s + 1] == [c[s]];
  }

  lemma ExpandRun(c: seq<byte>, s: nat, done: seq<byte>, n: nat, b: byte, run: nat, rest: seq<byte>)
    requires s <= |c| && 3 <= run <= 130 && |done| + run <= n && Stands(c, s, RunBytes(b, run) + rest)
    ensures Stands(c, s + 2, rest)
    ensures Expand(c, s, done, n) == Expand(c, s + 2, done + Repeated(b, run), n)
  {
    StandsParts(c, s, RunBytes(b, run), rest);
    var e := c[s..s + 2];
    assert e[0] == c[s] && e[1] == c[s + 1];
  }

  /** Decoding a stored piece of the data moves on by that piece. */
  lemma RawNext(data: seq<byte>, p: nat, k: nat, c: seq<byte>, s: nat, rest: seq<byte>)
    requires p + k <= |data| && 0 < k <= 128 && s <= |c| && Stands(c, s, RawBytes(data[p..p + k]) + rest)
    ensures Stands(c, s + k + 1, rest)
    ensures Expand(c, s, data[..p], |data|) == Expand(c, s + k + 1, data[..p + k], |data|)
  {
    ExpandRaw(c, s, data[..p], |data|, data[p..p + k], rest);
    assert data[..p] + data[p..p + k] == data[..p + k];
  }

  lemma RunNext(data: seq<byte>, p: nat, n: nat, c: seq<byte>, s: nat, rest: seq<byte>)
    requires p + n <= |data| && 3 <= n <= 130 && forall i :: p <= i < p + n ==> data[i] == data[p]
    requires s <= |c| && Stands(c, s, RunBytes(data[p], n) + rest)
    ensures Stands(c, s + 2, rest)
    ensures Expand(c, s, data[..p], |data|) == Expand(c, s + 2, data[..p + n], |data|)
  {
    ExpandRun(c, s, data[..p], |data|, data[p], n, rest);
    assert data[..p] + Repeated(data[p], n) == data[..p + n];
  }

  /** Where the decoder stands after a piece. */
  lemma PieceNext(data: seq<byte>, p: nat, q: nat, c: seq<byte>, s: nat, rest: seq<byte>) returns (s': nat)
    requires p < q <= |data| && (if TripleAt(data, p) then IsRun(data, p, q) else q - p <= 128)
    requires s <= |c| && Stands(c, s, Piece(data, p, q) + rest)
    ensures s' <= |c| && Stands(c, s', rest)
    ensures Expand(c, s, data[..p], |data|) == Expand(c, s', data[..q], |data|)
  {
    if TripleAt(data, p) {
      RunNext(data, p, q - p, c, s, rest);
      s' := s + 2;
    } else {
      RawNext(data, p, q - p, c, s, rest);
      s' := s + (q - p) + 1;
    }
  }

  lemma {:induction false} ExpandEncoded(data: seq<byte>, p: nat, c: seq<byte>, s: nat)
    requires p <= |data| && s <= |c| && Stands(c, s, Encoded(data, p))
    ensures Expand(c, s, data[..p], |data|) == Expanded(data)
    decreases |data| - p
  {
    if p == |data| {
      assert data[..p] == data;
    } else {
      var q := PieceEnd(data, p);
      var s' := PieceNext(data, p, q, c, s, Encoded(data, q));
      ExpandEncoded(data, q, c, s');
    }
  }

  /** How long the stream of `m` bytes can get: one byte more for every 128, full or not. */
  function LongestStream(m: nat): nat { m + (m + 127) / 128 }

  lemma LongestSplit(m: nat, k: nat)
    requires 0 < k <= m
    ensures LongestStream(m - k) + k <= LongestStream(m)
    ensures k == 128 || k == m <= 128 ==> LongestStream(m - k) + k + 1 == LongestStream(m)
  {
  }

  /** A run saves a byte at least; a raw piece costs one more, and is full, or the last, or followed by a run. */
  lemma PieceCost(data: seq<byte>, p: nat, q: nat)
    requires p < |data| && q == PieceEnd(data, p)
    ensures TripleAt(data, p) ==> |Piece(data, p, q)| + 1 <= q - p
    ensures !TripleAt(data, p) ==>
      |Piece(data, p, q)| == q - p + 1 && (q - p == 128 || q == |data| || TripleAt(data, q))
  {
  }

  lemma LongestWithPiece(m: nat, k: nat, piece: nat, rest: nat, runHere: bool, runNext: bool)
    requires 0 < k <= m && rest + (if runNext then 1 else 0) <= LongestStream(m - k)
    requires if runHere then piece + 1 <= k else piece == k + 1 && k <= 128 && (k == 128 || k == m || runNext)
    ensures piece + rest + (if runHere then 1 else 0) <= LongestStream(m)
  {
    LongestSplit(m, k);
  }

  /** No stream is longer; one that begins with a run is shorter. */
  lemma {:induction false} EncodedBound(data: seq<byte>, p: nat)
    requires p <= |data|
    ensures |Encoded(data, p)| + (if TripleAt(data, p) then 1 else 0) <= LongestStream(|data| - p)
    decreases |data| - p
  {
    if p < |data| {
      var q := PieceEnd(data, p);
      EncodedBound(data, q);
      PieceCost(data, p, q);
      LongestWithPiece(
        |data| - p, q - p, |Piece(data, p, q)|, |Encoded(data, q)|, TripleAt(data, p), TripleAt(data, q));
    }
  }

  /** Data without runs. */
  function Alternating(n: nat): (d: seq<byte>)
    ensures |d| == n && forall p :: 0 <= p < n ==> !TripleAt(d, p)
  {
    seq(n, i requires 0 <= i < n => i % 2)
  }

  lemma {:induction false} NoTripleAhead(data: seq<byte>, p: nat, room: nat)
    requires p <= |data| && forall i :: p <= i < |data| ==> !TripleAt(data, i)
    ensures RawLength(data, p, room) == Min(room, |data| - p)
    decreases room
  {
    if room > 0 && p < |data| {
      NoTripleAhead(data, p + 1, room - 1);
    }
  }

  /** Its stream is the longest. */
  lemma {:induction false} LongestReached(data: seq<byte>, p: nat)
    requires p <= |data| && forall i :: 0 <= i < |data| ==> !TripleAt(data, i)
    ensures |Encoded(data, p)| == LongestStream(|data| - p)
    decreases |data| - p
  {
    if p < |data| {
      NoTripleAhead(data, p, 128);
      var q := PieceEnd(data, p);
      LongestReached(data, q);
      LongestSplit(|data| - p, q - p);
    }
  }

  /** The stream of `m` equal bytes: runs of 130, and what is left. */
  function ConstantStream(b: byte, m: nat): seq<byte> {
    if m == 0 then []
    else if m < 3 then [m - 1] + Repeated(b, m)
    else if m <= 130 then [0x80 + (m - 3), b]
    else [0xFF, b] + ConstantStream(b, m - 130)
  }

  /** Equal bytes are stored exactly so. */
  lemma {:induction false} ConstantEncoded(b: byte, n: nat, p: nat)
    requires p <= n
    ensures Encoded(Repeated(b, n), p) == ConstantStream(b, n - p)
    decreases n - p
  {
    var data := Repeated(b, n);
    if p < n {
      if n < p + 3 {
        NoTripleAhead(data, p, 128);
        assert data[p..n] == Repeated(b, n - p);
      } else {
        RunIsMaximal(data, p);
        ConstantEncoded(b, n, PieceEnd(data, p));
      }
    }
  }

  // ----- The file -----

  function Header(n: nat): (s: seq<byte>)
    requires n < U32_LIMIT
    ensures |s| == HeaderSize(n)
  {
    SizeHeader(0x30, n)
  }

  function CompressedFile(data: seq<byte>, align: nat): seq<byte>
    requires |data| < U32_LIMIT && align > 0
  {
    PadTo(Header(|data|) + Encoded(data, 0), align)
  }

  /** A file begins with the tag 0x30 and the size, and is padded with zeros. */
  lemma FileFormed(data: seq<byte>, align: nat)
    requires |data| < U32_LIMIT && align > 0
    ensures TaggedSize(CompressedFile(data, align), 0x30, |data|)
    ensures ZeroPadded(CompressedFile(data, align), Header(|data|) + Encoded(data, 0), align)
  {
    var s := Header(|data|) + Encoded(data, 0);
    PadsWithZeros(s, align);
    SizeHeaderStands(0x30, |data|, Encoded(data, 0));
    PrefixTagged(s, CompressedFile(data, align), 0x30, |data|);
  }

  /** Where the stream begins and how long the data is. */
  function ReadHeader(c: seq<byte>): (r: Option<(nat, nat)>)
    ensures r.Some? ==> r.value.0 <= |c|
  {
    if |c| >= 4 && c[0] == 0x30 then
      var short := FromLe32(c[..4]) / 256;
      if short != 0 then Some((4, short)) else if |c| >= 8 then Some((8, FromLe32(c[4..8]))) else None
    else None
  }

  function Decompressed(c: seq<byte>, capacity: nat): Outcome {
    match ReadHeader(c)
    case None => Refused
    case Some(h) => if capacity < h.1 then Refused else Expand(c, h.0, [], h.1)
  }

  lemma ReadWrittenHeader(n: nat, rest: seq<byte>)
    requires n < U32_LIMIT
    ensures ReadHeader(Header(n) + rest) == Some((HeaderSize(n), n))
  {
    var c := Header(n) + rest;
    if 0 < n <= 0xFFFFFF {
      Le32RoundTrip(n * 256 + 0x30);
      assert c[..4] == Le32(n * 256 + 0x30) && (n * 256 + 0x30) / 256 == n;
    } else {
      Le32RoundTrip(0x30);
      Le32RoundTrip(n);
      assert c[..4] == Le32(0x30) && c[4..8] == Le32(n);
    }
  }

  /** The codec's round trip: every input and every alignment. */
  lemma RoundTrip(data: seq<byte>, align: nat, capacity: nat)
    requires |data| < U32_LIMIT && align > 0 && capacity >= |data|
    ensures Decompressed(CompressedFile(data, align), capacity) == Expanded(data)
  {
    var c, head, e := CompressedFile(data, align), Header(|data|), Encoded(data, 0);
    assert (head + e)[|head|..] == e;
    assert c == head + c[|head|..] && c[|head|..|head| + |e|] == e;
    ReadWrittenHeader(|data|, c[|head|..]);
    ExpandEncoded(data, 0, c, |head|);
    assert data[..0] == [];
  }

  // ----- The bound -----

  /** GetCompressBoundSize, in 32-bit arithmetic. */
  function BoundSize(n: nat, align: nat): nat
    requires n < U32_LIMIT && 0 < align < U32_LIMIT
  {
    Rounded(HeaderSize(n) + n * 2 % U32_LIMIT, align)
  }

  /** The size of the longest file before the padding. */
  function LongestFile(n: nat): nat { HeaderSize(n) + LongestStream(n) }

  /** A buffer of the size the bound names is always large enough when the bound does not wrap. */
  lemma BoundSuffices(data: seq<byte>, align: nat)
    requires |data| < U32_LIMIT && 0 < align && HeaderSize(|data|) + |data| * 2 + align - 1 < U32_LIMIT
    ensures |CompressedFile(data, align)| <= BoundSize(|data|, align)
  {
    var n := |data|;
    ProductWraps(n * 2);
    RoundedOrWrapped(HeaderSize(n) + n * 2, HeaderSize(n) + n * 2 % U32_LIMIT, align);
    EncodedBound(data, 0);
    AlignMonotone(|Header(n) + Encoded(data, 0)|, HeaderSize(n) + n * 2, align);
  }

  /** A buffer of the size the bound names is large enough for all data of that size if and only if it has room for
      the longest file. */
  lemma BoundSufficesIff(n: nat, align: nat)
    requires n < U32_LIMIT && 0 < align < U32_LIMIT
    ensures
      (forall data: seq<byte> :: |data| == n ==> |CompressedFile(data, align)| <= BoundSize(n, align))
      <==> Align(LongestFile(n), align) <= BoundSize(n, align)
  {
    forall data: seq<byte> | |data| == n ensures |CompressedFile(data, align)| <= Align(LongestFile(n), align) {
      FileBound(data, align);
    }
    LongestFileReached(n, align);
  }

  lemma FileBound(data: seq<byte>, align: nat)
    requires |data| < U32_LIMIT && 0 < align
    ensures |CompressedFile(data, align)| <= Align(LongestFile(|data|), align)
  {
    EncodedBound(data, 0);
    AlignMonotone(|Header(|data|) + Encoded(data, 0)|, LongestFile(|data|), align);
  }

  lemma LongestFileReached(n: nat, align: nat)
    requires n < U32_LIMIT && 0 < align
    ensures |CompressedFile(Alternating(n), align)| == Align(LongestFile(n), align)
  {
    LongestReached(Alternating(n), 0);
  }

  /** There are sizes for which it is too small whatever the data: two gigabytes. */
  lemma BoundWraps(data: seq<byte>)
    requires |data| == 0x8000_0000
    ensures BoundSize(|data|, 1) == 8 < |CompressedFile(data, 1)|
  {
    SomeStream(data);
    WrappedBound(|data|);
  }

  lemma SomeStream(data: seq<byte>)
    requires 0xFFFFFF < |data| < U32_LIMIT
    ensures |CompressedFile(data, 1)| > 8
  {
    assert |Encoded(data, 0)| > 0;
  }

  lemma WrappedBound(n: nat)
    requires n == 0x8000_0000
    ensures BoundSize(n, 1) == 8
  {
  }

  // ----- The decoder -----

  /** Uncompress, for streams that it does not read beyond. */
  method Uncompress(c: seq<byte>, out: array<byte>, capacity: nat) returns (ok: bool, size: nat)
    requires capacity <= out.Length && Decompressed(c, capacity) != Overrun
    modifies out
    ensures out[capacity..] == old(out[capacity..])
    ensures ok == Decompressed(c, capacity).Expanded?
    ensures ok ==> size <= capacity && Decompressed(c, capacity) == Expanded(out[..size])
  {
    ok, size := false, 0;
    if |c| >= 4 && c[0] == 0x30 {
      var n, head := FromLe32(c[..4]) / 256, 4;
      if n != 0 || |c| >= 8 {
        if n == 0 {
          n, head := FromLe32(c[4..8]), 8;
        }
        if capacity >= n {
          size := n;
          ok := ExpandStream(c, head, out, n);
          assert out[capacity..] == out[n..][capacity - n..];
        }
      }
    }
  }

  method ExpandStream(c: seq<byte>, start: nat, out: array<byte>, n: nat) returns (ok: bool)
    requires start <= |c| && n <= out.Length && Expand(c, start, [], n) != Overrun
    modifies out
    ensures out[n..] == old(out[n..])
    ensures ok == Expand(c, start, [], n).Expanded?
    ensures ok ==> Expand(c, start, [], n) == Expanded(out[..n])
  {
    var s: nat, d: nat := start, 0;
    ghost var result := Expand(c, start, [], n);
    while d < n
      invariant s <= |c| && d <= n && out[n..] == old(out[n..])
      invariant Expand(c, s, out[..d], n) == result
      decreases n - d
    {
      if |c| - s < 1 {
        return false;
      }
      var x := c[s] as int;
      var len := if x < 0x80 then x + 1 else x - 0x80 + 3;
      if len > n - d {
        return false;
      }
      s := s + 1;
      if x < 0x80 {
        CopyRaw(c, s, out, d, len);
        s := s + len;
      } else {
        FillRun(c[s], out, d, len);
        s := s + 1;
      }
      assert out[n..] == out[d + len..][n - d - len..];
      d := d + len;
    }
    ok := true;
  }

  method CopyRaw(c: seq<byte>, s: nat, out: array<byte>, d: nat, len: nat)
    requires s + len <= |c| && d + len <= out.Length
    modifies out
    ensures out[..d + len] == old(out[..d]) + c[s..s + len] && out[d + len..] == old(out[d + len..])
  {
    for j := 0 to len
      invariant out[..d + j] == old(out[..d]) + c[s..s + j] && out[d + len..] == old(out[d + len..])
    {
      out[d + j] := c[s + j];
      assert out[..d + j + 1] == out[..d + j] + [c[s + j]];
    }
  }

  method FillRun(b: byte, out: array<byte>, d: nat, len: nat)
    requires d + len <= out.Length
    modifies out
    ensures out[..d + len] == old(out[..d]) + Repeated(b, len) && out[d + len..] == old(out[d + len..])
  {
    for j := 0 to len
      invariant out[..d + j] == old(out[..d]) + Repeated(b, j) && out[d + len..] == old(out[d + len..])
    {
      out[d + j] := b;
      assert out[..d + j + 1] == out[..d + j] + [b];
    }
  }

  // ----- The encoder -----

  /** The first inner loop: how many bytes stay as they are, and whether a run follows. */
  method ScanRaw(data: seq<byte>, p: nat) returns (raw: nat, run: bool)
    requires p < |data|
    ensures raw == RawLength(data, p, 128) && run == (raw < 128 && TripleAt(data, p + raw))
    ensures forall i :: p <= i < p + raw ==> !TripleAt(data, i)
  {
    RawIsFree(data, p, 128);
    raw, run := 0, false;
    var limit := 128;
    while raw < limit
      invariant raw <= limit && p + raw <= |data|
      invariant RawLength(data, p, limit) == raw + RawLength(data, p + raw, limit - raw)
    {
      if |data| - (p + raw) <= 0 {
        return;
      }
      if |data| - (p + raw) > 2 {
        if data[p + raw + 1] == data[p + raw] && data[p + raw + 2] == data[p + raw] {
          run := true;
          return;
        }
      }
      raw := raw + 1;
    }
  }

  /** What the scan has found is the next piece, and perhaps the beginning of another. */
  lemma Scanned(data: seq<byte>, p: nat, raw: nat, run: bool)
    requires p < |data| && raw == RawLength(data, p, 128) && run == (raw < 128 && TripleAt(data, p + raw))
    ensures p + raw <= |data| && (raw == 0 ==> run) && (run ==> TripleAt(data, p + raw))
    ensures raw != 0 ==> !TripleAt(data, p) && p + raw == PieceEnd(data, p)
  {
  }

  /** The second inner loop: how long the run is. */
  method ScanRun(data: seq<byte>, p: nat) returns (run: nat)
    requires TripleAt(data, p)
    ensures run == RunLengthAt(data, p) && (run == 130 || p + run == |data| || data[p + run] != data[p])
  {
    run := 3;
    while run < 0x7F + 3
      invariant 3 <= run <= 130 && p + run <= |data|
      invariant RunLengthAt(data, p) == run + SameLength(data, p + run, data[p], 130 - run)
    {
      if |data| - (p + run) <= 0 || data[p + run] != data[p] {
        return;
      }
      run := run + 1;
    }
  }

  /** Stores the bytes from `p` to `q` as they are. */
  method WriteRaw(data: seq<byte>, p: nat, q: nat, out: array<byte>, d: nat, capacity: nat) returns (ok: bool, d': nat)
    requires p < q <= |data| && q - p <= 128 && d <= capacity <= out.Length
    modifies out
    ensures out[capacity..] == old(out[capacity..])
    ensures d' == d + |RawBytes(data[p..q])| && ok == (d' <= capacity)
    ensures ok ==> out[..d'] == old(out[..d]) + RawBytes(data[p..q])
  {
    d' := d + 1 + (q - p);
    if capacity - d < q - p + 1 {
      return false, d';
    }
    out[d] := q - p - 1;
    assert out[..d + 1] == old(out[..d]) + [q - p - 1];
    CopyRaw(data, p, out, d + 1, q - p);
    assert out[capacity..] == out[d + 1 + (q - p)..][capacity - (d + 1 + (q - p))..];
    ok := true;
  }

  /** Stores a run. */
  method WriteRun(b: byte, run: nat, out: array<byte>, d: nat, capacity: nat) returns (ok: bool)
    requires 3 <= run <= 130 && d <= capacity <= out.Length
    modifies out
    ensures out[capacity..] == old(out[capacity..])
    ensures ok == (d + 2 <= capacity)
    ensures ok ==> out[..d + 2] == old(out[..d]) + RunBytes(b, run)
  {
    if capacity - d < 2 {
      return false;
    }
    out[d] := 0x80 + (run - 3);
    out[d + 1] := b;
    ok := true;
  }

  /** What is written and what is still to be written make up `total`. */
  ghost predicate Towards(written: seq<byte>, data: seq<byte>, p: nat, total: seq<byte>)
    requires p <= |data|
  {
    written + Encoded(data, p) == total
  }

  /** The next piece brings the output nearer to `total`, which has room for it. */
  lemma PieceBegins(written: seq<byte>, data: seq<byte>, p: nat, q: nat, piece: seq<byte>, total: seq<byte>)
    requires p < |data| && q == PieceEnd(data, p) && piece == Piece(data, p, q) && Towards(written, data, p, total)
    ensures Towards(written + piece, data, q, total) && |written| + |piece| <= |total|
  {
    Associate(written, piece, Encoded(data, q));
  }

  method WritePiece(data: seq<byte>, p: nat, q: nat, out: array<byte>, d: nat, capacity: nat, ghost total: seq<byte>)
    returns (ok: bool, d': nat)
    requires p < |data| && !TripleAt(data, p) && q == PieceEnd(data, p)
    requires d <= capacity <= out.Length && Towards(out[..d], data, p, total)
    modifies out
    ensures out[capacity..] == old(out[capacity..])
    ensures !ok ==> |total| > capacity
    ensures ok ==> d' <= capacity && Towards(out[..d'], data, q, total)
  {
    PieceBegins(out[..d], data, p, q, RawBytes(data[p..q]), total);
    ok, d' := WriteRaw(data, p, q, out, d, capacity);
  }

  /** The first part of a turn: the bytes that stay as they are. */
  method RawPart(data: seq<byte>, p: nat, q: nat, out: array<byte>, d: nat, capacity: nat, ghost total: seq<byte>)
    returns (ok: bool, d': nat)
    requires p <= q <= |data| && d <= capacity <= out.Length && Towards(out[..d], data, p, total)
    requires q != p ==> !TripleAt(data, p) && q == PieceEnd(data, p)
    modifies out
    ensures out[capacity..] == old(out[capacity..])
    ensures !ok ==> |total| > capacity
    ensures ok ==> d' <= capacity && Towards(out[..d'], data, q, total)
  {
    ok, d' := true, d;
    if q != p {
      ok, d' := WritePiece(data, p, q, out, d, capacity, total);
    }
  }

  /** The second part of a turn: the run. */
  method RunPart(data: seq<byte>, p: nat, out: array<byte>, d: nat, capacity: nat, ghost total: seq<byte>)
    returns (ok: bool, q: nat, d': nat)
    requires TripleAt(data, p) && d <= capacity <= out.Length && Towards(out[..d], data, p, total)
    modifies out
    ensures out[capacity..] == old(out[capacity..])
    ensures !ok ==> |total| > capacity
    ensures ok ==> p < q <= |data| && d' <= capacity && Towards(out[..d'], data, q, total)
  {
    var run := ScanRun(data, p);
    q, d' := p + run, d + 2;
    PieceBegins(out[..d], data, p, q, RunBytes(data[p], run), total);
    ok := WriteRun(data[p], run, out, d, capacity);
  }

  /** One turn of the encoding loop. */
  method CompressItem(data: seq<byte>, p: nat, out: array<byte>, d: nat, capacity: nat, ghost total: seq<byte>)
    returns (ok: bool, p': nat, d': nat)
    requires p < |data| && d <= capacity <= out.Length && Towards(out[..d], data, p, total)
    modifies out
    ensures out[capacity..] == old(out[capacity..])
    ensures !ok ==> |total| > capacity
    ensures ok ==> p < p' <= |data| && d' <= capacity && Towards(out[..d'], data, p', total)
  {
    var raw, isRun := ScanRaw(data, p);
    Scanned(data, p, raw, isRun);
    p' := p + raw;
    ok, d' := RawPart(data, p, p', out, d, capacity, total);
    if ok {
      if isRun {
        ok, p', d' := RunPart(data, p', out, d', capacity, total);
      }
    }
  }

  method WriteHeader(n: nat, out: array<byte>, capacity: nat) returns (ok: bool, d: nat)
    requires n < U32_LIMIT && capacity <= out.Length
    modifies out
    ensures out[capacity..] == old(out[capacity..])
    ensures ok == (HeaderSize(n) <= capacity)
    ensures ok ==> d <= capacity && out[..d] == Header(n)
  {
    ok, d := false, 0;
    if 0 < n <= 0xFFFFFF {
      if capacity >= 4 {
        StoreLe32(out, 0, n * 256 + 0x30, capacity);
        ok, d := true, 4;
      }
    } else if capacity >= 8 {
      StoreLe32(out, 0, 0x30, capacity);
      StoreLe32(out, 4, n, capacity);
      assert out[..8] == out[..4] + out[4..8];
      ok, d := true, 8;
    }
  }

  /** Compress: the file is `CompressedFile` whenever it fits, and failure means that it does not. */
  method Compress(data: seq<byte>, out: array<byte>, capacity: nat, align: nat) returns (ok: bool, size: nat)
    requires |data| < U32_LIMIT && capacity <= out.Length && align > 0
    modifies out
    ensures out[capacity..] == old(out[capacity..])
    ensures ok == (|CompressedFile(data, align)| <= capacity)
    ensures ok ==> size <= capacity && out[..size] == CompressedFile(data, align)
  {
    size := 0;
    ghost var total := Header(|data|) + Encoded(data, 0);
    var d: nat, p: nat := 0, 0;
    ok, d := WriteHeader(|data|, out, capacity);
    if !ok {
      return;
    }
    while p < |data|
      invariant p <= |data| && d <= capacity && out[capacity..] == old(out[capacity..])
      invariant Towards(out[..d], data, p, total)
    {
      ok, p, d := CompressItem(data, p, out, d, capacity, total);
      if !ok {
        return;
      }
    }
    assert out[..d] == total;
    ok, size := PadOutput(out, d, capacity, align);
  }
}
