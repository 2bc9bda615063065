/** Backward LZ77 (src/backwardlz77.cpp): what `Compress` produces, what the in-place decoder does, and
    why expanding over the compressed bytes is safe. Positions count from the start of the buffer; both
    loops run towards it. */
module BackwardLz77 {
  import opened Bytes
  import opened FlagGroups
  import opened TokenStream
  import opened GreedyParse
  import opened StreamWriter

  const FOOTER: nat := 8

  // ----- The encoder's stream -----

  /** The greedy parse, from the end of the data towards its start. */
  function Stream(data: seq<byte>): (toks: seq<Token>)
    ensures AllWellFormed(Blz, toks)
  {
    ParseDescribes(Blz, Rev(data), 0);
    Parse(Blz, Rev(data), 0)
  }

  /** How many tokens, from the `k`-th on, fit into `room` bytes. */
  function FitCount(items: seq<Item>, k: nat, room: nat): (r: nat)
    requires k <= |items|
    ensures k <= r <= |items|
    ensures r < |items| ==> Pos(items, r + 1) > room
    ensures Pos(items, k) <= room ==> Pos(items, r) <= room
    decreases |items| - k
  {
    if k == |items| || Pos(items, k + 1) > room then k else FitCount(items, k + 1, room)
  }

  lemma {:induction false} FitCountIs(items: seq<Item>, j: nat, k: nat, room: nat)
    requires j <= k <= |items| && Pos(items, k) <= room
    requires k == |items| || Pos(items, k + 1) > room
    ensures FitCount(items, j, room) == k
    decreases k - j
  {
    if j < k {
      PosMonotone(items, j + 1, k);
      FitCountIs(items, j + 1, k, room);
    }
  }

  datatype Emission = Overflow | Emitted(count: nat)

  /** The encode loop: it stops early, reporting success, when the output fills at a flag boundary. */
  function Emit(data: seq<byte>): (r: Emission)
    ensures r.Emitted? ==> r.count <= |Stream(data)|
  {
    var items := Items(Blz, Stream(data));
    var k := FitCount(items, 0, |data|);
    if k < |items| && (k % 8 != 0 || Pos(items, k) < |data|) then Overflow else Emitted(k)
  }

  // ----- The safety scan -----

  /** Output still to be produced, and stream still to be read, after `i` tokens. */
  function OrigLeft(n: nat, toks: seq<Token>, i: nat): int
    requires i <= |toks|
  {
    n - SpanSum(toks, i)
  }

  function CompLeft(toks: seq<Token>, i: nat): nat
    requires AllWellFormed(Blz, toks) && i <= |toks|
  {
    PosMonotone(Items(Blz, toks), i, i);
    |EncodeTokens(Blz, toks)| - Pos(Items(Blz, toks), i)
  }

  predicate IsCut(n: nat, toks: seq<Token>, i: nat)
    requires AllWellFormed(Blz, toks) && 0 < i <= |toks|
  {
    toks[i - 1].Match? && OrigLeft(n, toks, i) < CompLeft(toks, i)
  }

  /** The first cut point after token `i`: the first match that leaves less output than stream. */
  function FirstCut(n: nat, toks: seq<Token>, i: nat): (r: Option<nat>)
    requires AllWellFormed(Blz, toks) && i <= |toks|
    ensures r.Some? ==> i < r.value <= |toks| && IsCut(n, toks, r.value)
    ensures forall j :: i < j <= |toks| && (r.Some? ==> j < r.value) ==> !IsCut(n, toks, j)
    decreases |toks| - i
  {
    if i == |toks| then None
    else if IsCut(n, toks, i + 1) then Some(i + 1)
    else FirstCut(n, toks, i + 1)
  }

  // ----- The file -----

  /** `orig` bytes kept verbatim, the stream without its `comp` last bytes, padding and footer. */
  function FileSize(e: seq<byte>, orig: nat, comp: nat): nat
    requires comp <= |e|
  {
    Align(orig + |e| - comp, 4) + FOOTER
  }

  function Footer(n: nat, size: nat, orig: nat, pad: nat): (s: seq<byte>)
    requires orig <= pad <= size <= n < U32_LIMIT && size - orig <= 0xFFFFFF && size - pad < 256
    ensures |s| == FOOTER
  {
    Le32(size - orig + (size - pad) * 0x100_0000) + Le32(n - size)
  }

  function Fill(k: nat): (s: seq<byte>)
    ensures |s| == k
  {
    seq(k, _ => 0xFF)
  }

  function Assemble(data: seq<byte>, e: seq<byte>, orig: nat, comp: nat): (s: seq<byte>)
    requires comp <= |e| && orig <= |data| < U32_LIMIT
    requires FileSize(e, orig, comp) <= |data| && FileSize(e, orig, comp) - orig <= 0xFFFFFF
    ensures |s| == FileSize(e, orig, comp)
  {
    var pad := orig + |e| - comp;
    data[..orig] + Rev(e)[comp..] + Fill(Align(pad, 4) - pad)
      + Footer(|data|, FileSize(e, orig, comp), orig, pad)
  }

  /** Done, refused, or the safety scan reading outside its buffer. */
  datatype Outcome = Refused | RunsOff | Done(file: seq<byte>)

  /** What Compress makes of `data`, given room for at least as many bytes. */
  function Compressed(data: seq<byte>): Outcome
    requires |data| < U32_LIMIT
  {
    if |data| <= FOOTER then Refused
    else
      match Emit(data)
      case Overflow => Refused
      case Emitted(count) =>
        var toks := Stream(data)[..count];
        StreamWithin(data, count, count);
        match FirstCut(|data|, toks, 0)
        case None => if count < |Stream(data)| then RunsOff else Finish(data, toks, |toks|)
        case Some(cut) =>
          StreamWithin(data, count, cut);
          Finish(data, toks, cut)
  }

  function Finish(data: seq<byte>, toks: seq<Token>, cut: nat): Outcome
    requires |data| < U32_LIMIT && AllWellFormed(Blz, toks) && cut <= |toks| && OrigLeft(|data|, toks, cut) >= 0
  {
    var e, orig, comp := EncodeTokens(Blz, toks), OrigLeft(|data|, toks, cut), CompLeft(toks, cut);
    var size := FileSize(e, orig, comp);
    if size >= |data| || size - orig > 0xFFFFFF then Refused else Done(Assemble(data, e, orig, comp))
  }

  /** A prefix of the stream stands for no more bytes than there are. */
  lemma StreamWithin(data: seq<byte>, count: nat, i: nat)
    requires i <= count <= |Stream(data)|
    ensures OrigLeft(|data|, Stream(data)[..count], i) >= 0
    ensures count == |Stream(data)| == i ==> OrigLeft(|data|, Stream(data)[..count], i) == 0
    ensures Stream(data)[..count][..i] == Stream(data)[..i]
  {
    var toks := Stream(data);
    ParseDescribes(Blz, Rev(data), 0);
    SpanSumPrefix(toks, count, i);
    SpanSumOfDescribed(Blz, Rev(data), 0, toks, i);
    SpanSumOfDescribed(Blz, Rev(data), 0, toks, |toks|);
    SpanSumMonotone(toks, i, |toks|);
    assert toks[..|toks|] == toks;
  }

  lemma {:induction false} SpanSumPrefix(toks: seq<Token>, count: nat, i: nat)
    requires i <= count <= |toks|
    ensures SpanSum(toks[..count], i) == SpanSum(toks, i)
  {
    if i > 0 {
      SpanSumPrefix(toks, count, i - 1);
    }
  }

  lemma {:induction false} SpanSumMonotone(toks: seq<Token>, i: nat, j: nat)
    requires i <= j <= |toks|
    ensures SpanSum(toks, i) <= SpanSum(toks, j)
    decreases j
  {
    if i < j {
      SpanSumMonotone(toks, i, j - 1);
    }
  }

  // ----- The in-place decoder -----

  /** Copies `len` bytes downwards from `off` above, one at a time. */
  function CopyDown(buf: seq<byte>, d: nat, off: nat, len: nat): (r: seq<byte>)
    requires len <= d && d + off <= |buf| && 0 < off
    ensures |r| == |buf|
    decreases len
  {
    if len == 0 then buf else CopyDown(buf[d - 1 := buf[d - 1 + off]], d - 1, off, len - 1)
  }

  datatype Place = Place(buf: seq<byte>, d: nat, s: nat)

  /** One flag bit: `d` and `s` are the write and read cursors, `end` the bound of both. */
  function InPlaceStep(buf: seq<byte>, d: nat, s: nat, end: nat, flag: byte, i: nat): (r: Option<Place>)
    requires end <= s <= |buf| && end <= d <= |buf| && i < 8
    ensures r.Some? ==> |r.value.buf| == |buf| && end <= r.value.s < s && end <= r.value.d <= |buf|
  {
    if !BitSet(flag, i) then
      if d - end < 1 || s - end < 1 then None else Some(Place(buf[d - 1 := buf[s - 1]], d - 1, s - 1))
    else if s - end < 2 then None
    else
      var off := buf[s - 1] as int % 16 * 256 + buf[s - 2] as int + 3;
      var size := buf[s - 1] as int / 16 + 3;
      if size > d - end || d + off > |buf| then None
      else Some(Place(CopyDown(buf, d, off, size), d - size, s - 2))
  }

  function InPlaceGroups(buf: seq<byte>, d: nat, s: nat, end: nat): (r: Option<seq<byte>>)
    requires end <= s <= |buf| && end <= d <= |buf|
    ensures r.Some? ==> |r.value| == |buf|
    decreases s, 9
  {
    if s == end then Some(buf) else InPlaceBits(buf, d, s - 1, end, buf[s - 1], 0)
  }

  function InPlaceBits(buf: seq<byte>, d: nat, s: nat, end: nat, flag: byte, i: nat): (r: Option<seq<byte>>)
    requires end <= s <= |buf| && end <= d <= |buf| && i < 8
    ensures r.Some? ==> |r.value| == |buf|
    decreases s, 8 - i
  {
    match InPlaceStep(buf, d, s, end, flag, i)
    case None => None
    case Some(p) =>
      if p.s == end then Some(p.buf)
      else if i == 7 then InPlaceGroups(p.buf, p.d, p.s, end)
      else InPlaceBits(p.buf, p.d, p.s, end, flag, i + 1)
  }

  /** The same run, asking at every step that the write cursor stays above the read cursor and that
      below the read cursor, the verbatim prefix included, nothing has changed. */
  ghost predicate SafeGroups(buf: seq<byte>, d: nat, s: nat, end: nat)
    requires end <= s <= |buf| && end <= d <= |buf|
    decreases s, 9
  {
    s <= d && (s == end || SafeBits(buf, d, s - 1, end, buf[s - 1], 0))
  }

  ghost predicate SafeBits(buf: seq<byte>, d: nat, s: nat, end: nat, flag: byte, i: nat)
    requires end <= s <= |buf| && end <= d <= |buf| && i < 8
    decreases s, 8 - i
  {
    && s <= d
    && match InPlaceStep(buf, d, s, end, flag, i)
       case None => false
       case Some(p) =>
         && p.s <= p.d && p.buf[..p.s] == buf[..p.s]
         && (p.s == end
             || (if i == 7 then SafeGroups(p.buf, p.d, p.s, end)
                 else SafeBits(p.buf, p.d, p.s, end, flag, i + 1)))
  }

  datatype FooterInfo = FooterInfo(top: nat, bottom: nat, size: nat)

  /** Reads and checks the footer. */
  function ReadFooter(c: seq<byte>): (r: Option<FooterInfo>)
    ensures r.Some? ==>
      && FOOTER <= r.value.bottom <= r.value.top <= |c| <= r.value.size
  {
    if |c| < FOOTER then None
    else
      var word := FromLe32(c[|c| - 8..|c| - 4]);
      var top, bottom := word % 0x100_0000, word / 0x100_0000;
      if FOOTER <= bottom <= FOOTER + 3 && bottom <= top <= |c| then
        Some(FooterInfo(top, bottom, |c| + FromLe32(c[|c| - 4..])))
      else None
  }

  /** The decoding run that a footer asks for, over a buffer that starts with the file `c`. */
  function Run(c: seq<byte>, buf: seq<byte>, info: FooterInfo): Option<seq<byte>>
    requires ReadFooter(c) == Some(info) && |buf| == info.size
  {
    InPlaceGroups(buf, info.size, |c| - info.bottom, |c| - info.top)
  }

  ghost predicate SafeRun(c: seq<byte>, buf: seq<byte>, info: FooterInfo)
    requires ReadFooter(c) == Some(info) && |buf| == info.size
  {
    SafeGroups(buf, info.size, |c| - info.bottom, |c| - info.top)
  }

  /** Uncompress into a buffer that holds `before`. */
  function Decompressed(c: seq<byte>, before: seq<byte>): Option<seq<byte>> {
    match ReadFooter(c)
    case None => None
    case Some(info) =>
      if |before| < info.size then None else Run(c, c + before[|c|..info.size], info)
  }
}
