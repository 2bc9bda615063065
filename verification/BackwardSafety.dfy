/** Backward LZ77: expanding in place is safe and gives the data back. */
module BackwardSafety {
  import opened Bytes
  import opened FlagGroups
  import opened TokenStream
  import opened GreedyParse
  import opened StreamWriter
  import opened BackwardLz77
  import opened FileForm

  // ----- Running down a plan -----

  /** The bytes of token `t`, the `i`-th of its flag group, stand in `c` just below `s0`. */
  ghost predicate MoveStored(c: seq<byte>, t: Token, flag: byte, i: nat, s0: nat, s1: nat) {
    && WellFormed(Blz, t) && s0 <= |c|
    && s1 == s0 - (if i == 0 then 1 else 0) - |Payload(Blz, t)|
    && (i == 0 ==> c[s0 - 1] == flag)
    && (forall x :: 0 <= x < |Payload(Blz, t)| ==>
          c[s0 - (if i == 0 then 1 else 0) - 1 - x] == Payload(Blz, t)[x])
  }

  /** Token `t` describes `data` just below `d0`. */
  ghost predicate MoveMeans(data: seq<byte>, t: Token, d0: nat, d1: nat) {
    && d1 == d0 - Span(t) && d1 < d0 <= |data|
    && (t.Literal? ==> t.b == data[d1])
    && (t.Match? ==> d0 + t.off <= |data| && forall y :: d1 <= y < d0 ==> data[y] == data[y + t.off])
  }

  /** Token `t` takes the cursors from `d0`, `s0` to `d1`, `s1`. */
  ghost predicate Move(
    data: seq<byte>, c: seq<byte>, end: nat, t: Token, flag: byte, i: nat, d0: nat, d1: nat, s0: nat, s1: nat)
  {
    && i < 8 && BitSet(flag, i) == t.Match?
    && end <= s1 <= d1 && s1 < s0 <= d0
    && MoveStored(c, t, flag, i, s0, s1) && MoveMeans(data, t, d0, d1)
  }

  /** Cursor positions for a whole run, from the top of the buffer down to `end`. */
  ghost predicate Plan(
    data: seq<byte>, c: seq<byte>, end: nat, toks: seq<Token>, flags: seq<byte>, ds: seq<nat>, ss: seq<nat>)
  {
    && |flags| == |toks| && |ds| == |ss| == |toks| + 1
    && ds[|toks|] == end && ss[|toks|] == end
    && (forall i :: 0 <= i < |toks| ==>
          Move(data, c, end, toks[i], flags[i], i % 8, ds[i], ds[i + 1], ss[i], ss[i + 1]))
    && (forall i :: 0 < i < |toks| && i % 8 != 0 ==> flags[i] == flags[i - 1])
  }

  /** The buffer half way: decoded above `d`, still as it was below `s`. */
  ghost predicate HalfWay(data: seq<byte>, c: seq<byte>, buf: seq<byte>, d: nat, s: nat) {
    s <= d <= |data| && |buf| == |data| && s <= |c| && buf[d..] == data[d..] && buf[..s] == c[..s]
  }

  lemma {:induction false} CopyDownRestores(data: seq<byte>, buf: seq<byte>, d: nat, off: nat, len: nat)
    requires |buf| == |data| && len <= d && d + off <= |data| && 0 < off
    requires buf[d..] == data[d..]
    requires forall y :: d - len <= y < d ==> data[y] == data[y + off]
    ensures CopyDown(buf, d, off, len)[d - len..] == data[d - len..]
    ensures CopyDown(buf, d, off, len)[..d - len] == buf[..d - len]
    decreases len
  {
    if len > 0 {
      var buf' := buf[d - 1 := buf[d - 1 + off]];
      assert buf[d - 1 + off] == buf[d..][off - 1] == data[d..][off - 1] == data[d - 1 + off] == data[d - 1];
      assert buf'[d - 1..] == [data[d - 1]] + buf[d..];
      assert data[d - 1..] == [data[d - 1]] + data[d..];
      CopyDownRestores(data, buf', d - 1, off, len - 1);
      assert buf'[..d - len] == buf[..d - len];
    }
  }

  lemma StepLiteral(
    data: seq<byte>, c: seq<byte>, buf: seq<byte>, end: nat, t: Token, flag: byte, i: nat,
    d0: nat, d1: nat, s0: nat, s1: nat) returns (buf': seq<byte>)
    requires Move(data, c, end, t, flag, i, d0, d1, s0, s1) && t.Literal? && HalfWay(data, c, buf, d0, s0)
    ensures InPlaceStep(buf, d0, s0 - (if i == 0 then 1 else 0), end, flag, i) == Some(Place(buf', d1, s1))
    ensures HalfWay(data, c, buf', d1, s1) && buf'[..s1] == buf[..s1]
  {
    var a := s0 - if i == 0 then 1 else 0;
    assert c[a - 1 - 0] == Payload(Blz, t)[0];
    assert buf[a - 1] == buf[..s0][a - 1] == c[..s0][a - 1] == t.b;
    buf' := buf[d0 - 1 := buf[a - 1]];
    assert buf'[d1..] == [data[d1]] + buf[d0..];
    assert data[d1..] == [data[d1]] + data[d0..];
    assert buf'[..s1] == buf[..s0][..s1] == c[..s0][..s1] == c[..s1];
  }

  lemma ReadsMatch(buf: seq<byte>, d: nat, s: nat, end: nat, flag: byte, i: nat, len: nat, off: nat)
    requires end + 2 <= s <= |buf| && end + len <= d && d + off <= |buf| && i < 8 && BitSet(flag, i)
    requires WellFormed(Blz, Match(len, off))
    requires buf[s - 1] == MatchBytes(Blz, len, off)[0] && buf[s - 2] == MatchBytes(Blz, len, off)[1]
    ensures InPlaceStep(buf, d, s, end, flag, i) == Some(Place(CopyDown(buf, d, off, len), d - len, s - 2))
  {
    StoredMatch(len, off);
  }

  lemma StepMatch(
    data: seq<byte>, c: seq<byte>, buf: seq<byte>, end: nat, t: Token, flag: byte, i: nat,
    d0: nat, d1: nat, s0: nat, s1: nat) returns (buf': seq<byte>)
    requires Move(data, c, end, t, flag, i, d0, d1, s0, s1) && t.Match? && HalfWay(data, c, buf, d0, s0)
    ensures InPlaceStep(buf, d0, s0 - (if i == 0 then 1 else 0), end, flag, i) == Some(Place(buf', d1, s1))
    ensures HalfWay(data, c, buf', d1, s1) && buf'[..s1] == buf[..s1]
  {
    var a := s0 - if i == 0 then 1 else 0;
    StoredBytes(c, t, flag, i, s0, s1);
    SameBelow(buf, c, s0, a - 1);
    SameBelow(buf, c, s0, a - 2);
    ReadsMatch(buf, d0, a, end, flag, i, t.len, t.off);
    CopyDownRestores(data, buf, d0, t.off, t.len);
    buf' := CopyDown(buf, d0, t.off, t.len);
    ShorterPrefix(buf', buf, d1, s1);
    ShorterPrefix(buf, c, s0, s1);
  }

  lemma StoredBytes(c: seq<byte>, t: Token, flag: byte, i: nat, s0: nat, s1: nat)
    requires MoveStored(c, t, flag, i, s0, s1) && t.Match?
    ensures var a := s0 - if i == 0 then 1 else 0;
      && s1 == a - 2
      && c[a - 1] == MatchBytes(Blz, t.len, t.off)[0] && c[a - 2] == MatchBytes(Blz, t.len, t.off)[1]
  {
    var a := s0 - if i == 0 then 1 else 0;
    assert c[a - 1 - 0] == Payload(Blz, t)[0];
    assert c[a - 1 - 1] == Payload(Blz, t)[1];
  }

  lemma SameBelow(a: seq<byte>, b: seq<byte>, s: nat, i: nat)
    requires i < s <= |a| && s <= |b| && a[..s] == b[..s]
    ensures a[i] == b[i]
  {
    assert a[i] == a[..s][i];
  }

  lemma ShorterPrefix(a: seq<byte>, b: seq<byte>, s: nat, s': nat)
    requires s' <= s <= |a| && s <= |b| && a[..s] == b[..s]
    ensures a[..s'] == b[..s']
  {
    assert a[..s'] == a[..s][..s'];
  }

  lemma StoredMatch(len: nat, off: nat)
    requires WellFormed(Blz, Match(len, off))
    ensures var m := MatchBytes(Blz, len, off);
      m[0] as int / 16 + 3 == len && m[0] as int % 16 * 256 + m[1] as int + 3 == off
  {
    ParseMatchBytes(Blz, len, off);
  }

  /** The decoder, and its safety, when about to read item `i` of a group. */
  ghost function ResumeRun(buf: seq<byte>, d: nat, s: nat, end: nat, flag: byte, i: nat): Option<seq<byte>>
    requires end <= s <= |buf| && end <= d <= |buf| && i < 8
  {
    if s == end then Some(buf)
    else if i == 0 then InPlaceGroups(buf, d, s, end)
    else InPlaceBits(buf, d, s, end, flag, i)
  }

  ghost predicate ResumeSafe(buf: seq<byte>, d: nat, s: nat, end: nat, flag: byte, i: nat)
    requires end <= s <= |buf| && end <= d <= |buf| && i < 8
  {
    s <= d && (s == end || if i == 0 then SafeGroups(buf, d, s, end) else SafeBits(buf, d, s, end, flag, i))
  }

  lemma BitsUnfold(buf: seq<byte>, d: nat, s: nat, end: nat, flag: byte, i: nat, p: Place, flag': byte, i': nat)
    requires end <= s <= d <= |buf| && i < 8
    requires InPlaceStep(buf, d, s, end, flag, i) == Some(p)
    requires i' == (if i == 7 then 0 else i + 1) && (i < 7 ==> flag' == flag)
    ensures InPlaceBits(buf, d, s, end, flag, i) == ResumeRun(p.buf, p.d, p.s, end, flag', i')
    ensures p.buf[..p.s] == buf[..p.s] && ResumeSafe(p.buf, p.d, p.s, end, flag', i')
        ==> SafeBits(buf, d, s, end, flag, i)
  {
  }

  /** One token of the plan. */
  lemma RunMove(
    data: seq<byte>, c: seq<byte>, buf: seq<byte>, end: nat, t: Token, flag: byte, i: nat,
    d0: nat, d1: nat, s0: nat, s1: nat, flag': byte, i': nat) returns (buf': seq<byte>)
    requires Move(data, c, end, t, flag, i, d0, d1, s0, s1) && HalfWay(data, c, buf, d0, s0)
    requires i' == (if i == 7 then 0 else i + 1) && (i < 7 ==> flag' == flag)
    ensures HalfWay(data, c, buf', d1, s1)
    ensures ResumeRun(buf, d0, s0, end, flag, i) == ResumeRun(buf', d1, s1, end, flag', i')
    ensures ResumeSafe(buf', d1, s1, end, flag', i') ==> ResumeSafe(buf, d0, s0, end, flag, i)
  {
    if t.Literal? {
      buf' := StepLiteral(data, c, buf, end, t, flag, i, d0, d1, s0, s1);
    } else {
      buf' := StepMatch(data, c, buf, end, t, flag, i, d0, d1, s0, s1);
    }
    var a := s0 - if i == 0 then 1 else 0;
    BitsUnfold(buf, d0, a, end, flag, i, Place(buf', d1, s1), flag', i');
    if i == 0 {
      assert buf[s0 - 1] == buf[..s0][s0 - 1] == c[..s0][s0 - 1] == flag;
    }
  }

  /** Following a plan restores the data, and every step is safe. */
  lemma {:induction false} RunPlan(
    data: seq<byte>, c: seq<byte>, end: nat, toks: seq<Token>, flags: seq<byte>, ds: seq<nat>, ss: seq<nat>,
    k: nat, buf: seq<byte>, flag: byte)
    requires Plan(data, c, end, toks, flags, ds, ss) && k <= |toks|
    requires HalfWay(data, c, buf, ds[k], ss[k]) && end <= ss[k]
    requires k < |toks| ==> flag == flags[k]
    requires end <= |c| && c[..end] == data[..end]
    ensures ResumeRun(buf, ds[k], ss[k], end, flag, k % 8) == Some(data)
    ensures ResumeSafe(buf, ds[k], ss[k], end, flag, k % 8)
    decreases |toks| - k
  {
    if k == |toks| {
      assert buf == buf[..end] + buf[end..] && data == data[..end] + data[end..];
    } else {
      assert Move(data, c, end, toks[k], flags[k], k % 8, ds[k], ds[k + 1], ss[k], ss[k + 1]);
      var flag' := if k + 1 < |toks| then flags[k + 1] else flag;
      NextSlot(k);
      var buf' := RunMove(data, c, buf, end, toks[k], flags[k], k % 8, ds[k], ds[k + 1], ss[k], ss[k + 1],
        flag', (k + 1) % 8);
      RunPlan(data, c, end, toks, flags, ds, ss, k + 1, buf', flag');
    }
  }

  // ----- The encoder's output is such a plan -----

  /** The cut the encoder settles on: no earlier match left less output than stream, and here none or
      the last one does. */
  ghost predicate Settled(data: seq<byte>, toks: seq<Token>, cut: nat) {
    && AllWellFormed(Blz, toks) && cut <= |toks|
    && |EncodeTokens(Blz, toks)| <= |data|
    && (forall i :: 0 <= i <= cut ==> OrigLeft(|data|, toks, i) >= 0)
    && (forall j :: 0 < j < cut ==> !IsCut(|data|, toks, j))
    && OrigLeft(|data|, toks, cut) <= CompLeft(toks, cut)
    && (forall i :: 0 <= i < cut ==> Describes(Blz, Rev(data), SpanSum(toks, i), toks[i]))
  }

  lemma CompLeftStep(toks: seq<Token>, i: nat)
    requires AllWellFormed(Blz, toks) && i < |toks|
    ensures CompLeft(toks, i + 1) == CompLeft(toks, i) - FlagSize(i) - |Payload(Blz, toks[i])|
  {
    var items := Items(Blz, toks);
    assert items[i] == ItemOf(Blz, toks[i]);
    EncodeLaidOut(items, i);
  }

  lemma CompLeftStart(toks: seq<Token>)
    requires AllWellFormed(Blz, toks)
    ensures CompLeft(toks, 0) == |EncodeTokens(Blz, toks)|
    ensures CompLeft(toks, |toks|) == 0
  {
    var items := Items(Blz, toks);
    assert items[..0] == [] && items[..|items|] == items;
  }

  /** Literals keep the difference between output left and stream left, flag bytes raise it, and up to
      the cut no match brings it below zero. */
  lemma {:induction false} OutputLeads(data: seq<byte>, toks: seq<Token>, cut: nat, i: nat)
    requires Settled(data, toks, cut) && i < cut
    ensures OrigLeft(|data|, toks, i) >= CompLeft(toks, i)
  {
    if i == 0 {
      CompLeftStart(toks);
    } else {
      OutputLeads(data, toks, cut, i - 1);
      CompLeftStep(toks, i - 1);
      assert !IsCut(|data|, toks, i);
    }
  }

  /** The stream left never shrinks below what is left at a later token. */
  lemma {:induction false} CompLeftMonotone(toks: seq<Token>, i: nat, j: nat)
    requires AllWellFormed(Blz, toks) && i <= j <= |toks|
    ensures CompLeft(toks, j) <= CompLeft(toks, i)
    decreases j
  {
    if i < j {
      CompLeftMonotone(toks, i, j - 1);
      CompLeftStep(toks, j - 1);
    }
  }

  /** Where the read cursor stands at token `i`, in the assembled file. */
  ghost function ReadAt(data: seq<byte>, toks: seq<Token>, cut: nat, i: nat): (r: nat)
    requires Settled(data, toks, cut) && i <= cut
    ensures r >= OrigLeft(|data|, toks, cut)
  {
    CompLeftMonotone(toks, i, cut);
    OrigLeft(|data|, toks, cut) + CompLeft(toks, i) - CompLeft(toks, cut)
  }

  /** `c` holds the stream `e`, without its last `comp` bytes and last byte first, from `orig` on. */
  ghost predicate Stored(c: seq<byte>, e: seq<byte>, orig: nat, comp: nat) {
    && comp <= |e| && orig + |e| - comp <= |c|
    && forall y :: orig <= y < orig + |e| - comp ==> c[y] == e[|e| - 1 - comp - (y - orig)]
  }

  lemma StoredItem(
    c: seq<byte>, e: seq<byte>, orig: nat, comp: nat, p0: nat, p1: nat, i: nat, flag: byte, t: Token)
    requires WellFormed(Blz, t) && Stored(c, e, orig, comp) && p1 + comp <= |e|
    requires ItemAt(e, p0, p1, i == 0, flag, Payload(Blz, t))
    ensures MoveStored(c, t, flag, i, orig + |e| - p0 - comp, orig + |e| - p1 - comp)
  {
    var s0, fs := orig + |e| - p0 - comp, if i == 0 then 1 else 0;
    forall x | 0 <= x < |Payload(Blz, t)|
      ensures c[s0 - fs - 1 - x] == Payload(Blz, t)[x]
    {
      assert e[p0 + fs..p1][x] == e[p0 + fs + x];
    }
  }

  /** What a token says about the data just below the write cursor. */
  lemma DescribesBackward(data: seq<byte>, p: nat, t: Token, d0: nat, d1: nat)
    requires Describes(Blz, Rev(data), p, t) && d0 == |data| - p && d1 == d0 - Span(t)
    ensures MoveMeans(data, t, d0, d1)
  {
    var n, d := |data|, Rev(data);
    if t.Match? {
      forall y | n - p - t.len <= y < n - p ensures data[y] == data[y + t.off] {
        assert d[n - 1 - y] == d[n - 1 - y - t.off];
      }
    }
  }

  /** The cursors stay in order. */
  lemma CursorsInOrder(data: seq<byte>, toks: seq<Token>, cut: nat, i: nat)
    requires Settled(data, toks, cut) && i <= cut
    ensures 0 <= OrigLeft(|data|, toks, cut) <= ReadAt(data, toks, cut, i) <= OrigLeft(|data|, toks, i)
    ensures i < cut ==> ReadAt(data, toks, cut, i + 1) < ReadAt(data, toks, cut, i)
  {
    CompLeftMonotone(toks, i, cut);
    if i < cut {
      OutputLeads(data, toks, cut, i);
      CompLeftStep(toks, i);
    }
  }

  lemma StepFlag(toks: seq<Token>, i: nat, e: seq<byte>, pos: seq<nat>, flags: seq<byte>, j: nat)
    requires i < |toks| && Layout(Blz, toks, e, pos, flags) && j == i % 8
    ensures j < 8 && BitSet(flags[i], j) == toks[i].Match?
  {
    assert TokenAt(Blz, toks[i], e, pos[i], pos[i + 1], flags[i], i % 8);
  }

  lemma StepStored(
    data: seq<byte>, c: seq<byte>, toks: seq<Token>, cut: nat, i: nat, pos: seq<nat>, flags: seq<byte>, j: nat)
    requires Settled(data, toks, cut) && i < cut
    requires Layout(Blz, toks, EncodeTokens(Blz, toks), pos, flags)
    requires forall k :: 0 <= k <= |toks| ==> pos[k] == Pos(Items(Blz, toks), k)
    requires Stored(c, EncodeTokens(Blz, toks), OrigLeft(|data|, toks, cut), CompLeft(toks, cut)) && j == i % 8
    ensures MoveStored(c, toks[i], flags[i], j, ReadAt(data, toks, cut, i), ReadAt(data, toks, cut, i + 1))
  {
    var e, orig, comp := EncodeTokens(Blz, toks), OrigLeft(|data|, toks, cut), CompLeft(toks, cut);
    assert TokenAt(Blz, toks[i], e, pos[i], pos[i + 1], flags[i], j);
    CompLeftMonotone(toks, i + 1, cut);
    StoredItem(c, e, orig, comp, pos[i], pos[i + 1], j, flags[i], toks[i]);
  }

  // ----- The main results -----

  lemma AssembleStored(data: seq<byte>, e: seq<byte>, orig: nat, comp: nat)
    requires comp <= |e| && orig <= |data| < U32_LIMIT
    requires FileSize(e, orig, comp) <= |data| && FileSize(e, orig, comp) - orig <= 0xFFFFFF
    ensures Stored(Assemble(data, e, orig, comp), e, orig, comp)
    ensures Assemble(data, e, orig, comp)[..orig] == data[..orig]
  {
    var c, tail := Assemble(data, e, orig, comp), Rev(e)[comp..];
    forall y | orig <= y < orig + |e| - comp
      ensures c[y] == e[|e| - 1 - comp - (y - orig)]
    {
      assert c[y] == tail[y - orig] == Rev(e)[comp + (y - orig)];
    }
  }

  lemma FooterWords(c: seq<byte>, front: seq<byte>, a: seq<byte>, b: seq<byte>)
    requires |a| == |b| == 4 && c == front + (a + b)
    ensures c[|c| - 8..|c| - 4] == a && c[|c| - 4..] == b
  {
  }

  lemma ReadWrittenFooter(data: seq<byte>, e: seq<byte>, orig: nat, comp: nat)
    requires comp <= |e| && orig <= |data| < U32_LIMIT
    requires FileSize(e, orig, comp) <= |data| && FileSize(e, orig, comp) - orig <= 0xFFFFFF
    ensures
      var size, pad := FileSize(e, orig, comp), orig + |e| - comp;
      ReadFooter(Assemble(data, e, orig, comp)) == Some(FooterInfo(size - orig, size - pad, |data|))
  {
    var c, size, pad := Assemble(data, e, orig, comp), FileSize(e, orig, comp), orig + |e| - comp;
    var word := size - orig + (size - pad) * 0x100_0000;
    FooterWords(c, c[..size - 8], Le32(word), Le32(|data| - size));
    Le32RoundTrip(word);
    Le32RoundTrip(|data| - size);
    SplitWord(size - orig, size - pad);
    FooterParses(c, word, size - orig, size - pad, |data|);
  }

  lemma FooterParses(c: seq<byte>, word: nat, top: nat, bottom: nat, n: nat)
    requires |c| >= FOOTER && FromLe32(c[|c| - 8..|c| - 4]) == word && |c| + FromLe32(c[|c| - 4..]) == n
    requires word % 0x100_0000 == top && word / 0x100_0000 == bottom
    requires FOOTER <= bottom <= FOOTER + 3 && bottom <= top <= |c|
    ensures ReadFooter(c) == Some(FooterInfo(top, bottom, n))
  {
  }

  lemma SplitWord(top: nat, bottom: nat)
    requires top < 0x100_0000
    ensures (top + bottom * 0x100_0000) % 0x100_0000 == top && (top + bottom * 0x100_0000) / 0x100_0000 == bottom
  {
    DivModUnique(top + bottom * 0x100_0000, bottom, top, 0x100_0000);
  }

  /** Token `i` of the stream describes the reversed data where the tokens before it end. */
  lemma {:induction false} StreamDescribes(d: seq<byte>, p: nat, toks: seq<Token>, i: nat)
    requires DescribesAll(Blz, d, p, toks) && i < |toks|
    ensures Describes(Blz, d, p + SpanSum(toks, i), toks[i])
    decreases |toks|
  {
    if i > 0 {
      StreamDescribes(d, p + Span(toks[0]), toks[1..], i - 1);
      SpanSumTail(toks, i);
    }
  }

  lemma {:induction false} SpanSumTail(toks: seq<Token>, i: nat)
    requires 0 < i <= |toks|
    ensures SpanSum(toks, i) == Span(toks[0]) + SpanSum(toks[1..], i - 1)
  {
    if i > 1 {
      SpanSumTail(toks, i - 1);
    }
  }

  /** The cut of a finished run is settled. */
  lemma CompressSettles(data: seq<byte>) returns (toks: seq<Token>, cut: nat)
    requires |data| < U32_LIMIT && Compressed(data).Done?
    ensures Settled(data, toks, cut) && Finish(data, toks, cut) == Compressed(data)
  {
    var count := Emit(data).count;
    toks := Stream(data)[..count];
    var found := FirstCut(|data|, toks, 0);
    cut := if found.Some? then found.value else |toks|;
    EmittedFits(data, count);
    StreamWithin(data, count, cut);
    CompLeftStart(toks);
    StreamPrefix(data, count);
  }

  /** A prefix of the stream never stands for too many bytes, and describes the data token by token. */
  lemma StreamPrefix(data: seq<byte>, count: nat)
    requires count <= |Stream(data)|
    ensures var toks := Stream(data)[..count];
      && (forall i :: 0 <= i <= count ==> OrigLeft(|data|, toks, i) >= 0)
      && (forall i :: 0 <= i < count ==> Describes(Blz, Rev(data), SpanSum(toks, i), toks[i]))
  {
    var stream := Stream(data);
    var toks := stream[..count];
    ParseDescribes(Blz, Rev(data), 0);
    forall i | 0 <= i <= count ensures OrigLeft(|data|, toks, i) >= 0 {
      StreamWithin(data, count, i);
    }
    forall i | 0 <= i < count ensures Describes(Blz, Rev(data), SpanSum(toks, i), toks[i]) {
      StreamDescribes(Rev(data), 0, stream, i);
      SpanSumPrefix(stream, count, i);
    }
  }

  lemma EmittedFits(data: seq<byte>, count: nat)
    requires Emit(data) == Emitted(count)
    ensures |EncodeTokens(Blz, Stream(data)[..count])| <= |data|
  {
    var items := Items(Blz, Stream(data));
    assert items[..0] == [];
    assert items[..count] == Items(Blz, Stream(data)[..count]);
  }

  /** The whole run of the decoder over a finished file: safe at every step, and it ends in the data. */
  lemma DecodeFinished(data: seq<byte>, toks: seq<Token>, cut: nat, c: seq<byte>, buf: seq<byte>, s: nat, end: nat)
    requires |data| < U32_LIMIT && Settled(data, toks, cut) && Finish(data, toks, cut) == Done(c)
    requires |buf| == |data| && |c| <= |buf| && buf[..|c|] == c
    requires end == OrigLeft(|data|, toks, cut) && s == end + |EncodeTokens(Blz, toks)| - CompLeft(toks, cut)
    ensures end <= s <= |data| && InPlaceGroups(buf, |data|, s, end) == Some(data) && SafeGroups(buf, |data|, s, end)
  {
    var n, e, comp := |data|, EncodeTokens(Blz, toks), CompLeft(toks, cut);
    AssembleStored(data, e, end, comp);
    var pos, flags := EncodedLayout(Blz, toks, e, 0);
    var ds := seq<nat>(cut + 1, i requires 0 <= i <= cut => OrigLeft(n, toks, i));
    var ss := seq<nat>(cut + 1, i requires 0 <= i <= cut => ReadAt(data, toks, cut, i));
    PlanHolds(data, c, toks, cut, pos, flags, ds, ss);
    CompLeftStart(toks);
    CursorsInOrder(data, toks, cut, 0);
    ShorterPrefix(buf, c, |c|, ss[0]);
    RunPlan(data, c, end, toks[..cut], flags[..cut], ds, ss, 0, buf, if cut == 0 then 0 else flags[0]);
    assert ds[0] == n && ss[0] == s;
  }

  ghost predicate Cursors(data: seq<byte>, toks: seq<Token>, cut: nat, ds: seq<nat>, ss: seq<nat>)
    requires Settled(data, toks, cut)
  {
    && |ds| == |ss| == cut + 1
    && (forall i :: 0 <= i <= cut ==> ds[i] == OrigLeft(|data|, toks, i))
    && (forall i :: 0 <= i <= cut ==> ss[i] == ReadAt(data, toks, cut, i))
  }

  ghost predicate Ordered(end: nat, ds: seq<nat>, ss: seq<nat>) {
    && |ds| == |ss| > 0 && ds[|ds| - 1] == end && ss[|ss| - 1] == end
    && (forall i :: 0 <= i < |ds| ==> end <= ss[i] <= ds[i])
    && (forall i :: 0 <= i < |ds| - 1 ==> ss[i + 1] < ss[i])
  }

  lemma CursorsOrdered(data: seq<byte>, toks: seq<Token>, cut: nat, ds: seq<nat>, ss: seq<nat>)
    requires Settled(data, toks, cut) && Cursors(data, toks, cut, ds, ss)
    ensures 0 <= OrigLeft(|data|, toks, cut) && Ordered(OrigLeft(|data|, toks, cut), ds, ss)
  {
    forall i | 0 <= i <= cut
      ensures OrigLeft(|data|, toks, cut) <= ss[i] <= ds[i]
      ensures i < cut ==> ss[i + 1] < ss[i]
    {
      CursorsInOrder(data, toks, cut, i);
    }
  }

  lemma CursorsMean(data: seq<byte>, toks: seq<Token>, cut: nat, ds: seq<nat>, ss: seq<nat>)
    requires Settled(data, toks, cut) && Cursors(data, toks, cut, ds, ss)
    ensures forall i :: 0 <= i < cut ==> MoveMeans(data, toks[i], ds[i], ds[i + 1])
  {
    forall i | 0 <= i < cut ensures MoveMeans(data, toks[i], ds[i], ds[i + 1]) {
      DescribesBackward(data, SpanSum(toks, i), toks[i], ds[i], ds[i + 1]);
    }
  }

  lemma CursorsStored(
    data: seq<byte>, c: seq<byte>, toks: seq<Token>, cut: nat, pos: seq<nat>, flags: seq<byte>,
    ds: seq<nat>, ss: seq<nat>)
    requires Settled(data, toks, cut) && Cursors(data, toks, cut, ds, ss)
    requires Layout(Blz, toks, EncodeTokens(Blz, toks), pos, flags)
    requires forall k :: 0 <= k <= |toks| ==> pos[k] == Pos(Items(Blz, toks), k)
    requires Stored(c, EncodeTokens(Blz, toks), OrigLeft(|data|, toks, cut), CompLeft(toks, cut))
    ensures forall i :: 0 <= i < cut ==> MoveStored(c, toks[i], flags[i], i % 8, ss[i], ss[i + 1])
  {
    forall i | 0 <= i < cut ensures MoveStored(c, toks[i], flags[i], i % 8, ss[i], ss[i + 1]) {
      StepStored(data, c, toks, cut, i, pos, flags, i % 8);
    }
  }

  lemma MakePlan(
    data: seq<byte>, c: seq<byte>, end: nat, toks: seq<Token>, flags: seq<byte>, ds: seq<nat>, ss: seq<nat>)
    requires |flags| == |toks| && |ds| == |toks| + 1 && Ordered(end, ds, ss)
    requires forall i :: 0 <= i < |toks| ==> MoveMeans(data, toks[i], ds[i], ds[i + 1])
    requires forall i :: 0 <= i < |toks| ==> MoveStored(c, toks[i], flags[i], i % 8, ss[i], ss[i + 1])
    requires forall i :: 0 <= i < |toks| ==> i % 8 < 8 && BitSet(flags[i], i % 8) == toks[i].Match?
    requires forall i :: 0 < i < |toks| && i % 8 != 0 ==> flags[i] == flags[i - 1]
    ensures Plan(data, c, end, toks, flags, ds, ss)
  {
    forall i | 0 <= i < |toks|
      ensures Move(data, c, end, toks[i], flags[i], i % 8, ds[i], ds[i + 1], ss[i], ss[i + 1])
    {
      assert MoveMeans(data, toks[i], ds[i], ds[i + 1]);
      assert MoveStored(c, toks[i], flags[i], i % 8, ss[i], ss[i + 1]);
    }
  }

  lemma PlanHolds(
    data: seq<byte>, c: seq<byte>, toks: seq<Token>, cut: nat, pos: seq<nat>, flags: seq<byte>,
    ds: seq<nat>, ss: seq<nat>)
    requires Settled(data, toks, cut) && Cursors(data, toks, cut, ds, ss)
    requires Layout(Blz, toks, EncodeTokens(Blz, toks), pos, flags)
    requires IsLayoutOf(Items(Blz, toks), 0, pos, flags)
    requires Stored(c, EncodeTokens(Blz, toks), OrigLeft(|data|, toks, cut), CompLeft(toks, cut))
    ensures Plan(data, c, OrigLeft(|data|, toks, cut), toks[..cut], flags[..cut], ds, ss)
  {
    CursorsOrdered(data, toks, cut, ds, ss);
    CursorsMean(data, toks, cut, ds, ss);
    CursorsStored(data, c, toks, cut, pos, flags, ds, ss);
    forall i | 0 <= i < cut ensures i % 8 < 8 && BitSet(flags[i], i % 8) == toks[i].Match? {
      StepFlag(toks, i, EncodeTokens(Blz, toks), pos, flags, i % 8);
    }
    MakePlan(data, c, OrigLeft(|data|, toks, cut), toks[..cut], flags[..cut], ds, ss);
  }

  /** The footer of a finished file says where the stream lies. */
  lemma FinishedFooter(data: seq<byte>, toks: seq<Token>, cut: nat, c: seq<byte>)
    returns (info: FooterInfo, s: nat, end: nat)
    requires |data| < U32_LIMIT && Settled(data, toks, cut) && Finish(data, toks, cut) == Done(c)
    ensures ReadFooter(c) == Some(info) && info.size == |data|
    ensures s == |c| - info.bottom && end == |c| - info.top
    ensures end == OrigLeft(|data|, toks, cut) && s == end + |EncodeTokens(Blz, toks)| - CompLeft(toks, cut)
  {
    var e, orig, comp := EncodeTokens(Blz, toks), OrigLeft(|data|, toks, cut), CompLeft(toks, cut);
    ReadWrittenFooter(data, e, orig, comp);
    info := ReadFooter(c).value;
    s, end := |c| - info.bottom, |c| - info.top;
  }

  lemma RunIs(c: seq<byte>, buf: seq<byte>, info: FooterInfo, s: nat, end: nat, data: seq<byte>)
    requires ReadFooter(c) == Some(info) && |buf| == info.size && s == |c| - info.bottom && end == |c| - info.top
    requires InPlaceGroups(buf, info.size, s, end) == Some(data) && SafeGroups(buf, info.size, s, end)
    ensures BackwardLz77.Run(c, buf, info) == Some(data) && SafeRun(c, buf, info)
  {
  }

  lemma RunSettled(data: seq<byte>, toks: seq<Token>, cut: nat, c: seq<byte>, buf: seq<byte>)
    returns (info: FooterInfo)
    requires |data| < U32_LIMIT && Settled(data, toks, cut) && Finish(data, toks, cut) == Done(c)
    requires |buf| == |data| && |c| <= |buf| && buf[..|c|] == c
    ensures ReadFooter(c) == Some(info) && info.size == |data|
    ensures BackwardLz77.Run(c, buf, info) == Some(data) && SafeRun(c, buf, info)
  {
    var s, end;
    info, s, end := FinishedFooter(data, toks, cut, c);
    DecodeFinished(data, toks, cut, c, buf, s, end);
    RunIs(c, buf, info, s, end, data);
  }

  /** What the decoder does with a finished file standing at the start of its buffer. */
  lemma RunFinished(data: seq<byte>, c: seq<byte>, buf: seq<byte>) returns (info: FooterInfo)
    requires |data| < U32_LIMIT && Compressed(data) == Done(c)
    requires |buf| == |data| && |c| <= |buf| && buf[..|c|] == c
    ensures ReadFooter(c) == Some(info) && info.size == |data|
    ensures BackwardLz77.Run(c, buf, info) == Some(data) && SafeRun(c, buf, info)
  {
    var toks, cut := CompressSettles(data);
    info := RunSettled(data, toks, cut, c, buf);
  }

  lemma FinishedFits(data: seq<byte>, c: seq<byte>)
    requires |data| < U32_LIMIT && Compressed(data) == Done(c)
    ensures |c| < |data|
  {
    var toks, cut := CompressSettles(data);
  }

  /** A finished file: a prefix of the data as it is, the stream up to `pad`, 0xFF up to the next multiple of four, and
      a footer of the size of the stream with what follows it, the distance back to the end of the stream in the high
      byte, and how much longer the data is than the file. */
  lemma FileFormed(data: seq<byte>, c: seq<byte>) returns (orig: nat, pad: nat)
    requires |data| < U32_LIMIT && Compressed(data) == Done(c)
    ensures orig <= pad <= |c| - 8 < pad + 4 && |c| % 4 == 0 && |c| < |data|
    ensures c[..orig] == data[..orig] && forall x :: pad <= x < |c| - 8 ==> c[x] == 0xFF
    ensures WordAt(c, |c| - 8, |c| - orig + 0x100_0000 * (|c| - pad)) && WordAt(c, |c| - 4, |data| - |c|)
  {
    var toks, cut := CompressSettles(data);
    var e, comp := EncodeTokens(Blz, toks), CompLeft(toks, cut);
    orig := OrigLeft(|data|, toks, cut);
    pad := orig + |e| - comp;
    FinishedIs(data, toks, cut, e, orig, comp, c);
    AssembledFile(data, e, orig, comp, pad, c);
  }

  lemma FinishedIs(data: seq<byte>, toks: seq<Token>, cut: nat, e: seq<byte>, orig: int, comp: nat, c: seq<byte>)
    requires |data| < U32_LIMIT && Settled(data, toks, cut) && Finish(data, toks, cut) == Done(c)
    requires e == EncodeTokens(Blz, toks) && orig == OrigLeft(|data|, toks, cut) && comp == CompLeft(toks, cut)
    ensures 0 <= orig <= |data| && comp <= |e| && FileSize(e, orig, comp) < |data|
    ensures FileSize(e, orig, comp) - orig <= 0xFFFFFF && c == Assemble(data, e, orig, comp)
  {
  }

  lemma FooterSize(pad: nat)
    ensures pad <= Align(pad, 4) < pad + 4 && (Align(pad, 4) + 8) % 4 == 0
  {
  }

  lemma AssembledFile(data: seq<byte>, e: seq<byte>, orig: nat, comp: nat, pad: nat, c: seq<byte>)
    requires comp <= |e| && orig <= |data| < U32_LIMIT && pad == orig + |e| - comp
    requires FileSize(e, orig, comp) <= |data| && FileSize(e, orig, comp) - orig <= 0xFFFFFF
    requires c == Assemble(data, e, orig, comp)
    ensures orig <= pad <= |c| - 8 < pad + 4 && |c| % 4 == 0
    ensures c[..orig] == data[..orig] && forall x :: pad <= x < |c| - 8 ==> c[x] == 0xFF
    ensures WordAt(c, |c| - 8, |c| - orig + 0x100_0000 * (|c| - pad)) && WordAt(c, |c| - 4, |data| - |c|)
  {
    FooterSize(pad);
    var size := FileSize(e, orig, comp);
    var head, fill := data[..orig] + Rev(e)[comp..], Fill(Align(pad, 4) - pad);
    var x, y := size - orig + (size - pad) * 0x100_0000, |data| - size;
    assert c == head + fill + Footer(|data|, size, orig, pad);
    TwoWords(head + fill, x, y, c);
    assert c[..orig] == data[..orig];
    forall i | pad <= i < |c| - 8 ensures c[i] == 0xFF {
      assert c[i] == fill[i - pad];
    }
  }

  lemma TwoWords(front: seq<byte>, x: nat, y: nat, c: seq<byte>)
    requires x < U32_LIMIT && y < U32_LIMIT && c == front + (Le32(x) + Le32(y))
    ensures WordAt(c, |front|, x) && WordAt(c, |front| + 4, y)
  {
    Le32RoundTrip(x);
    Le32RoundTrip(y);
    forall i | 0 <= i < 4 ensures c[|front| + i] == Le32(x)[i] && c[|front| + 4 + i] == Le32(y)[i] {
    }
  }

  /** The in-place round trip: whatever the destination held before, decoding a finished file within
      one buffer, over its own source, gives the data back. */
  lemma RoundTrip(data: seq<byte>, c: seq<byte>, before: seq<byte>)
    requires |data| < U32_LIMIT && Compressed(data) == Done(c) && |before| >= |data|
    ensures Decompressed(c, before) == Some(data)
  {
    FinishedFits(data, c);
    var info := RunFinished(data, c, c + before[|c|..|data|]);
  }

  /** In-place safety: on a finished file no write of the decoder ever lands below the read cursor,
      and so none in the verbatim prefix. */
  lemma SafeInPlace(data: seq<byte>, c: seq<byte>, before: seq<byte>)
    requires |data| < U32_LIMIT && Compressed(data) == Done(c) && |before| >= |data|
    ensures |c| < |data| && ReadFooter(c).Some? && ReadFooter(c).value.size == |data|
    ensures SafeRun(c, c + before[|c|..|data|], ReadFooter(c).value)
  {
    FinishedFits(data, c);
    var info := RunFinished(data, c, c + before[|c|..|data|]);
  }
}
