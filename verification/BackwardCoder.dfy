/** Backward LZ77: the loops themselves, each proved against the specification in BackwardLz77. */
module BackwardCoder {
  import opened Bytes
  import opened FlagGroups
  import opened TokenStream
  import opened GreedyParse
  import opened SlidingWindow
  import opened MatchSearch
  import opened StreamWriter
  import opened Output
  import opened BackwardLz77
  import opened BackwardSafety

  // ----- Decoding in place -----

  method CopyDownwards(out: array<byte>, n: nat, d: nat, off: nat, len: nat)
    requires len <= d && d + off <= n <= out.Length && 0 < off
    modifies out
    ensures out[..n] == CopyDown(old(out[..n]), d, off, len)
    ensures out[n..] == old(out[n..])
  {
    for j := 0 to len
      invariant CopyDown(out[..n], d - j, off, len - j) == CopyDown(old(out[..n]), d, off, len)
      invariant out[n..] == old(out[n..])
    {
      ghost var before := out[..n];
      out[d - j - 1] := out[d - j - 1 + off];
      assert out[..n] == before[d - j - 1 := before[d - j - 1 + off]];
    }
  }

  method DecodeItem(out: array<byte>, n: nat, d: nat, s: nat, end: nat, flag: byte, i: nat)
    returns (ok: bool, d': nat, s': nat)
    requires end <= s <= n <= out.Length && end <= d <= n && i < 8
    modifies out
    ensures out[n..] == old(out[n..])
    ensures ok == InPlaceStep(old(out[..n]), d, s, end, flag, i).Some?
    ensures ok ==> InPlaceStep(old(out[..n]), d, s, end, flag, i) == Some(Place(out[..n], d', s'))
  {
    ok, d', s' := false, d, s;
    if !BitSet(flag, i) {
      if d - end >= 1 && s - end >= 1 {
        out[d - 1] := out[s - 1];
        assert out[..n] == old(out[..n])[d - 1 := old(out[..n])[s - 1]];
        ok, d', s' := true, d - 1, s - 1;
      }
    } else if s - end >= 2 {
      var size: nat := out[s - 1];
      var off := size % 16 * 256 + out[s - 2] as int + 3;
      size := size / 16 + 3;
      if size <= d - end && d + off <= n {
        CopyDownwards(out, n, d, off, size);
        ok, d', s' := true, d - size, s - 2;
      }
    }
  }

  /** The eight items of a flag byte, or as many as are left. */
  method DecodeGroup(out: array<byte>, n: nat, d: nat, s: nat, end: nat, flag: byte)
    returns (ok: bool, d': nat, s': nat)
    requires end <= s <= n <= out.Length && end <= d <= n
    modifies out
    ensures out[n..] == old(out[n..])
    ensures !ok ==> InPlaceBits(old(out[..n]), d, s, end, flag, 0) == None
    ensures ok ==>
      && end <= s' < s && end <= d' <= n
      && InPlaceGroups(out[..n], d', s', end) == InPlaceBits(old(out[..n]), d, s, end, flag, 0)
  {
    d', s', ok := d, s, true;
    var i := 0;
    while i < 8
      invariant 0 <= i < 8 && end <= s' <= s && end <= d' <= n
      invariant i > 0 ==> s' < s
      invariant out[n..] == old(out[n..])
      invariant InPlaceBits(out[..n], d', s', end, flag, i) == InPlaceBits(old(out[..n]), d, s, end, flag, 0)
      decreases 8 - i
    {
      ok, d', s' := DecodeItem(out, n, d', s', end, flag, i);
      if !ok || s' == end || i == 7 {
        return;
      }
      i := i + 1;
    }
  }

  /** Uncompress: the destination receives the file and is then expanded over itself. The size the
      footer announces must fit in 32 bits. */
  method Uncompress(c: seq<byte>, out: array<byte>, capacity: nat) returns (ok: bool, size: nat)
    requires capacity <= out.Length
    requires ReadFooter(c).Some? ==> ReadFooter(c).value.size < U32_LIMIT
    modifies out
    ensures out[capacity..] == old(out[capacity..])
    ensures ok == Decompressed(c, old(out[..capacity])).Some?
    ensures ok ==> size <= capacity && Decompressed(c, old(out[..capacity])) == Some(out[..size])
  {
    ok, size := false, 0;
    if |c| < FOOTER {
      return;
    }
    var word := FromLe32(c[|c| - 8..|c| - 4]);
    var top, bottom := word % 0x100_0000, word / 0x100_0000;
    var n := |c| + FromLe32(c[|c| - 4..]);
    if !(FOOTER <= bottom <= FOOTER + 3 && bottom <= top <= |c| && n <= capacity) {
      return;
    }
    ghost var buf := c + old(out[..capacity])[|c|..n];
    forall x | 0 <= x < |c| {
      out[x] := c[x];
    }
    assert out[..n] == buf;
    size := n;
    ok := Expand(out, n, n, |c| - bottom, |c| - top);
    assert out[capacity..] == out[n..][capacity - n..];
  }

  method Expand(out: array<byte>, n: nat, start: nat, source: nat, end: nat) returns (ok: bool)
    requires end <= source <= n <= out.Length && end <= start <= n
    modifies out
    ensures out[n..] == old(out[n..])
    ensures ok == InPlaceGroups(old(out[..n]), start, source, end).Some?
    ensures ok ==> InPlaceGroups(old(out[..n]), start, source, end) == Some(out[..n])
  {
    var d, s := start, source;
    while s > end
      invariant end <= s <= n && end <= d <= n
      invariant out[n..] == old(out[n..])
      invariant InPlaceGroups(out[..n], d, s, end) == InPlaceGroups(old(out[..n]), start, source, end)
    {
      var flag := out[s - 1];
      assert out[..n][s - 1] == flag;
      ok, d, s := DecodeGroup(out, n, d, s - 1, end, flag);
      if !ok {
        return;
      }
    }
    ok := true;
  }

  // ----- Encoding from the top of the buffer down -----

  /** The stream written so far: the buffer from `dest` to `n`, last byte first. */
  ghost function Written(out: array<byte>, dest: nat, n: nat): seq<byte>
    requires dest <= n <= out.Length
    reads out
  {
    Rev(out[dest..n])
  }

  lemma RevSnoc(a: seq<byte>, b: byte)
    ensures Rev([b] + a) == Rev(a) + [b]
  {
  }

  lemma RevUpdate(a: seq<byte>, i: nat, b: byte)
    requires i < |a|
    ensures Rev(a[|a| - 1 - i := b]) == Rev(a)[i := b]
  {
  }

  /** Stores the next byte of the stream. */
  method PushByte(out: array<byte>, dest: nat, n: nat, b: byte)
    requires 0 < dest <= n <= out.Length
    modifies out
    ensures Written(out, dest - 1, n) == old(Written(out, dest, n)) + [b]
    ensures out[n..] == old(out[n..])
  {
    ghost var before := out[dest..n];
    out[dest - 1] := b;
    assert out[dest - 1..n] == [b] + before;
    RevSnoc(before, b);
  }

  /** Patches the flag byte, byte `i` of the stream. */
  method PatchFlag(out: array<byte>, at: nat, dest: nat, n: nat, b: byte, ghost i: nat)
    requires dest <= at < n <= out.Length && at == n - 1 - i
    modifies out
    ensures Written(out, dest, n) == old(Written(out, dest, n))[i := b]
    ensures out[n..] == old(out[n..])
  {
    ghost var before := out[dest..n];
    out[at] := b;
    assert out[dest..n] == before[|before| - 1 - i := b];
    RevUpdate(before, i, b);
  }

  /** Patches the flag byte at `at` and stores a match. */
  method EmitMatch(out: array<byte>, n: nat, at: nat, dest: nat, i: nat, len: nat, off: nat, ghost flagPos: nat)
    returns (ok: bool, dest': nat)
    requires WellFormed(Blz, Match(len, off)) && dest <= at < n <= out.Length && at == n - 1 - flagPos && i < 8
    requires 0 <= Flagged(Blz, out[at], Match(len, off), i) < 256
    modifies out
    ensures out[n..] == old(out[n..])
    ensures ok == (2 <= dest)
    ensures ok ==> dest' == dest - 2
    ensures ok ==>
      Written(out, dest', n)
      == old(Written(out, dest, n))[flagPos := Flagged(Blz, old(out[at]), Match(len, off), i)]
        + MatchBytes(Blz, len, off)
  {
    ok, dest' := dest >= 2, dest;
    if ok {
      PatchFlag(out, at, dest, n, out[at] as int + Mask(i), flagPos);
      PushByte(out, dest, n, (len - 3) * 16 + (off - 3) / 256);
      PushByte(out, dest - 1, n, (off - 3) % 256);
      dest' := dest - 2;
    }
  }

  /** Stores one token in the open group, whose flag byte is at `at`. */
  method EmitToken(
    out: array<byte>, n: nat, at: nat, dest: nat, i: nat, t: Token, ghost full: seq<Token>, ghost g: seq<Token>)
    returns (ok: bool, dest': nat)
    requires WellFormed(Blz, t) && dest <= n <= out.Length && i == |g| < 8
    requires Writing(Blz, Written(out, dest, n), [], full, g) && at == n - 1 - FlagPos(Blz, [], full)
    modifies out
    ensures out[n..] == old(out[n..])
    ensures ok == (|Payload(Blz, t)| <= dest)
    ensures ok ==> dest' == dest - |Payload(Blz, t)| && Writing(Blz, Written(out, dest', n), [], full, g + [t])
  {
    ghost var flagPos := FlagPos(Blz, [], full);
    ghost var before := Written(out, dest, n);
    WritingStep(Blz, before, [], full, g, t);
    FlagAt(out, at, dest, n, flagPos);
    ghost var after := before[flagPos := Flagged(Blz, before[flagPos], t, i)] + Payload(Blz, t);
    if t.Literal? {
      ok, dest' := EmitLiteral(out, n, dest, t.b);
      assert before[flagPos := before[flagPos]] == before;
      assert ok ==> Written(out, dest', n) == after;
    } else {
      ok, dest' := EmitMatch(out, n, at, dest, i, t.len, t.off, flagPos);
      assert ok ==> Written(out, dest', n) == after;
    }
  }

  lemma FlagAt(out: array<byte>, at: nat, dest: nat, n: nat, flagPos: nat)
    requires dest <= at < n <= out.Length && at == n - 1 - flagPos
    ensures out[at] == Written(out, dest, n)[flagPos]
  {
  }

  method EmitLiteral(out: array<byte>, n: nat, dest: nat, b: byte) returns (ok: bool, dest': nat)
    requires dest <= n <= out.Length
    modifies out
    ensures out[n..] == old(out[n..])
    ensures ok == (1 <= dest)
    ensures ok ==> dest' == dest - 1 && Written(out, dest', n) == old(Written(out, dest, n)) + [b]
  {
    ok, dest' := dest >= 1, dest;
    if ok {
      PushByte(out, dest, n, b);
      dest' := dest - 1;
    }
  }

  /** Slides `count` bytes below `src` into the window. */
  method SlideBackward(w: Window, data: seq<byte>, src: nat, count: nat)
    requires count <= src <= |data| && Covers(w, Blz, Rev(data), |data| - src)
    modifies w, w.next, w.prev, w.first, w.last
    ensures Covers(w, Blz, Rev(data), |data| - (src - count))
  {
    ghost var d := Rev(data);
    for i := 0 to count
      invariant Covers(w, Blz, d, |data| - (src - i))
    {
      ghost var p := |data| - (src - i);
      assert d[p] == data[src - i - 1];
      assert d[..p + 1] == d[..p] + [d[p]];
      assert w.windowLen == w.size ==> d[..p][p - 4098] == data[src - i + 4097];
      w.SlideByte(data[src - i - 1], if w.windowLen == w.size then data[src - i + 4097] else 0);
    }
  }

  /** Decides the token just below `src`. */
  method FindToken(w: Window, data: seq<byte>, src: nat) returns (t: Token)
    requires 0 < src <= |data| && Covers(w, Blz, Rev(data), |data| - src)
    ensures t == NextToken(Blz, Rev(data), |data| - src) && Span(t) <= src
  {
    var size, off := SearchBackward(w, data, src, Min(Min(0xF + 3, src), |data| - src));
    BestMatchIsMatch(Blz, Rev(data), |data| - src);
    assert Rev(data)[|data| - src] == data[src - 1];
    t := if size < 3 then Literal(data[src - 1]) else Match(size, off);
  }

  /** The encoder between two items. */
  ghost predicate Emitting(data: seq<byte>, src: nat, written: seq<byte>, full: seq<Token>, g: seq<Token>) {
    src <= |data| && Writing(Blz, written, [], full, g) && Encoding(Blz, Rev(data), |data| - src, full, g)
  }

  lemma EncodingPrefix(data: seq<byte>, src: nat, full: seq<Token>, g: seq<Token>)
    requires src <= |data| && Encoding(Blz, Rev(data), |data| - src, full, g)
    ensures |full + g| <= |Stream(data)| && Stream(data)[..|full + g|] == full + g
    ensures src == 0 ==> Stream(data) == full + g
    ensures src > 0 ==>
      |full + g| < |Stream(data)| && Stream(data)[|full + g|] == NextToken(Blz, Rev(data), |data| - src)
  {
    ParseDescribes(Blz, Rev(data), |data| - src);
    assert full + g + Parse(Blz, Rev(data), |data| - src) == Stream(data);
  }

  /** The place of an open group's next item in the stream is what has been written. */
  lemma WrittenPos(written: seq<byte>, full: seq<Token>, g: seq<Token>, toks: seq<Token>)
    requires Writing(Blz, written, [], full, g) && |g| < 8 && AllWellFormed(Blz, toks)
    requires |full + g| <= |toks| && toks[..|full + g|] == full + g
    ensures |written| == Pos(Items(Blz, toks), |full + g|) + FlagSize(|full + g|)
    ensures |full + g| % 8 == |g|
  {
    assert Items(Blz, toks)[..|full + g|] == Items(Blz, full + g);
    if g == [] {
      assert full + g == full;
    } else {
      WritingCloses(Blz, written, [], full, g);
    }
  }

  /** When an item does not fit, the stream overflows. */
  lemma ItemOverflows(data: seq<byte>, src: nat, written: seq<byte>, full: seq<Token>, g: seq<Token>)
    requires src > 0 && Emitting(data, src, written, full, g) && |g| < 8 && |written| <= |data|
    requires WellFormed(Blz, NextToken(Blz, Rev(data), |data| - src))
    requires |written| + |Payload(Blz, NextToken(Blz, Rev(data), |data| - src))| > |data|
    ensures Emit(data) == Overflow
  {
    EncodingPrefix(data, src, full, g);
    WrittenPos(written, full, g, Stream(data));
    OverflowAt(data, |full + g|, |written|);
  }

  /** The item `k`, whose payload would begin at `at`, does not fit. */
  lemma OverflowAt(data: seq<byte>, k: nat, at: nat)
    requires k < |Stream(data)| && at == Pos(Items(Blz, Stream(data)), k) + FlagSize(k) <= |data|
    requires at + |Payload(Blz, Stream(data)[k])| > |data| && (k % 8 != 0 || FlagSize(k) == 1)
    ensures Emit(data) == Overflow
  {
    var items := Items(Blz, Stream(data));
    EncodeLaidOut(items, k);
    assert items[k] == ItemOf(Blz, Stream(data)[k]);
    FitCountIs(items, 0, k, |data|);
  }

  /** The encoder between two groups. */
  ghost predicate Between(data: seq<byte>, src: nat, written: seq<byte>, full: seq<Token>) {
    && src <= |data| && AllWellFormed(Blz, full) && (src > 0 ==> |full| % 8 == 0)
    && written == EncodeTokens(Blz, full) && Encoding(Blz, Rev(data), |data| - src, full, [])
  }

  /** When the loop ends, the whole stream has been emitted or the buffer is full at a flag boundary. */
  lemma LoopEnds(data: seq<byte>, src: nat, written: seq<byte>, full: seq<Token>)
    requires Between(data, src, written, full) && |written| <= |data|
    requires src == 0 || |written| == |data|
    ensures Emit(data) == Emitted(|full|) && Stream(data)[..|full|] == full
  {
    var stream, k := Stream(data), |full|;
    var items := Items(Blz, stream);
    assert full + [] == full;
    EncodingPrefix(data, src, full, []);
    assert items[..k] == Items(Blz, full);
    if k < |items| {
      EncodeLaidOut(items, k);
      assert items[k] == ItemOf(Blz, stream[k]);
    }
    FitCountIs(items, 0, k, |data|);
  }

  /** The output buffer is none of the window's tables. */
  ghost predicate Ready(w: Window, out: array<byte>, data: seq<byte>, src: nat)
    reads w, w.next, w.prev, w.first, w.last
  {
    src <= |data| <= out.Length && Apart(w, out) && Covers(w, Blz, Rev(data), |data| - src)
  }

  /** One item: decide, slide, emit. */
  method CompressItem(
    data: seq<byte>, src: nat, w: Window, out: array<byte>, at: nat, dest: nat, i: nat,
    ghost full: seq<Token>, ghost g: seq<Token>)
    returns (ok: bool, src': nat, dest': nat, ghost t: Token)
    requires src > 0 && Ready(w, out, data, src) && dest <= |data| && i == |g| < 8
    requires Emitting(data, src, Written(out, dest, |data|), full, g)
    requires at == |data| - 1 - FlagPos(Blz, [], full)
    modifies out, w, w.next, w.prev, w.first, w.last
    ensures out[|data|..] == old(out[|data|..])
    ensures !ok ==> Emit(data) == Overflow
    ensures ok ==>
      && src' < src && dest' <= dest && Ready(w, out, data, src')
      && Emitting(data, src', Written(out, dest', |data|), full, g + [t])
  {
    ghost var written := Written(out, dest, |data|);
    var tok;
    ghost var g';
    tok, src', g' := DecideItem(w, data, src, written, full, g);
    t := tok;
    SlideBackward(w, data, src, Span(tok));
    ok, dest' := EmitToken(out, |data|, at, dest, i, tok, full, g);
  }

  /** The next token, and what it means if there is no room for it. */
  method DecideItem(
    w: Window, data: seq<byte>, src: nat, ghost written: seq<byte>, ghost full: seq<Token>, ghost g: seq<Token>)
    returns (t: Token, src': nat, ghost g': seq<Token>)
    requires 0 < src <= |data| && Covers(w, Blz, Rev(data), |data| - src)
    requires Emitting(data, src, written, full, g) && |g| < 8 && |written| <= |data|
    ensures WellFormed(Blz, t) && 0 < Span(t) <= src && src' == src - Span(t)
    ensures g' == g + [t] && Encoding(Blz, Rev(data), |data| - src', full, g')
    ensures |Payload(Blz, t)| > |data| - |written| ==> Emit(data) == Overflow
  {
    t := FindToken(w, data, src);
    src' := src - Span(t);
    g' := ItemBack(Rev(data), |data| - src, |data| - src', full, g, t);
    PayloadOverflows(data, src, written, full, g, t);
  }

  lemma StepBack(d: seq<byte>, p: nat, p': nat, full: seq<Token>, g: seq<Token>, t: Token)
    requires p < |d| && Encoding(Blz, d, p, full, g) && t == NextToken(Blz, d, p) && p' == p + Span(t)
    ensures WellFormed(Blz, t) && Encoding(Blz, d, p', full, g + [t])
  {
    EncodingStep(Blz, d, p, full, g, t, p');
  }

  lemma PayloadOverflows(data: seq<byte>, src: nat, written: seq<byte>, full: seq<Token>, g: seq<Token>, t: Token)
    requires 0 < src && Emitting(data, src, written, full, g) && |g| < 8 && |written| <= |data|
    requires t == NextToken(Blz, Rev(data), |data| - src) && WellFormed(Blz, t)
    ensures |Payload(Blz, t)| > |data| - |written| ==> Emit(data) == Overflow
  {
    if |Payload(Blz, t)| > |data| - |written| {
      ItemOverflows(data, src, written, full, g);
    }
  }

  /** One more item. */
  lemma ItemBack(d: seq<byte>, p: nat, p': nat, full: seq<Token>, g: seq<Token>, t: Token) returns (g': seq<Token>)
    requires p < |d| && Encoding(Blz, d, p, full, g) && t == NextToken(Blz, d, p) && p' == p + Span(t)
    ensures WellFormed(Blz, t) && g' == g + [t] && Encoding(Blz, d, p', full, g')
  {
    StepBack(d, p, p', full, g, t);
    g' := g + [t];
  }

  /** Makes room for the flag byte. */
  method StartGroup(data: seq<byte>, src: nat, w: Window, out: array<byte>, dest: nat, ghost full: seq<Token>)
    requires src > 0 && Ready(w, out, data, src) && 0 < dest <= |data|
    requires Between(data, src, Written(out, dest, |data|), full)
    modifies out
    ensures out[|data|..] == old(out[|data|..])
    ensures Ready(w, out, data, src) && Emitting(data, src, Written(out, dest - 1, |data|), full, [])
    ensures dest - 1 == |data| - 1 - FlagPos(Blz, [], full)
  {
    PushByte(out, dest, |data|, 0);
    WritingOpens(Blz, [], full);
    assert [] + EncodeTokens(Blz, full) + [0] == Written(out, dest - 1, |data|);
  }

  lemma EndGroup(data: seq<byte>, src: nat, written: seq<byte>, full: seq<Token>, g: seq<Token>)
    requires src <= |data| && Emitting(data, src, written, full, g) && 0 < |g| <= 8 && (src > 0 ==> |g| == 8)
    ensures Between(data, src, written, full + g)
  {
    CloseGroup(Blz, Rev(data), |data| - src, written, [], full, g);
    assert [] + EncodeTokens(Blz, full + g) == EncodeTokens(Blz, full + g);
  }

  /** One flag byte and its items. */
  method CompressGroup(data: seq<byte>, src: nat, w: Window, out: array<byte>, dest: nat, ghost full: seq<Token>)
    returns (ok: bool, src': nat, dest': nat, ghost full': seq<Token>)
    requires src > 0 && Ready(w, out, data, src) && 0 < dest <= |data|
    requires Between(data, src, Written(out, dest, |data|), full)
    modifies out, w, w.next, w.prev, w.first, w.last
    ensures out[|data|..] == old(out[|data|..])
    ensures !ok ==> Emit(data) == Overflow
    ensures ok ==>
      && src' < src && dest' < dest && Ready(w, out, data, src')
      && Between(data, src', Written(out, dest', |data|), full')
  {
    var n := |data|;
    var at := dest - 1;
    StartGroup(data, src, w, out, dest, full);
    ok, src', dest', full' := true, src, at, full;
    ghost var g: seq<Token> := [];
    var i := 0;
    while i < 8 && src' > 0
      invariant 0 <= i == |g| <= 8 && src' <= src && dest' <= at < n
      invariant (src' == src) == (i == 0)
      invariant Ready(w, out, data, src') && Emitting(data, src', Written(out, dest', n), full, g)
      invariant out[n..] == old(out[n..])
      decreases 8 - i
    {
      ghost var t;
      ok, src', dest', t := CompressItem(data, src', w, out, at, dest', i, full, g);
      if !ok {
        return;
      }
      g := g + [t];
      i := i + 1;
    }
    EndGroup(data, src', Written(out, dest', n), full, g);
    full' := full + g;
  }

  /** The encode loop, from the end of the data towards its start. */
  method EncodeLoop(data: seq<byte>, out: array<byte>) returns (ok: bool, dest: nat, ghost count: nat)
    requires 0 < |data| <= out.Length
    modifies out
    ensures out[|data|..] == old(out[|data|..])
    ensures !ok ==> Emit(data) == Overflow
    ensures ok ==>
      && dest <= |data| && Emit(data) == Emitted(count)
      && Written(out, dest, |data|) == EncodeTokens(Blz, Stream(data)[..count])
  {
    var n := |data|;
    var w := new Window(4098);
    var src: nat := n;
    dest, ok, count := n, true, 0;
    ghost var full: seq<Token> := [];
    assert w.hist == Rev(data)[..0];
    while src > 0 && dest > 0
      invariant src <= n && dest <= n && Ready(w, out, data, src)
      invariant fresh(w) && fresh(w.next) && fresh(w.prev) && fresh(w.first) && fresh(w.last)
      invariant Between(data, src, Written(out, dest, n), full)
      invariant out[n..] == old(out[n..])
    {
      ok, src, dest, full := CompressGroup(data, src, w, out, dest, full);
      if !ok {
        return;
      }
    }
    LoopEnds(data, src, Written(out, dest, n), full);
    count := |full|;
  }

  // ----- The safety scan -----

  datatype Safety = OutOfBuffer | Safe(orig: nat, comp: nat)

  /** The cut the scan settles on, as the specification names it. */
  ghost function ScanResult(n: nat, toks: seq<Token>): Safety
    requires AllWellFormed(Blz, toks)
    requires forall i :: 0 <= i <= |toks| ==> OrigLeft(n, toks, i) >= 0
  {
    match FirstCut(n, toks, 0)
    case Some(cut) => Safe(OrigLeft(n, toks, cut), CompLeft(toks, cut))
    case None => if OrigLeft(n, toks, |toks|) == 0 then Safe(0, 0) else OutOfBuffer
  }

  /** `cb` is the compressed buffer: the stream, last byte first. */
  ghost predicate Scannable(n: nat, toks: seq<Token>, cb: seq<byte>, pos: seq<nat>, flags: seq<byte>) {
    && AllWellFormed(Blz, toks) && Layout(Blz, toks, EncodeTokens(Blz, toks), pos, flags)
    && cb == Rev(EncodeTokens(Blz, toks))
    && (forall k :: 0 <= k <= |toks| ==> pos[k] == Pos(Items(Blz, toks), k))
    && (forall i :: 0 <= i <= |toks| ==> OrigLeft(n, toks, i) >= 0)
  }

  /** What the scan reads at token `i`, the `j`-th of its group. */
  lemma ScanToken(n: nat, toks: seq<Token>, cb: seq<byte>, pos: seq<nat>, flags: seq<byte>, i: nat, j: nat, comp: nat)
    requires Scannable(n, toks, cb, pos, flags) && i < |toks| && j == i % 8
    requires comp == CompLeft(toks, i) - if j == 0 then 1 else 0
    ensures BitSet(flags[i], j) == toks[i].Match? && WellFormed(Blz, toks[i])
    ensures comp == CompLeft(toks, i + 1) + |Payload(Blz, toks[i])| <= |cb|
    ensures j == 0 ==> comp < |cb| && cb[comp] == flags[i]
    ensures toks[i].Match? ==> cb[comp - 1] as int / 16 + 3 == toks[i].len
  {
    var e, t := EncodeTokens(Blz, toks), toks[i];
    assert TokenAt(Blz, t, e, pos[i], pos[i + 1], flags[i], j);
    CompLeftStep(toks, i);
    var a := pos[i] + if j == 0 then 1 else 0;
    assert e[a..pos[i + 1]][0] == e[a];
    if t.Match? {
      StoredMatch(t.len, t.off);
    }
  }

  /** One item of the scan; `cut` tells that less output than stream is left after a match. */
  method ScanItem(cb: seq<byte>, flag: byte, j: nat, orig: nat, comp: nat) returns (orig': int, comp': int, cut: bool)
    requires j < 8 && comp <= |cb| && (BitSet(flag, j) ==> comp > 0)
    ensures !BitSet(flag, j) ==> orig' == orig - 1 && comp' == comp - 1 && !cut
    ensures BitSet(flag, j) ==>
      orig' == orig - (cb[comp - 1] as int / 16 + 3) && comp' == comp - 2 && cut == (orig' < comp')
  {
    if !BitSet(flag, j) {
      orig', comp', cut := orig - 1, comp - 1, false;
    } else {
      var size := cb[comp - 1] as int / 16 + 3;
      orig', comp' := orig - size, comp - 2;
      cut := orig' < comp';
    }
  }

  /** The scan between two items, token `i` being next. */
  ghost predicate Scanning(n: nat, toks: seq<Token>, i: nat, orig: int, comp: int)
    requires AllWellFormed(Blz, toks)
  {
    && i <= |toks| && orig == OrigLeft(n, toks, i) && comp == CompLeft(toks, i)
    && FirstCut(n, toks, i) == FirstCut(n, toks, 0)
  }

  lemma ScanStep(
    n: nat, toks: seq<Token>, cb: seq<byte>, pos: seq<nat>, flags: seq<byte>, i: nat, j: nat,
    orig: nat, comp: nat, orig': int, comp': int, cut: bool)
    requires Scannable(n, toks, cb, pos, flags) && i < |toks| && j == i % 8
    requires orig == OrigLeft(n, toks, i) && comp == CompLeft(toks, i) - if j == 0 then 1 else 0
    requires FirstCut(n, toks, i) == FirstCut(n, toks, 0)
    requires orig' == orig - Span(toks[i]) && comp' == comp - |Payload(Blz, toks[i])|
    requires cut == (toks[i].Match? && orig' < comp')
    ensures orig' == OrigLeft(n, toks, i + 1) >= 0 && comp' == CompLeft(toks, i + 1)
    ensures cut ==> ScanResult(n, toks) == Safe(orig', comp')
    ensures !cut ==> Scanning(n, toks, i + 1, orig', comp')
  {
    CompLeftStep(toks, i);
    assert cut == IsCut(n, toks, i + 1);
  }

  /** The scan inside a group, about to read token `i`, the group's `j`-th. */
  ghost predicate InGroup(n: nat, toks: seq<Token>, i: nat, j: nat, orig: int, comp: int)
    requires AllWellFormed(Blz, toks)
  {
    && i < |toks| && j == i % 8 && orig > 0
    && orig == OrigLeft(n, toks, i)
    && comp == CompLeft(toks, i) - (if j == 0 then 1 else 0)
    && FirstCut(n, toks, i) == FirstCut(n, toks, 0)
  }

  lemma NextInGroup(n: nat, toks: seq<Token>, pos: seq<nat>, flags: seq<byte>, i: nat, j: nat, orig: int, comp: int)
    requires AllWellFormed(Blz, toks) && Layout(Blz, toks, EncodeTokens(Blz, toks), pos, flags)
    requires Scanning(n, toks, i + 1, orig, comp) && i < |toks| && j == i % 8 && orig > 0 && j < 7
    requires |toks| % 8 == 0 || OrigLeft(n, toks, |toks|) == 0
    ensures InGroup(n, toks, i + 1, j + 1, orig, comp) && flags[i + 1] == flags[i]
  {
    NextSlot(i);
    MoreTokens(n, toks, i + 1);
  }

  /** One item of the scan, in terms of the stream. */
  method ScanNext(
    cb: seq<byte>, flag: byte, ghost n: nat, j: nat, orig: nat, comp: nat, ghost toks: seq<Token>,
    ghost pos: seq<nat>, ghost flags: seq<byte>, ghost i: nat)
    returns (orig': nat, comp': nat, cut: bool)
    requires Scannable(n, toks, cb, pos, flags) && InGroup(n, toks, i, j, orig, comp) && flag == flags[i]
    requires |toks| % 8 == 0 || OrigLeft(n, toks, |toks|) == 0
    ensures cut ==> ScanResult(n, toks) == Safe(orig', comp')
    ensures !cut ==> Scanning(n, toks, i + 1, orig', comp')
    ensures !cut && orig' > 0 && j < 7 ==>
      i + 1 < |toks| && InGroup(n, toks, i + 1, j + 1, orig', comp') && flags[i + 1] == flag
  {
    NextSlot(i);
    ScanToken(n, toks, cb, pos, flags, i, j, comp);
    var o, c;
    o, c, cut := ScanItem(cb, flag, j, orig, comp);
    ScanStep(n, toks, cb, pos, flags, i, j, orig, comp, o, c, cut);
    orig', comp' := o, c;
    if !cut && orig' > 0 && j < 7 {
      NextInGroup(n, toks, pos, flags, i, j, orig', comp');
    }
  }

  /** The items of one flag byte. */
  method ScanGroup(
    cb: seq<byte>, flag: byte, ghost n: nat, orig: nat, comp: nat, ghost toks: seq<Token>, ghost pos: seq<nat>,
    ghost flags: seq<byte>, ghost i: nat)
    returns (orig': nat, comp': nat, cut: bool, ghost i': nat)
    requires Scannable(n, toks, cb, pos, flags) && InGroup(n, toks, i, 0, orig, comp) && flag == flags[i]
    requires |toks| % 8 == 0 || OrigLeft(n, toks, |toks|) == 0
    ensures cut ==> ScanResult(n, toks) == Safe(orig', comp')
    ensures !cut ==> i < i' && Scanning(n, toks, i', orig', comp') && (orig' > 0 ==> i' % 8 == 0)
  {
    orig', comp', cut, i' := orig, comp, false, i;
    var j: nat := 0;
    while j < 8
      invariant j < 8 && i <= i' < |toks| && !cut && flag == flags[i']
      invariant InGroup(n, toks, i', j, orig', comp')
      decreases 8 - j
    {
      orig', comp', cut := ScanNext(cb, flag, n, j, orig', comp', toks, pos, flags, i');
      NextSlot(i');
      i' := i' + 1;
      if cut || orig' <= 0 || j == 7 {
        return;
      }
      j := j + 1;
    }
  }

  /** The safety scan: it re-reads the stream and looks for the first cut. */
  method Scan(cb: seq<byte>, n: nat, ghost toks: seq<Token>, ghost pos: seq<nat>, ghost flags: seq<byte>)
    returns (r: Safety)
    requires Scannable(n, toks, cb, pos, flags)
    requires |toks| % 8 == 0 || OrigLeft(n, toks, |toks|) == 0
    ensures r == ScanResult(n, toks)
  {
    var orig: nat, comp: nat := n, |cb|;
    ghost var i: nat := 0;
    CompLeftStart(toks);
    while orig > 0
      invariant Scanning(n, toks, i, orig, comp) && (orig > 0 ==> i % 8 == 0) && comp <= |cb|
      decreases |toks| - i
    {
      if comp == 0 {
        StreamUsedUp(toks, i);
        return OutOfBuffer;
      }
      assert i < |toks|;
      ScanToken(n, toks, cb, pos, flags, i, 0, comp - 1);
      var flag := cb[comp - 1];
      var cut;
      orig, comp, cut, i := ScanGroup(cb, flag, n, orig, comp - 1, toks, pos, flags, i);
      if cut {
        return Safe(orig, comp);
      }
      CompLeftMonotone(toks, 0, i);
    }
    NothingLeft(n, toks, i);
    return Safe(0, 0);
  }

  lemma StreamUsedUp(toks: seq<Token>, i: nat)
    requires AllWellFormed(Blz, toks) && i <= |toks| && CompLeft(toks, i) == 0
    ensures i == |toks|
  {
    if i < |toks| {
      CompLeftStep(toks, i);
    }
  }

  lemma NothingLeft(n: nat, toks: seq<Token>, i: nat)
    requires AllWellFormed(Blz, toks) && i <= |toks| && OrigLeft(n, toks, i) == 0
    requires OrigLeft(n, toks, |toks|) >= 0
    ensures i == |toks|
  {
    if i < |toks| {
      SpanSumMonotone(toks, i + 1, |toks|);
    }
  }

  /** Output is left inside a group only if tokens are. */
  lemma MoreTokens(n: nat, toks: seq<Token>, i: nat)
    requires i <= |toks| && OrigLeft(n, toks, i) > 0 && i % 8 != 0
    requires |toks| % 8 == 0 || OrigLeft(n, toks, |toks|) == 0
    ensures i < |toks|
  {
  }

  // ----- Putting the file together -----

  /** The verbatim prefix is copied down first, then the stream is moved next to it. The prefix ends
      before the bytes still to be moved begin, since it is no longer than the stream left over. */
  method Gather(data: seq<byte>, out: array<byte>, dest: nat, orig: nat, comp: nat)
    requires |data| <= out.Length && orig <= comp && dest + comp <= |data|
    modifies out
    ensures out[..orig + |data| - dest - comp] == data[..orig] + old(out[dest + comp..|data|])
    ensures out[|data|..] == old(out[|data|..])
  {
    CopyPrefix(data, out, orig);
    assert out[dest + comp..|data|] == old(out[dest + comp..|data|]) by {
      assert out[orig..][dest + comp - orig..|data| - orig] == out[dest + comp..|data|];
    }
    assert out[|data|..] == out[orig..][|data| - orig..];
    assert old(out[|data|..]) == old(out[orig..])[|data| - orig..];
    MoveStream(out, orig, dest + comp, |data|);
  }

  method CopyPrefix(data: seq<byte>, out: array<byte>, orig: nat)
    requires orig <= |data| && orig <= out.Length
    modifies out
    ensures out[..orig] == data[..orig] && out[orig..] == old(out[orig..])
  {
    forall x | 0 <= x < orig {
      out[x] := data[x];
    }
  }

  /** Moves `out[from..n]` down to `to`. */
  method MoveStream(out: array<byte>, to: nat, from: nat, n: nat)
    requires to <= from <= n <= out.Length
    modifies out
    ensures out[..to + n - from] == old(out[..to]) + old(out[from..n])
    ensures out[n..] == old(out[n..])
  {
    var len := n - from;
    forall y | 0 <= y < len {
      out[to + y] := out[from + y];
    }
    assert out[..to] == old(out[..to]) && out[to..to + len] == old(out[from..n]);
    SlicesJoin(out[..], 0, to, to + len);
  }

  /** Pads with 0xFF and stores the footer. */
  method Close(out: array<byte>, n: nat, pad: nat, footer: nat, orig: nat)
    requires orig <= pad <= footer && footer + FOOTER < n <= out.Length && n < U32_LIMIT
    requires footer + FOOTER - orig <= 0xFFFFFF && footer + FOOTER - pad < 256
    modifies out
    ensures out[..footer + FOOTER]
         == old(out[..pad]) + Fill(footer - pad) + Footer(n, footer + FOOTER, orig, pad)
    ensures out[n..] == old(out[n..])
  {
    FillPad(out, n, pad, footer);
    var size := footer + FOOTER;
    WriteFooter(out, n, footer, size - orig + (size - pad) * 0x100_0000, n - size);
  }

  method FillPad(out: array<byte>, ghost n: nat, pad: nat, footer: nat)
    requires pad <= footer <= n <= out.Length
    modifies out
    ensures out[..footer] == old(out[..pad]) + Fill(footer - pad) && out[n..] == old(out[n..])
  {
    forall x | pad <= x < footer {
      out[x] := 0xFF;
    }
  }

  method WriteFooter(out: array<byte>, ghost n: nat, footer: nat, word: nat, rest: nat)
    requires footer + FOOTER <= n <= out.Length && word < U32_LIMIT && rest < U32_LIMIT
    modifies out
    ensures out[..footer + FOOTER] == old(out[..footer]) + (Le32(word) + Le32(rest)) && out[n..] == old(out[n..])
  {
    StoreLe32(out, footer, word, n);
    StoreLe32(out, footer + 4, rest, n);
    Associate(old(out[..footer]), Le32(word), Le32(rest));
  }

  /** The bytes still to be moved are what is left of the stream. */
  lemma StreamTail(buf: seq<byte>, dest: nat, n: nat, comp: nat, e: seq<byte>)
    requires dest + comp <= n <= |buf| && Rev(buf[dest..n]) == e
    ensures comp <= |e| && buf[dest + comp..n] == Rev(e)[comp..]
  {
    RevRev(buf[dest..n]);
    assert buf[dest..n][comp..] == buf[dest + comp..n];
  }

  /** Moves everything into place. */
  method StoreFile(
    data: seq<byte>, out: array<byte>, dest: nat, orig: nat, comp: nat, pad: nat, footer: nat, ghost e: seq<byte>)
    requires |data| <= out.Length && |data| < U32_LIMIT && orig <= comp && dest + comp <= |data|
    requires Written(out, dest, |data|) == e && pad == orig + |data| - dest - comp && footer == Align(pad, 4)
    requires footer + FOOTER < |data| && footer + FOOTER - orig <= 0xFFFFFF
    modifies out
    ensures out[|data|..] == old(out[|data|..])
    ensures comp <= |e| && footer + FOOTER == FileSize(e, orig, comp)
    ensures out[..footer + FOOTER] == Assemble(data, e, orig, comp)
  {
    StreamTail(out[..], dest, |data|, comp, e);
    Gather(data, out, dest, orig, comp);
    Close(out, |data|, pad, footer, orig);
  }

  /** The last steps: sizes, the two refusals, and the file itself. */
  method FinishFile(data: seq<byte>, out: array<byte>, dest: nat, orig: nat, comp: nat, ghost e: seq<byte>)
    returns (ok: bool, size: nat)
    requires |data| <= out.Length && |data| < U32_LIMIT && dest <= |data|
    requires Written(out, dest, |data|) == e && comp <= |e| && orig <= comp
    modifies out
    ensures out[|data|..] == old(out[|data|..])
    ensures ok == (FileSize(e, orig, comp) < |data| && FileSize(e, orig, comp) - orig <= 0xFFFFFF)
    ensures ok ==> size == FileSize(e, orig, comp) && out[..size] == Assemble(data, e, orig, comp)
  {
    var n := |data|;
    var pad := orig + n - dest - comp;
    var footer := Align(pad, 4);
    size := footer + FOOTER;
    ok := size < n && size - orig <= 0xFFFFFF;
    if ok {
      StoreFile(data, out, dest, orig, comp, pad, footer, e);
    }
  }

  lemma RevRev(a: seq<byte>)
    ensures Rev(Rev(a)) == a
  {
  }

  /** What the scan finds is what `Compressed` is built on. */
  lemma ScanDecides(data: seq<byte>, count: nat, orig: nat, comp: nat)
    requires FOOTER < |data| < U32_LIMIT && Emit(data) == Emitted(count)
    requires forall i :: 0 <= i <= count ==> OrigLeft(|data|, Stream(data)[..count], i) >= 0
    ensures var toks := Stream(data)[..count];
      && (ScanResult(|data|, toks).OutOfBuffer? ==> Compressed(data) == RunsOff)
      && (ScanResult(|data|, toks) == Safe(orig, comp) ==>
            && comp <= |EncodeTokens(Blz, toks)| && orig <= comp && orig <= |data|
            && var e := EncodeTokens(Blz, toks);
               var size := FileSize(e, orig, comp);
               Compressed(data) == if size >= |data| || size - orig > 0xFFFFFF then Refused
                                   else Done(Assemble(data, e, orig, comp)))
  {
    var toks := Stream(data)[..count];
    LeftoverMeans(data, count);
    CompLeftStart(toks);
  }

  /** Output is left after the last token exactly when tokens are. */
  lemma LeftoverMeans(data: seq<byte>, count: nat)
    requires count <= |Stream(data)|
    ensures (OrigLeft(|data|, Stream(data)[..count], count) == 0) == (count == |Stream(data)|)
  {
    var stream := Stream(data);
    StreamWithin(data, count, count);
    if count < |stream| {
      StreamWithin(data, count + 1, count + 1);
      SpanSumPrefix(stream, count, count);
      SpanSumPrefix(stream, count + 1, count + 1);
    }
  }

  datatype Verdict = Failed | OutOfBounds | Succeeded(size: nat)

  /** Compress, given `capacity` bytes of room: the three outcomes of the specification. */
  method Compress(data: seq<byte>, out: array<byte>, capacity: nat) returns (r: Verdict)
    requires |data| < U32_LIMIT && capacity <= out.Length
    modifies out
    ensures out[capacity..] == old(out[capacity..])
    ensures capacity < |data| ==> r == Failed
    ensures capacity >= |data| ==>
      match Compressed(data)
      case Refused => r == Failed
      case RunsOff => r == OutOfBounds
      case Done(file) => r == Succeeded(|file|) && |file| <= out.Length && out[..|file|] == file
  {
    var n := |data|;
    if n <= FOOTER || capacity < n {
      return Failed;
    }
    var ok, dest;
    ghost var count;
    ok, dest, count := EncodeLoop(data, out);
    if !ok {
      assert out[capacity..] == out[n..][capacity - n..];
      return Failed;
    }
    r := ScanAndFinish(data, out, dest, count);
    assert out[capacity..] == out[n..][capacity - n..];
  }

  /** Compress once the loop has ended: the scan, and then the rest of the file. */
  method ScanAndFinish(data: seq<byte>, out: array<byte>, dest: nat, ghost count: nat) returns (r: Verdict)
    requires FOOTER < |data| < U32_LIMIT && |data| <= out.Length && Emit(data) == Emitted(count)
    requires dest <= |data| && Written(out, dest, |data|) == EncodeTokens(Blz, Stream(data)[..count])
    modifies out
    ensures out[|data|..] == old(out[|data|..])
    ensures
      match Compressed(data)
      case Refused => r == Failed
      case RunsOff => r == OutOfBounds
      case Done(file) => r == Succeeded(|file|) && |file| <= out.Length && out[..|file|] == file
  {
    var n := |data|;
    ghost var toks := Stream(data)[..count];
    ghost var e := EncodeTokens(Blz, toks);
    StreamPrefix(data, count);
    LeftoverMeans(data, count);
    ghost var pos, flags := EncodedLayout(Blz, toks, e, 0);
    RevRev(out[dest..n]);
    var scan := Scan(out[dest..n], n, toks, pos, flags);
    if scan.OutOfBuffer? {
      ScanDecides(data, count, 0, 0);
      return OutOfBounds;
    }
    ScanDecides(data, count, scan.orig, scan.comp);
    var size;
    var ok;
    ok, size := FinishFile(data, out, dest, scan.orig, scan.comp, e);
    r := if ok then Succeeded(size) else Failed;
  }
}
