/** The encoders' output discipline: a flag byte is opened, then patched in place as the items of its
    group are appended. */
module StreamWriter {
  import opened Bytes
  import opened FlagGroups
  import opened TokenStream
  import opened GreedyParse

  /** `buf` holds `head`, the complete groups `full`, and the open group whose tokens so far are `g`. */
  ghost predicate Writing(f: Format, buf: seq<byte>, head: seq<byte>, full: seq<Token>, g: seq<Token>) {
    && AllWellFormed(f, full) && AllWellFormed(f, g) && |full| % 8 == 0 && |g| <= 8
    && buf == head + EncodeTokens(f, full) + Group(Items(f, g))
  }

  ghost function FlagPos(f: Format, head: seq<byte>, full: seq<Token>): nat
    requires AllWellFormed(f, full)
  {
    |head| + |EncodeTokens(f, full)|
  }

  lemma WritingOpens(f: Format, head: seq<byte>, full: seq<Token>)
    requires AllWellFormed(f, full) && |full| % 8 == 0
    ensures Writing(f, head + EncodeTokens(f, full) + [0], head, full, [])
  {
    assert Items(f, []) == [];
    ShlZero(8);
    assert FlagOf([]) == 0;
  }

  lemma ItemsSnoc(f: Format, g: seq<Token>, t: Token)
    requires AllWellFormed(f, g) && WellFormed(f, t)
    ensures AllWellFormed(f, g + [t]) && Items(f, g + [t]) == Items(f, g) + [ItemOf(f, t)]
  {
  }

  /** The flag byte after one more token. */
  function Flagged(f: Format, flag: int, t: Token, i: nat): int
    requires i < 8
  {
    flag + if FlagBit(f, t) then Mask(i) else 0
  }

  lemma WritingStep(f: Format, buf: seq<byte>, head: seq<byte>, full: seq<Token>, g: seq<Token>, t: Token)
    requires Writing(f, buf, head, full, g) && |g| < 8 && WellFormed(f, t)
    ensures var at := FlagPos(f, head, full);
      && at < |buf| && 0 <= Flagged(f, buf[at], t, |g|) < 256
      && Writing(f, buf[at := Flagged(f, buf[at], t, |g|)] + Payload(f, t), head, full, g + [t])
  {
    var at, items, item := FlagPos(f, head, full), Items(f, g), ItemOf(f, t);
    ItemsSnoc(f, g, t);
    FlagSnoc(items, item);
    GroupSnoc(items, item);
    PatchAppend(head + EncodeTokens(f, full), FlagOf(items), Payloads(items), FlagOf(items + [item]), item.bytes);
  }

  lemma PatchAppend(lead: seq<byte>, flag: byte, body: seq<byte>, flag': byte, bytes: seq<byte>)
    ensures (lead + ([flag] + body))[|lead| := flag'] + bytes == lead + ([flag'] + body + bytes)
    ensures (lead + ([flag] + body))[|lead|] == flag
  {
  }

  lemma ItemsConcat(f: Format, a: seq<Token>, b: seq<Token>)
    requires AllWellFormed(f, a) && AllWellFormed(f, b)
    ensures AllWellFormed(f, a + b) && Items(f, a + b) == Items(f, a) + Items(f, b)
  {
  }

  lemma WritingCloses(f: Format, buf: seq<byte>, head: seq<byte>, full: seq<Token>, g: seq<Token>)
    requires Writing(f, buf, head, full, g) && g != []
    ensures AllWellFormed(f, full + g) && buf == head + EncodeTokens(f, full + g)
  {
    ItemsConcat(f, full, g);
    EncodeAppendGroup(Items(f, full), Items(f, g));
  }

  /** The whole stream is at least as long as what is written plus the next payload. */
  lemma WritingRoom(f: Format, buf: seq<byte>, head: seq<byte>, full: seq<Token>, g: seq<Token>, rest: seq<Token>)
    requires Writing(f, buf, head, full, g) && |g| < 8 && AllWellFormed(f, rest) && rest != []
    ensures AllWellFormed(f, full + g + rest)
    ensures |buf| + |Payload(f, rest[0])| <= |head| + |EncodeTokens(f, full + g + rest)|
  {
    var t, more := rest[0], rest[1..];
    WritingStep(f, buf, head, full, g, t);
    var at := FlagPos(f, head, full);
    WritingCloses(f, buf[at := Flagged(f, buf[at], t, |g|)] + Payload(f, t), head, full, g + [t]);
    assert full + g + rest == (full + (g + [t])) + more;
    LongerStream(f, full + (g + [t]), more);
  }

  lemma LongerStream(f: Format, a: seq<Token>, b: seq<Token>)
    requires AllWellFormed(f, a) && AllWellFormed(f, b)
    ensures AllWellFormed(f, a + b) && |EncodeTokens(f, a)| <= |EncodeTokens(f, a + b)|
  {
    ItemsConcat(f, a, b);
    var items := Items(f, a + b);
    assert items[..|a|] == Items(f, a);
    PosMonotone(items, |a|, |a|);
  }

  /** No stream is longer than nine bytes for every eight of data. */
  lemma {:induction false} PosBound(f: Format, toks: seq<Token>, k: nat)
    requires AllWellFormed(f, toks) && k <= |toks|
    requires forall i :: 0 <= i < |toks| ==> |Payload(f, toks[i])| <= Span(toks[i])
    ensures Pos(Items(f, toks), k) <= SpanSum(toks, k) + (k + 7) / 8
  {
    var items := Items(f, toks);
    if k > 0 {
      PosBound(f, toks, k - 1);
      EncodeLaidOut(items, k - 1);
      assert items[k - 1] == ItemOf(f, toks[k - 1]);
      CeilEight(k - 1);
    } else {
      assert items[..0] == [];
    }
  }

  /** Literals take exactly nine bytes for eight. */
  lemma {:induction false} LiteralPos(f: Format, toks: seq<Token>, k: nat)
    requires k <= |toks| && forall i :: 0 <= i < |toks| ==> toks[i].Literal?
    ensures AllWellFormed(f, toks) && Pos(Items(f, toks), k) == k + (k + 7) / 8
  {
    var items := Items(f, toks);
    if k > 0 {
      LiteralPos(f, toks, k - 1);
      EncodeLaidOut(items, k - 1);
      assert items[k - 1] == ItemOf(f, toks[k - 1]);
      CeilEight(k - 1);
    } else {
      assert items[..0] == [];
    }
  }

  function SpanSum(toks: seq<Token>, k: nat): nat
    requires k <= |toks|
  {
    if k == 0 then 0 else SpanSum(toks, k - 1) + Span(toks[k - 1])
  }

  lemma CeilEight(k: nat)
    ensures (k + 8) / 8 == (k + 7) / 8 + FlagSize(k)
  {
  }

  lemma {:induction false} SpanSumOfDescribed(f: Format, d: seq<byte>, p: nat, toks: seq<Token>, k: nat)
    requires DescribesAll(f, d, p, toks) && k <= |toks|
    ensures SpanSum(toks, k) == Spans(toks[..k])
    decreases k
  {
    if k > 0 {
      SpanSumOfDescribed(f, d, p, toks, k - 1);
      SpansSnoc(toks[..k - 1], toks[k - 1]);
      assert toks[..k - 1] + [toks[k - 1]] == toks[..k];
    }
  }

  lemma {:induction false} SpansSnoc(toks: seq<Token>, t: Token)
    ensures Spans(toks + [t]) == Spans(toks) + Span(t)
  {
    if toks != [] {
      assert (toks + [t])[1..] == toks[1..] + [t];
      SpansSnoc(toks[1..], t);
    } else {
      assert toks + [t] == [t];
    }
  }

  lemma PayloadFits(f: Format, t: Token)
    requires WellFormed(f, t)
    ensures |Payload(f, t)| <= Span(t)
  {
  }

  lemma {:induction false} FewerTokens(toks: seq<Token>)
    requires forall i :: 0 <= i < |toks| ==> Span(toks[i]) > 0
    ensures |toks| <= Spans(toks)
  {
    if toks != [] {
      assert Span(toks[0]) > 0;
      FewerTokens(toks[1..]);
    }
  }

  /** The encoded stream never takes more than nine bytes for eight. */
  lemma StreamBound(f: Format, data: seq<byte>)
    ensures AllWellFormed(f, Parse(f, data, 0))
    ensures |EncodeTokens(f, Parse(f, data, 0))| <= (|data| + 7) / 8 * 9
  {
    var toks := Parse(f, data, 0);
    ParseDescribes(f, data, 0);
    forall i | 0 <= i < |toks| ensures |Payload(f, toks[i])| <= Span(toks[i]) {
      PayloadFits(f, toks[i]);
    }
    FewerTokens(toks);
    PosBound(f, toks, |toks|);
    SpanSumOfDescribed(f, data, 0, toks, |toks|);
    assert toks[..|toks|] == toks && Items(f, toks)[..|toks|] == Items(f, toks);
    NineForEight(|toks|, |data|);
  }

  lemma NineForEight(k: nat, n: nat)
    requires k <= n
    ensures n + (k + 7) / 8 <= (n + 7) / 8 * 9
  {
  }

  // ----- The encoder between two items -----

  /** `full` and `g` are emitted, the rest of the parse is to come. */
  ghost predicate Encoding(f: Format, data: seq<byte>, p: nat, full: seq<Token>, g: seq<Token>) {
    p <= |data| && full + g + Parse(f, data, p) == Parse(f, data, 0)
  }

  lemma EncodingStep(
    f: Format, data: seq<byte>, p: nat, full: seq<Token>, g: seq<Token>, t: Token, p': nat)
    requires p < |data| && Encoding(f, data, p, full, g) && t == NextToken(f, data, p) && p' == p + Span(t)
    ensures Describes(f, data, p, t) && Encoding(f, data, p', full, g + [t])
  {
    NextTokenDescribes(f, data, p);
    assert full + g + ([t] + Parse(f, data, p')) == full + (g + [t]) + Parse(f, data, p');
  }

  /** When the next item does not fit, the whole file would not have fitted. */
  lemma NoRoom(f: Format, data: seq<byte>, p: nat, full: seq<Token>, g: seq<Token>, buf: seq<byte>, head: seq<byte>)
    requires p < |data| && Encoding(f, data, p, full, g) && Writing(f, buf, head, full, g) && |g| < 8
    ensures AllWellFormed(f, Parse(f, data, 0)) && WellFormed(f, NextToken(f, data, p))
    ensures |buf| + |Payload(f, NextToken(f, data, p))| <= |head| + |EncodeTokens(f, Parse(f, data, 0))|
  {
    ParseDescribes(f, data, p);
    NextTokenDescribes(f, data, p);
    WritingRoom(f, buf, head, full, g, Parse(f, data, p));
  }

  /** The search's answer as a token. */
  function Chosen(size: nat, off: nat, b: byte): Token { if size < 3 then Literal(b) else Match(size, off) }

  /** One more item: what it adds to the stream, and how much room there must have been for it. */
  lemma ItemStep(
    f: Format, data: seq<byte>, p: nat, full: seq<Token>, g: seq<Token>, buf: seq<byte>, head: seq<byte>,
    t: Token, p': nat)
    requires p < |data| && Encoding(f, data, p, full, g) && Writing(f, buf, head, full, g) && |g| < 8
    requires t == NextToken(f, data, p) && p' == p + Span(t)
    ensures WellFormed(f, t) && Encoding(f, data, p', full, g + [t])
    ensures |buf| + |Payload(f, t)| <= |head| + StreamSize(f, data)
  {
    NoRoom(f, data, p, full, g, buf, head);
    EncodingStep(f, data, p, full, g, t, p');
  }

  ghost function StreamSize(f: Format, data: seq<byte>): nat {
    ParseDescribes(f, data, 0);
    |EncodeTokens(f, Parse(f, data, 0))|
  }

  lemma NoRoomForFlag(f: Format, data: seq<byte>, p: nat, full: seq<Token>)
    requires p < |data| && AllWellFormed(f, full) && |full| % 8 == 0 && Encoding(f, data, p, full, [])
    ensures |EncodeTokens(f, full)| < StreamSize(f, data)
  {
    WritingOpens(f, [], full);
    NoRoom(f, data, p, full, [], [] + EncodeTokens(f, full) + [0], []);
  }

  /** Reserves the flag byte of a group. */
  method OpenGroup(
    f: Format, ghost data: seq<byte>, ghost p: nat, out: array<byte>, d: nat, capacity: nat,
    ghost head: seq<byte>, ghost full: seq<Token>) returns (ok: bool, d': nat)
    requires p < |data| && d <= capacity <= out.Length && AllWellFormed(f, full) && |full| % 8 == 0
    requires out[..d] == head + EncodeTokens(f, full) && Encoding(f, data, p, full, [])
    modifies out
    ensures out[capacity..] == old(out[capacity..])
    ensures !ok ==> capacity < |head| + StreamSize(f, data)
    ensures ok ==> d' <= capacity && Writing(f, out[..d'], head, full, [])
  {
    ok, d' := d < capacity, d + 1;
    if ok {
      out[d] := 0;
      WritingOpens(f, head, full);
      assert out[..d'] == old(out[..d]) + [0];
    } else {
      NoRoomForFlag(f, data, p, full);
    }
  }

  lemma CloseGroup(
    f: Format, data: seq<byte>, p: nat, buf: seq<byte>, head: seq<byte>, full: seq<Token>, g: seq<Token>)
    requires Writing(f, buf, head, full, g) && Encoding(f, data, p, full, g) && g != []
    ensures AllWellFormed(f, full + g) && buf == head + EncodeTokens(f, full + g)
    ensures Encoding(f, data, p, full + g, [])
    ensures |g| == 8 ==> |full + g| % 8 == 0
  {
    WritingCloses(f, buf, head, full, g);
    assert full + g + [] == full + g;
  }

  /** Stores a literal, patching the flag byte where the format asks for it. */
  method EmitLiteral(f: Format, out: array<byte>, at: nat, d: nat, capacity: nat, i: nat, b: byte) returns (ok: bool)
    requires at < d <= capacity <= out.Length && i < 8 && 0 <= Flagged(f, out[at], Literal(b), i) < 256
    modifies out
    ensures out[capacity..] == old(out[capacity..])
    ensures ok == (d < capacity)
    ensures ok ==> out[..d + 1] == old(out[..d])[at := Flagged(f, old(out[at]), Literal(b), i)] + [b]
  {
    ok := d < capacity;
    if ok {
      out[at] := Flagged(f, out[at], Literal(b), i);
      out[d] := b;
    }
  }
}
