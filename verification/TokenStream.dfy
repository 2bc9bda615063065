/** The token layer shared by the LZ77, LZ77Ex, Yaz0 and backward LZ77 codecs: what tokens expand to,
    how each is stored in bytes, and how the decoder reads them back. The backward codec stores its
    stream last byte first, so `Blz` describes it mirrored. */
module TokenStream {
  import opened Bytes
  import opened FlagGroups

  datatype Format = Lz | LzEx | Yaz0 | Blz

  datatype Token = Literal(b: byte) | Match(len: nat, off: nat)

  /** The smallest distance a match can store. */
  function Bias(f: Format): nat { if f.Blz? then 3 else 1 }

  function MaxLen(f: Format): nat {
    match f
    case LzEx => 0xFFFF + 0xFF + 0xF + 3
    case Yaz0 => 0xFF + 0xF + 3
    case _ => 0xF + 3
  }

  predicate WellFormed(f: Format, t: Token) {
    t.Match? ==> 3 <= t.len <= MaxLen(f) && Bias(f) <= t.off < Bias(f) + 4096
  }

  predicate AllWellFormed(f: Format, toks: seq<Token>) {
    forall k :: 0 <= k < |toks| ==> WellFormed(f, toks[k])
  }

  // ----- What tokens mean -----

  /** Copies `len` bytes from `off` bytes back, one at a time, so the copy may overlap its own output. */
  function Copy(out: seq<byte>, off: nat, len: nat): (r: seq<byte>)
    requires 1 <= off <= |out|
    ensures |r| == |out| + len && out <= r
    decreases len
  {
    if len == 0 then out else Copy(out + [out[|out| - off]], off, len - 1)
  }

  /** A copy out of a prefix of `d` reproduces `d` when `d` repeats at that distance. */
  lemma {:induction false} CopyExtends(d: seq<byte>, p: nat, off: nat, len: nat)
    requires 1 <= off <= p && p + len <= |d|
    requires forall i :: p <= i < p + len ==> d[i] == d[i - off]
    ensures Copy(d[..p], off, len) == d[..p + len]
    decreases len
  {
    if len > 0 {
      assert d[p] == d[p - off];
      assert d[..p] + [d[..p][p - off]] == d[..p + 1];
      CopyExtends(d, p + 1, off, len - 1);
    }
  }

  /** How many bytes a token stands for. */
  function Span(t: Token): nat { if t.Literal? then 1 else t.len }

  predicate Applicable(t: Token, out: seq<byte>) { t.Match? ==> 1 <= t.off <= |out| && t.len > 0 }

  function Apply(out: seq<byte>, t: Token): (r: seq<byte>)
    requires Applicable(t, out)
    ensures |r| == |out| + Span(t) > |out| && out <= r
  {
    match t
    case Literal(b) => out + [b]
    case Match(len, off) => Copy(out, off, len)
  }

  predicate Expandable(out: seq<byte>, toks: seq<Token>)
    decreases |toks|
  {
    toks != [] ==> Applicable(toks[0], out) && Expandable(Apply(out, toks[0]), toks[1..])
  }

  function Expand(out: seq<byte>, toks: seq<Token>): (r: seq<byte>)
    requires Expandable(out, toks)
    ensures |out| + |toks| <= |r| && out <= r
    decreases |toks|
  {
    if toks == [] then out else Expand(Apply(out, toks[0]), toks[1..])
  }

  // ----- Byte encoding -----

  /** Yaz0 marks literals in its flag bytes, the other formats mark matches. */
  predicate FlagBit(f: Format, t: Token) { t.Literal? == f.Yaz0? }

  function MatchBytes(f: Format, len: nat, off: nat): (s: seq<byte>)
    requires WellFormed(f, Match(len, off))
    ensures 2 <= |s| <= 4
  {
    var hi, lo := (off - Bias(f)) / 256, (off - Bias(f)) % 256;
    match f
    case LzEx =>
      if len >= 0xFF + 0xF + 3 then
        var n := len - (0xFF + 0xF + 3);
        [0x10 + n / 4096, n / 16 % 256, n % 16 * 16 + hi, lo]
      else if len >= 0xF + 2 then
        var n := len - (0xF + 2);
        [n / 16, n % 16 * 16 + hi, lo]
      else
        [(len - 1) * 16 + hi, lo]
    case Yaz0 =>
      if len >= 0xF + 3 then [hi, lo, len - (0xF + 3)] else [(len - 2) * 16 + hi, lo]
    case _ => [(len - 3) * 16 + hi, lo]
  }

  function Payload(f: Format, t: Token): (s: seq<byte>)
    requires WellFormed(f, t)
    ensures 1 <= |s| <= 4
  {
    match t
    case Literal(b) => [b]
    case Match(len, off) => MatchBytes(f, len, off)
  }

  function ItemOf(f: Format, t: Token): Item
    requires WellFormed(f, t)
  {
    Item(FlagBit(f, t), Payload(f, t))
  }

  function Items(f: Format, toks: seq<Token>): (s: seq<Item>)
    requires AllWellFormed(f, toks)
    ensures |s| == |toks|
  {
    seq(|toks|, i requires 0 <= i < |toks| => ItemOf(f, toks[i]))
  }

  function EncodeTokens(f: Format, toks: seq<Token>): seq<byte>
    requires AllWellFormed(f, toks)
  {
    Encode(Items(f, toks))
  }

  lemma TwoItems(a: Item, b: Item)
    ensures Encode([a, b]) == [(if a.bit then 128 else 0) + if b.bit then 64 else 0] + (a.bytes + b.bytes)
  {
    var g := [a, b];
    assert g[..1] == [a] && [a][..0] == [] && Payloads([a]) == Payloads([]) + a.bytes;
    assert Payloads(g) == a.bytes + b.bytes;
    var x, y := if a.bit then 1 else 0, if b.bit then 1 else 0;
    assert BitsOf(g) == [a.bit, b.bit] && [a.bit, b.bit][..1] == [a.bit] && [a.bit][..0] == [];
    assert Bits([a.bit]) == x && Bits([a.bit, b.bit]) == 2 * x + y;
    SixShifts(2 * x + y, 8 - |g|);
  }

  lemma SixShifts(x: nat, k: nat)
    requires k == 6
    ensures Shl(x, k) == 64 * x
  {
    assert Shl(x, 1) == 2 * x && Shl(x, 2) == 4 * x && Shl(x, 3) == 8 * x;
    assert Shl(x, 4) == 16 * x && Shl(x, 5) == 32 * x && Shl(x, 6) == 64 * x;
  }

  lemma TwoTokens(f: Format, t: Token, u: Token)
    requires WellFormed(f, t) && WellFormed(f, u)
    ensures EncodeTokens(f, [t, u])
      == [(if FlagBit(f, t) then 128 else 0) + if FlagBit(f, u) then 64 else 0] + (Payload(f, t) + Payload(f, u))
  {
    assert Items(f, [t, u]) == [ItemOf(f, t), ItemOf(f, u)];
    TwoItems(ItemOf(f, t), ItemOf(f, u));
  }

  /** What a literal and a match take, in the form in which a format stores them. */
  lemma StoredPair(f: Format, b: byte, len: nat, off: nat, s: seq<byte>)
    requires WellFormed(f, Match(len, off)) && |s| == 2 + |MatchBytes(f, len, off)|
    requires s[0] == (if f.Yaz0? then 0x80 else 0x40) && s[1] == b && s[2..] == MatchBytes(f, len, off)
    ensures EncodeTokens(f, [Literal(b), Match(len, off)]) == s
  {
    TwoTokens(f, Literal(b), Match(len, off));
    assert s == [s[0]] + ([b] + s[2..]);
  }

  /** The forms of a match behind a literal. */
  lemma ShortForms()
    ensures EncodeTokens(Lz, [Literal(0x41), Match(18, 0x123)]) == [0x40, 0x41, 0xF1, 0x22]
    ensures EncodeTokens(Blz, [Literal(0x41), Match(18, 0x125)]) == [0x40, 0x41, 0xF1, 0x22]
    ensures EncodeTokens(LzEx, [Literal(0x41), Match(16, 0x123)]) == [0x40, 0x41, 0xF1, 0x22]
    ensures EncodeTokens(Yaz0, [Literal(0x41), Match(17, 0x123)]) == [0x80, 0x41, 0xF1, 0x22]
  {
    var short, yaz0 := [0x40, 0x41, 0xF1, 0x22], [0x80, 0x41, 0xF1, 0x22];
    assert short[2..] == [0xF1, 0x22] && yaz0[2..] == [0xF1, 0x22];
    StoredPair(Lz, 0x41, 18, 0x123, short);
    StoredPair(Blz, 0x41, 18, 0x125, short);
    StoredPair(LzEx, 0x41, 16, 0x123, short);
    StoredPair(Yaz0, 0x41, 17, 0x123, yaz0);
  }

  lemma LongForms()
    ensures EncodeTokens(LzEx, [Literal(0x41), Match(0x110, 0x123)]) == [0x40, 0x41, 0x0F, 0xF1, 0x22]
    ensures EncodeTokens(LzEx, [Literal(0x41), Match(0x1345, 0x123)]) == [0x40, 0x41, 0x11, 0x23, 0x41, 0x22]
    ensures EncodeTokens(Yaz0, [Literal(0x41), Match(0x111, 0x123)]) == [0x80, 0x41, 0x01, 0x22, 0xFF]
  {
    var middle, long := [0x40, 0x41, 0x0F, 0xF1, 0x22], [0x40, 0x41, 0x11, 0x23, 0x41, 0x22];
    var yaz0 := [0x80, 0x41, 0x01, 0x22, 0xFF];
    assert middle[2..] == [0x0F, 0xF1, 0x22] && long[2..] == [0x11, 0x23, 0x41, 0x22] && yaz0[2..] == [1, 0x22, 0xFF];
    StoredPair(LzEx, 0x41, 0x110, 0x123, middle);
    StoredPair(LzEx, 0x41, 0x1345, 0x123, long);
    StoredPair(Yaz0, 0x41, 0x111, 0x123, yaz0);
  }

  // ----- Decoding -----

  datatype Read = Truncated | ReadMatch(len: nat, off: nat, next: nat)

  /** Bytes a match occupies, told from the high half of its first byte. */
  function MatchSize(f: Format, top: nat): (r: nat)
    ensures 2 <= r <= 4
  {
    match f
    case LzEx => if top == 1 then 4 else if top == 0 then 3 else 2
    case Yaz0 => if top == 0 then 3 else 2
    case _ => 2
  }

  /** The decoder's reading of a whole match. */
  function ParseMatch(f: Format, m: seq<byte>): (r: (nat, nat))
    requires |m| >= 2 && |m| == MatchSize(f, m[0] as int / 16)
    ensures r.0 > 0 && Bias(f) <= r.1 < Bias(f) + 4096
  {
    var top := m[0] as int / 16;
    match f
    case LzEx =>
      if top == 1 then
        (m[0] as int % 16 * 4096 + m[1] as int * 16 + m[2] as int / 16 + (0xFF + 0xF + 3),
         m[2] as int % 16 * 256 + m[3] as int + 1)
      else if top == 0 then
        (m[0] as int % 16 * 16 + m[1] as int / 16 + (0xF + 2), m[1] as int % 16 * 256 + m[2] as int + 1)
      else
        (top + 1, m[0] as int % 16 * 256 + m[1] as int + 1)
    case Yaz0 =>
      (if top == 0 then m[2] as int + 0x12 else top + 2, m[0] as int % 16 * 256 + m[1] as int + 1)
    case _ => (top + 3, m[0] as int % 16 * 256 + m[1] as int + Bias(f))
  }

  function ReadMatchAt(f: Format, src: seq<byte>, s: nat): (r: Read)
    requires s <= |src|
    ensures r.ReadMatch? ==> s < r.next <= |src| && r.len > 0 && Bias(f) <= r.off < Bias(f) + 4096
  {
    if |src| - s < 1 then Truncated
    else
      var size := MatchSize(f, src[s] as int / 16);
      if |src| - s < size then Truncated
      else
        var (len, off) := ParseMatch(f, src[s..s + size]);
        ReadMatch(len, off, s + size)
  }

  /** Every length form is read back exactly: the one-, two- and three-byte forms cannot be confused. */
  lemma ParseMatchBytes(f: Format, len: nat, off: nat)
    requires WellFormed(f, Match(len, off))
    ensures var m := MatchBytes(f, len, off);
      |m| == MatchSize(f, m[0] as int / 16) && ParseMatch(f, m) == (len, off)
  {
    if f.LzEx? {
      ParseLzEx(len, off);
    } else {
      var o := off - Bias(f);
      NibblePair(o / 256, o % 256);
      SplitByte(if f.Yaz0? then (if len >= 0xF + 3 then 0 else len - 2) else len - 3, o / 256);
    }
  }

  predicate ParsesTo(m: seq<byte>, len: nat, off: nat) {
    |m| >= 2 && |m| == MatchSize(LzEx, m[0] as int / 16) && ParseMatch(LzEx, m) == (len, off)
  }

  lemma ParseLzEx(len: nat, off: nat)
    requires WellFormed(LzEx, Match(len, off))
    ensures ParsesTo(MatchBytes(LzEx, len, off), len, off)
  {
    var hi, lo := (off - 1) / 256, (off - 1) % 256;
    if len >= 0xFF + 0xF + 3 {
      ParseLong(len - (0xFF + 0xF + 3), hi, lo);
    } else if len >= 0xF + 2 {
      ParseMedium(len - (0xF + 2), hi, lo);
    } else {
      SplitByte(len - 1, hi);
    }
  }

  lemma ParseLong(n: nat, hi: nat, lo: nat)
    requires n < 65536 && hi < 16 && lo < 256
    ensures ParsesTo([0x10 + n / 4096, n / 16 % 256, n % 16 * 16 + hi, lo], n + 0xFF + 0xF + 3, hi * 256 + lo + 1)
  {
    SplitByte(1, n / 4096);
    SplitByte(n % 16, hi);
    SplitLong(n);
  }

  lemma ParseMedium(n: nat, hi: nat, lo: nat)
    requires n < 256 && hi < 16 && lo < 256
    ensures ParsesTo([n / 16, n % 16 * 16 + hi, lo], n + 0xF + 2, hi * 256 + lo + 1)
  {
    SplitByte(0, n / 16);
    SplitByte(n % 16, hi);
  }

  lemma SplitLong(n: nat)
    requires n < 65536
    ensures n / 4096 < 16 && n / 4096 * 4096 + n / 16 % 256 * 16 + n % 16 == n
  {
    assert n / 16 / 256 == n / 4096;
  }

  lemma SplitByte(hi: nat, lo: nat)
    requires hi < 16 && lo < 16
    ensures (hi * 16 + lo) / 16 == hi && (hi * 16 + lo) % 16 == lo
  {
  }

  lemma NibblePair(hi: nat, lo: nat)
    requires hi < 16 && lo < 256
    ensures (hi * 256 + lo) / 256 == hi && (hi * 256 + lo) % 256 == lo
  {
  }

  lemma ReadPayload(f: Format, t: Token, src: seq<byte>, s: nat)
    requires t.Match? && WellFormed(f, t)
    requires s + |Payload(f, t)| <= |src| && src[s..s + |Payload(f, t)|] == Payload(f, t)
    ensures ReadMatchAt(f, src, s) == ReadMatch(t.len, t.off, s + |Payload(f, t)|)
  {
    var p := MatchBytes(f, t.len, t.off);
    ParseMatchBytes(f, t.len, t.off);
    assert src[s] == src[s..s + |p|][0];
  }

  /** One flag bit's worth of decoding: the output and read position after it, if the input allows. */
  function Step(f: Format, src: seq<byte>, s: nat, out: seq<byte>, n: nat, flag: byte, i: nat)
    : (r: Option<(seq<byte>, nat)>)
    requires s <= |src| && |out| < n && i < 8
    ensures r.Some? ==> |out| < |r.value.0| <= n && s < r.value.1 <= |src|
  {
    if BitSet(flag, i) == f.Yaz0? then
      if |src| - s < 1 then None else Some((out + [src[s]], s + 1))
    else
      match ReadMatchAt(f, src, s)
      case Truncated => None
      case ReadMatch(len, off, next) =>
        if len > n - |out| || off > |out| then None else Some((Copy(out, off, len), next))
  }

  function DecodeGroups(f: Format, src: seq<byte>, s: nat, out: seq<byte>, n: nat): (r: Option<seq<byte>>)
    requires s <= |src| && |out| <= n
    ensures r.Some? ==> |r.value| == n
    decreases n - |out|, 9
  {
    if |out| == n then Some(out)
    else if |src| - s < 1 then None
    else DecodeBits(f, src, s + 1, out, n, src[s], 0)
  }

  function DecodeBits(f: Format, src: seq<byte>, s: nat, out: seq<byte>, n: nat, flag: byte, i: nat)
    : (r: Option<seq<byte>>)
    requires s <= |src| && |out| < n && i < 8
    ensures r.Some? ==> |r.value| == n
    decreases n - |out|, 8 - i
  {
    match Step(f, src, s, out, n, flag, i)
    case None => None
    case Some((o, s')) =>
      if |o| == n || i == 7 then DecodeGroups(f, src, s', o, n) else DecodeBits(f, src, s', o, n, flag, i + 1)
  }

  /** `src` holds the encoding of `toks` at offset `h`. */
  ghost predicate HoldsAt(f: Format, toks: seq<Token>, src: seq<byte>, h: nat)
    requires AllWellFormed(f, toks)
  {
    var e := EncodeTokens(f, toks);
    h + |e| <= |src| && src[h..h + |e|] == e
  }

  lemma ItemAtEmbed(
    src: seq<byte>, h: nat, e: seq<byte>, p0: nat, p1: nat, opens: bool, flag: byte, bytes: seq<byte>)
    requires h + |e| <= |src| && src[h..h + |e|] == e
    requires ItemAt(e, p0, p1, opens, flag, bytes)
    ensures ItemAt(src, h + p0, h + p1, opens, flag, bytes)
  {
    var a := p0 + if opens then 1 else 0;
    PartOfPart(src, h, |e|, a, p1 - a);
    if opens {
      assert src[h + p0] == src[h..h + |e|][p0];
    }
  }

  /** The decoder, about to read item `i` of a group. */
  ghost function Resume(f: Format, src: seq<byte>, s: nat, out: seq<byte>, n: nat, flag: byte, i: nat)
    : Option<seq<byte>>
    requires s <= |src| && |out| <= n && i < 8
  {
    if |out| == n then Some(out)
    else if i == 0 then DecodeGroups(f, src, s, out, n)
    else DecodeBits(f, src, s, out, n, flag, i)
  }

  lemma StepReadsToken(f: Format, t: Token, src: seq<byte>, s: nat, out: seq<byte>, n: nat, flag: byte, i: nat)
    requires WellFormed(f, t) && i < 8 && BitSet(flag, i) == FlagBit(f, t)
    requires s + |Payload(f, t)| <= |src| && src[s..s + |Payload(f, t)|] == Payload(f, t)
    requires Applicable(t, out) && |Apply(out, t)| <= n
    ensures Step(f, src, s, out, n, flag, i) == Some((Apply(out, t), s + |Payload(f, t)|))
  {
    if t.Match? {
      ReadPayload(f, t, src, s);
    } else {
      assert src[s] == src[s..s + 1][0];
    }
  }

  /** Reading one token moves the decoder to the next one; `flag'` is the next token's flag byte. */
  lemma ResumeStep(f: Format, t: Token, src: seq<byte>, p0: nat, p1: nat, out: seq<byte>, n: nat,
                   flag: byte, i: nat, flag': byte, i': nat)
    requires WellFormed(f, t) && i < 8 && BitSet(flag, i) == FlagBit(f, t)
    requires ItemAt(src, p0, p1, i == 0, flag, Payload(f, t))
    requires Applicable(t, out) && |Apply(out, t)| <= n
    requires i' == (if i == 7 then 0 else i + 1) && (i < 7 ==> flag' == flag)
    ensures Resume(f, src, p0, out, n, flag, i)
         == Resume(f, src, p1, Apply(out, t), n, flag', i')
  {
    if i == 7 {
      ResumeGroupStart(f, src, p1, Apply(out, t), n, flag, flag');
    }
    var a, out' := p1 - |Payload(f, t)|, Apply(out, t);
    StepReadsToken(f, t, src, a, out, n, flag, i);
    BitsUnfold(f, src, a, out, n, flag, i, out', p1);
    if i == 0 {
      assert DecodeGroups(f, src, p0, out, n) == DecodeBits(f, src, a, out, n, flag, 0);
    }
  }

  lemma BitsUnfold(f: Format, src: seq<byte>, s: nat, out: seq<byte>, n: nat, flag: byte, i: nat,
                   out': seq<byte>, s': nat)
    requires s <= |src| && |out| < n && i < 8 && Step(f, src, s, out, n, flag, i) == Some((out', s'))
    ensures DecodeBits(f, src, s, out, n, flag, i)
         == Resume(f, src, s', out', n, flag, if i == 7 then 0 else i + 1)
  {
    if |out'| == n {
      assert DecodeGroups(f, src, s', out', n) == Some(out');
    }
  }

  /** The flag byte matters only inside a group. */
  lemma ResumeGroupStart(f: Format, src: seq<byte>, s: nat, out: seq<byte>, n: nat, flag: byte, flag': byte)
    requires s <= |src| && |out| <= n
    ensures Resume(f, src, s, out, n, flag, 0) == Resume(f, src, s, out, n, flag', 0)
  {
  }

  /** Where a stream's tokens stand: `pos[k]` is the place of token `k` in `src` and `flags[k]` the
      flag byte of its group. */
  ghost predicate Layout(f: Format, toks: seq<Token>, src: seq<byte>, pos: seq<nat>, flags: seq<byte>) {
    && AllWellFormed(f, toks)
    && |pos| == |toks| + 1 && |flags| == |toks|
    && (forall k :: 0 <= k < |toks| ==> TokenAt(f, toks[k], src, pos[k], pos[k + 1], flags[k], k % 8))
    && (forall k :: 0 < k < |toks| && k % 8 != 0 ==> flags[k] == flags[k - 1])
    && pos[|toks|] <= |src|
  }

  ghost predicate TokenAt(f: Format, t: Token, src: seq<byte>, p0: nat, p1: nat, flag: byte, i: nat)
    requires WellFormed(f, t)
  {
    i < 8 && ItemAt(src, p0, p1, i == 0, flag, Payload(f, t)) && BitSet(flag, i) == FlagBit(f, t)
  }

  ghost predicate IsLayoutOf(items: seq<Item>, h: nat, pos: seq<nat>, flags: seq<byte>) {
    && |pos| == |items| + 1 && |flags| == |items|
    && (forall k :: 0 <= k <= |items| ==> pos[k] == h + Pos(items, k))
    && (forall k :: 0 <= k < |items| ==> flags[k] == GroupFlag(items, k))
  }

  /** The byte encoding of a stream has such a layout. */
  lemma EncodedLayout(f: Format, toks: seq<Token>, src: seq<byte>, h: nat) returns (pos: seq<nat>, flags: seq<byte>)
    requires AllWellFormed(f, toks) && HoldsAt(f, toks, src, h)
    ensures Layout(f, toks, src, pos, flags) && IsLayoutOf(Items(f, toks), h, pos, flags)
  {
    var items := Items(f, toks);
    pos := seq(|toks| + 1, k requires 0 <= k <= |toks| => h + Pos(items, k));
    flags := seq(|toks|, k requires 0 <= k < |toks| => GroupFlag(items, k));
    EncodedTokens(f, toks, src, h, pos, flags);
    EncodedFlags(items, h, pos, flags);
    PosMonotone(items, |toks|, |toks|);
  }

  lemma EncodedFlags(items: seq<Item>, h: nat, pos: seq<nat>, flags: seq<byte>)
    requires IsLayoutOf(items, h, pos, flags)
    ensures forall k :: 0 < k < |items| && k % 8 != 0 ==> flags[k] == flags[k - 1]
  {
    forall k | 0 < k < |items| && k % 8 != 0
      ensures flags[k] == flags[k - 1]
    {
      SameGroupFlag(items, k);
    }
  }

  lemma EncodedTokens(f: Format, toks: seq<Token>, src: seq<byte>, h: nat, pos: seq<nat>, flags: seq<byte>)
    requires AllWellFormed(f, toks) && HoldsAt(f, toks, src, h) && IsLayoutOf(Items(f, toks), h, pos, flags)
    ensures forall k :: 0 <= k < |toks| ==> TokenAt(f, toks[k], src, pos[k], pos[k + 1], flags[k], k % 8)
  {
    var items := Items(f, toks);
    forall k | 0 <= k < |toks|
      ensures TokenAt(f, toks[k], src, pos[k], pos[k + 1], flags[k], k % 8)
    {
      EncodedToken(f, toks[k], items, src, h, k, pos[k], pos[k + 1], flags[k]);
    }
  }

  lemma EncodedToken(
    f: Format, t: Token, items: seq<Item>, src: seq<byte>, h: nat, k: nat, q0: nat, q1: nat, flag: byte)
    requires WellFormed(f, t) && k < |items| && items[k] == ItemOf(f, t)
    requires h + |Encode(items)| <= |src| && src[h..h + |Encode(items)|] == Encode(items)
    requires q0 == h + Pos(items, k) && q1 == h + Pos(items, k + 1) && flag == GroupFlag(items, k)
    ensures TokenAt(f, t, src, q0, q1, flag, k % 8)
  {
    EncodeLaidOut(items, k);
    GroupFlagBit(items, k);
    NextSlot(k);
    TokenEmbed(f, t, src, h, Encode(items), Pos(items, k), Pos(items, k + 1), flag, k % 8, q0, q1);
  }

  lemma TokenEmbed(
    f: Format, t: Token, src: seq<byte>, h: nat, e: seq<byte>, p0: nat, p1: nat, flag: byte, i: nat, q0: nat, q1: nat)
    requires WellFormed(f, t) && i < 8 && h + |e| <= |src| && src[h..h + |e|] == e
    requires ItemAt(e, p0, p1, i == 0, flag, Payload(f, t)) && BitSet(flag, i) == FlagBit(f, t)
    requires q0 == h + p0 && q1 == h + p1
    ensures TokenAt(f, t, src, q0, q1, flag, i)
  {
    ItemAtEmbed(src, h, e, p0, p1, i == 0, flag, Payload(f, t));
  }

  lemma SameGroupFlag(items: seq<Item>, k: nat)
    requires 0 < k < |items| && k % 8 != 0
    ensures GroupFlag(items, k) == GroupFlag(items, k - 1)
  {
    SameGroup(k);
  }

  lemma SameGroup(k: nat)
    requires 0 < k && k % 8 != 0
    ensures k / 8 == (k - 1) / 8
  {
  }

  lemma NextSlot(k: nat)
    ensures k % 8 < 8 && (k + 1) % 8 == if k % 8 == 7 then 0 else k % 8 + 1
  {
  }

  /** Decoding from the bytes of token `k` on yields what the remaining tokens expand to. */
  lemma {:induction false} DecodeFromToken(
    f: Format, toks: seq<Token>, k: nat, src: seq<byte>, pos: seq<nat>, flags: seq<byte>, out: seq<byte>, n: nat,
    flag: byte)
    requires Layout(f, toks, src, pos, flags) && k <= |toks|
    requires Expandable(out, toks[k..]) && |Expand(out, toks[k..])| == n
    requires k < |toks| ==> flag == flags[k]
    ensures pos[k] <= |src|
    ensures Resume(f, src, pos[k], out, n, flag, k % 8) == Some(Expand(out, toks[k..]))
    decreases |toks| - k
  {
    var rest := toks[k..];
    if k == |toks| {
      assert rest == [];
    } else {
      assert rest[0] == toks[k] && rest[1..] == toks[k + 1..];
      assert TokenAt(f, toks[k], src, pos[k], pos[k + 1], flags[k], k % 8);
      var flag' := if k + 1 < |toks| then flags[k + 1] else flag;
      NextSlot(k);
      DecodeFromToken(f, toks, k + 1, src, pos, flags, Apply(out, toks[k]), n, flag');
      ResumeStep(f, toks[k], src, pos[k], pos[k + 1], out, n, flag, k % 8, flag', (k + 1) % 8);
    }
  }

  /** The token layer's round trip: decoding an encoded token sequence gives its expansion, whatever
      bytes stand before and after it. */
  lemma {:induction false} DecodeEncoded(f: Format, toks: seq<Token>, src: seq<byte>, h: nat)
    requires AllWellFormed(f, toks) && HoldsAt(f, toks, src, h) && Expandable([], toks)
    ensures DecodeGroups(f, src, h, [], |Expand([], toks)|) == Some(Expand([], toks))
  {
    assert toks[0..] == toks && Items(f, toks)[..0] == [];
    var pos, flags := EncodedLayout(f, toks, src, h);
    DecodeFromToken(f, toks, 0, src, pos, flags, [], |Expand([], toks)|, if toks == [] then 0 else flags[0]);
  }
}
