/** What the greedy parse of the LZ77 family achieves: wherever the data repeat within reach, a match is taken, and
    data of one byte value become short. */
module ParseMatches {
  import opened Bytes
  import opened FlagGroups
  import opened TokenStream
  import opened GreedyParse
  import opened StreamWriter

  // ----- Repeats within reach -----

  /** The longest match: 18 bytes, or 65808 for LZ77Ex and 273 for Yaz0. */
  function Longest(f: Format): nat { if f.LzEx? then 65808 else if f.Yaz0? then 273 else 18 }

  /** At `p` the data repeat for `len` bytes what stands `off` bytes before, and a match can say so. */
  predicate Usable(f: Format, d: seq<byte>, p: nat, off: nat, len: nat) {
    && 3 <= len <= Longest(f) && p + len <= |d|
    && (if f.Blz? then 3 else if f.Yaz0? then 1 else 2) <= off <= p && off <= (if f.Blz? then 4098 else 4096)
    && (f.Blz? ==> len <= off)
    && forall i :: p <= i < p + len ==> d[i] == d[i - off]
  }

  lemma UsableFound(f: Format, d: seq<byte>, p: nat, off: nat, len: nat)
    requires Usable(f, d, p, off, len)
    ensures p <= |d| && BestMatch(f, d, p).len >= len
  {
    BestMatchIsLongest(f, d, p, off, len);
  }

  lemma FoundUsable(f: Format, d: seq<byte>, p: nat)
    requires p <= |d| && BestMatch(f, d, p).len > 0
    ensures Usable(f, d, p, BestMatch(f, d, p).off, BestMatch(f, d, p).len)
  {
    BestMatchIsMatch(f, d, p);
  }

  /** Token `t` is the right one at `p`: a literal where nothing repeats, and else a match that is usable and as long
      as any other. Yaz0 has a literal also where a longer match begins one byte later. */
  ghost predicate WellChosen(f: Format, d: seq<byte>, p: nat, t: Token)
    requires p < |d|
  {
    && (t.Literal? ==> t.b == d[p])
    && (t.Match? ==> Usable(f, d, p, t.off, t.len))
    && (forall off, len :: Usable(f, d, p, off, len) ==>
          (t.Match? && t.len >= len) || (f.Yaz0? && LongerAt(d, p + 1, len)))
    && (t.Match? && f.Yaz0? ==> !LongerAt(d, p + 1, t.len))
  }

  /** Yaz0 finds a match of more than `len` bytes at `p`. */
  ghost predicate LongerAt(d: seq<byte>, p: nat, len: nat) {
    exists off, n :: n > len && Usable(Yaz0, d, p, off, n)
  }

  lemma LongerIff(d: seq<byte>, p: nat, len: nat)
    requires p <= |d|
    ensures LongerAt(d, p, len) <==> BestMatch(Yaz0, d, p).len > len
  {
    if off, n :| n > len && Usable(Yaz0, d, p, off, n) {
      UsableFound(Yaz0, d, p, off, n);
    }
    if BestMatch(Yaz0, d, p).len > len {
      FoundUsable(Yaz0, d, p);
    }
  }

  /** The encoder's choice is the right one. */
  lemma NextIsWellChosen(f: Format, d: seq<byte>, p: nat)
    requires p < |d|
    ensures WellChosen(f, d, p, NextToken(f, d, p))
  {
    var t, b := NextToken(f, d, p), BestMatch(f, d, p);
    if b.len > 0 {
      FoundUsable(f, d, p);
    }
    LongerIff(d, p + 1, b.len);
    forall off, len | Usable(f, d, p, off, len)
      ensures (t.Match? && t.len >= len) || (f.Yaz0? && LongerAt(d, p + 1, len))
    {
      UsableFound(f, d, p, off, len);
      LongerIff(d, p + 1, len);
    }
  }

  lemma {:induction false} TokenFrom(f: Format, d: seq<byte>, p: nat, k: nat)
    requires p <= |d| && k < |Parse(f, d, p)|
    ensures var q := p + Spans(Parse(f, d, p)[..k]);
      q < |d| && Parse(f, d, p)[k] == NextToken(f, d, q)
    decreases k
  {
    var t, p', rest := ParseFirst(f, d, p);
    if k > 0 {
      TokenFrom(f, d, p', k - 1);
      SpansFirst(t, Parse(f, d, p), rest, k);
    }
  }

  lemma ParseFirst(f: Format, d: seq<byte>, p: nat) returns (t: Token, p': nat, rest: seq<Token>)
    requires p < |d|
    ensures t == NextToken(f, d, p) && p' == p + Span(t) <= |d|
    ensures rest == Parse(f, d, p') && Parse(f, d, p) == [t] + rest
  {
    t := NextToken(f, d, p);
    p' := p + Span(t);
    ParseUnfolds(f, d, p);
    rest := Parse(f, d, p');
  }

  lemma SpansFirst(t: Token, toks: seq<Token>, rest: seq<Token>, k: nat)
    requires toks == [t] + rest && 0 < k <= |toks|
    ensures Spans(toks[..k]) == Span(t) + Spans(rest[..k - 1])
  {
    assert toks[..k][1..] == rest[..k - 1];
  }

  /** Every token of a parse is the right one at its place. */
  lemma ParseIsWellChosen(f: Format, d: seq<byte>, k: nat)
    requires k < |Parse(f, d, 0)|
    ensures var p := Spans(Parse(f, d, 0)[..k]); p < |d| && WellChosen(f, d, p, Parse(f, d, 0)[k])
  {
    TokenFrom(f, d, 0, k);
    NextIsWellChosen(f, d, Spans(Parse(f, d, 0)[..k]));
  }

  // ----- Data of one byte value -----

  /** What a token takes, apart from its flag. */
  function Cost(f: Format, t: Token): nat { if WellFormed(f, t) then |Payload(f, t)| else 0 }

  function Paid(f: Format, toks: seq<Token>): nat {
    if toks == [] then 0 else Paid(f, toks[..|toks| - 1]) + Cost(f, toks[|toks| - 1])
  }

  lemma {:induction false} PosIs(f: Format, toks: seq<Token>, k: nat)
    requires AllWellFormed(f, toks) && k <= |toks|
    ensures Pos(Items(f, toks), k) == Paid(f, toks[..k]) + (k + 7) / 8
  {
    if k > 0 {
      PosIs(f, toks, k - 1);
      PosNext(f, toks, k - 1);
      CeilEight(k - 1);
      assert toks[..k][..k - 1] == toks[..k - 1];
    } else {
      assert Items(f, toks)[..0] == [];
    }
  }

  lemma PosNext(f: Format, toks: seq<Token>, k: nat)
    requires AllWellFormed(f, toks) && k < |toks|
    ensures Pos(Items(f, toks), k + 1) == Pos(Items(f, toks), k) + FlagSize(k) + Cost(f, toks[k])
  {
    var items := Items(f, toks);
    EncodeLaidOut(items, k);
    assert items[k] == ItemOf(f, toks[k]);
  }

  lemma {:induction false} PaidFirst(f: Format, t: Token, toks: seq<Token>)
    ensures Paid(f, [t] + toks) == Cost(f, t) + Paid(f, toks)
  {
    var all := [t] + toks;
    if toks == [] {
      assert all[..0] == [];
    } else {
      assert all[..|all| - 1] == [t] + toks[..|toks| - 1];
      PaidFirst(f, t, toks[..|toks| - 1]);
    }
  }

  /** Where the first match can begin. */
  function First(f: Format): nat { if f.Blz? then 3 else if f.Yaz0? then 1 else 2 }

  /** How long the match at `p` is, when `n` bytes are all the same. */
  function Reach(f: Format, n: nat, p: nat): nat
    requires p <= n
  {
    var m := Min(Longest(f), n - p);
    if f.Blz? then Min(m, p) else m
  }

  lemma ConstantToken(f: Format, b: byte, n: nat, p: nat)
    requires p < n
    ensures
      var t := NextToken(f, Repeated(b, n), p);
      if First(f) <= p && Reach(f, n, p) >= 3 then t.Match? && t.len == Reach(f, n, p) else t == Literal(b)
  {
    var d, t, r := Repeated(b, n), NextToken(f, Repeated(b, n), p), Reach(f, n, p);
    NextIsWellChosen(f, d, p);
    if First(f) <= p && r >= 3 {
      assert Usable(f, d, p, if f.Blz? then r else First(f), r);
    }
  }

  /** What the largest match takes. */
  function Dearest(f: Format): nat { if f.LzEx? then 4 else if f.Yaz0? then 3 else 2 }

  lemma CostAtMost(f: Format, t: Token)
    ensures Cost(f, t) <= if t.Literal? then 1 else Dearest(f)
  {
  }

  /** How much the tokens from `p` on fall short of longest matches. */
  function Shortfall(f: Format, p: nat): nat {
    if f.Blz? then
      if p >= 18 then 0 else if p >= 12 then 6 else if p >= 6 then 18 else if p >= 3 then 33 else 33 + (3 - p) * 18
    else if p < First(f) then (First(f) - p) * Longest(f)
    else 0
  }

  lemma ShortfallMatch(f: Format, n: nat, p: nat)
    requires First(f) <= p < n && Reach(f, n, p) < n - p
    ensures Longest(f) - Reach(f, n, p) <= Shortfall(f, p) - Shortfall(f, p + Reach(f, n, p))
  {
  }

  lemma ShortfallLiteral(f: Format, p: nat)
    requires p < First(f)
    ensures Shortfall(f, p) == Shortfall(f, p + 1) + Longest(f)
  {
  }

  /** The tokens for `m` bytes are few, and take little. */
  ghost predicate Few(f: Format, toks: seq<Token>, m: nat, short: nat) {
    var l := Longest(f);
    l * |toks| <= m + 2 * l + short && l * Paid(f, toks) <= Dearest(f) * (m + l + short)
  }

  lemma FewMore(f: Format, t: Token, toks: seq<Token>, m: nat, short: nat, short': nat)
    requires Few(f, toks, m, short') && Longest(f) - Span(t) + short' <= short
    ensures Few(f, [t] + toks, m + Span(t), short)
  {
    PaidFirst(f, t, toks);
    CostAtMost(f, t);
    FewNumbers(Longest(f), Dearest(f), |toks|, Paid(f, toks), Cost(f, t), m, Span(t), short, short');
  }

  lemma FewNumbers(l: nat, c: nat, count: nat, paid: nat, pay: nat, m: nat, span: nat, short: nat, short': nat)
    requires l - span + short' <= short && pay <= c
    requires l * count <= m + 2 * l + short' && l * paid <= c * (m + l + short')
    ensures l * (count + 1) <= m + span + 2 * l + short && l * (paid + pay) <= c * (m + span + l + short)
  {
    assert l * (count + 1) == l * count + l;
    assert l * (paid + pay) == l * paid + l * pay;
    Products(l, c, pay, m + l + short', m + span + l + short);
  }

  lemma Products(l: nat, c: nat, pay: nat, x: nat, y: nat)
    requires pay <= c && x + l <= y
    ensures l * pay + c * x <= c * y
  {
    assert l * pay <= l * c;
    assert c * (x + l) <= c * y;
    assert c * (x + l) == c * x + l * c;
  }

  lemma FewAtEnd(f: Format, toks: seq<Token>, m: nat, short: nat)
    requires |toks| <= 2 && Paid(f, toks) <= Dearest(f)
    ensures Few(f, toks, m, short)
  {
    assert Dearest(f) * (m + Longest(f) + short) >= Dearest(f) * Longest(f);
  }

  /** The literals that are left when fewer than three bytes remain. */
  lemma {:induction false} ConstantEnd(f: Format, b: byte, n: nat, p: nat)
    requires p <= n < p + 3
    ensures |Parse(f, Repeated(b, n), p)| == n - p == Paid(f, Parse(f, Repeated(b, n), p))
    decreases n - p
  {
    if p < n {
      var t, p', rest := ParseFirst(f, Repeated(b, n), p);
      ConstantToken(f, b, n, p);
      ConstantEnd(f, b, n, p + 1);
      PaidFirst(f, t, rest);
    }
  }

  /** The parse of data of one byte value, from `p` on. */
  lemma {:induction false} ConstantTail(f: Format, b: byte, n: nat, p: nat)
    requires p <= n
    ensures Few(f, Parse(f, Repeated(b, n), p), n - p, Shortfall(f, p))
    decreases n - p
  {
    if n < p + 3 {
      ConstantEnd(f, b, n, p);
      FewAtEnd(f, Parse(f, Repeated(b, n), p), n - p, Shortfall(f, p));
    } else {
      var t, p', rest := ParseFirst(f, Repeated(b, n), p);
      ConstantToken(f, b, n, p);
      if p < First(f) {
        ShortfallLiteral(f, p);
        ConstantTail(f, b, n, p');
        FewMore(f, t, rest, n - p', Shortfall(f, p), Shortfall(f, p'));
      } else if Reach(f, n, p) == n - p {
        PaidFirst(f, t, rest);
        CostAtMost(f, t);
        FewAtEnd(f, Parse(f, Repeated(b, n), p), n - p, Shortfall(f, p));
      } else {
        ShortfallMatch(f, n, p);
        ConstantTail(f, b, n, p');
        FewMore(f, t, rest, n - p', Shortfall(f, p), Shortfall(f, p'));
      }
    }
  }

  /** Data of one byte value become short: about an eighth of their length with matches of 18 bytes, a tenth of that
      and less with longer ones. */
  lemma ConstantIsShort(f: Format, b: byte, n: nat)
    ensures AllWellFormed(f, Parse(f, Repeated(b, n), 0))
    ensures 8 * |EncodeTokens(f, Parse(f, Repeated(b, n), 0))|
      <= if f.LzEx? then n / 1000 + 120 else if f.Yaz0? then n / 10 + 70 else n + 110
  {
    var toks := Parse(f, Repeated(b, n), 0);
    ParseDescribes(f, Repeated(b, n), 0);
    ConstantTail(f, b, n, 0);
    PosIs(f, toks, |toks|);
    assert toks[..|toks|] == toks && Items(f, toks)[..|toks|] == Items(f, toks);
    ShortNumbers(f, n, |toks|, Paid(f, toks));
  }

  lemma ShortNumbers(f: Format, n: nat, count: nat, paid: nat)
    requires var l, short := Longest(f), Shortfall(f, 0);
      l * count <= n + 2 * l + short && l * paid <= Dearest(f) * (n + l + short)
    ensures 8 * (paid + (count + 7) / 8)
      <= if f.LzEx? then n / 1000 + 120 else if f.Yaz0? then n / 10 + 70 else n + 110
  {
  }
}
