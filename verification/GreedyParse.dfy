/** The reference parse of the LZ77 family: at each position the best earlier match, found by trying
    every position of the window, and the token sequence that choosing it greedily gives. */
module GreedyParse {
  import opened Bytes
  import opened TokenStream

  function WindowSize(f: Format): nat { if f.Blz? then 4098 else 4096 }

  /** The nearest position the encoder is willing to copy from. */
  function MinDistance(f: Format): (r: nat)
    ensures r >= Bias(f)
  {
    match f
    case Yaz0 => 1
    case Blz => 3
    case _ => 2
  }

  /** The first position of `d` still in the window at `p`. */
  function Low(f: Format, p: nat): (r: nat)
    ensures r <= p <= r + WindowSize(f)
  {
    if p > WindowSize(f) then p - WindowSize(f) else 0
  }

  /** The longest match the encoder asks for at `p`; going backwards it also stays clear of the end. */
  function Cap(f: Format, d: seq<byte>, p: nat): (r: nat)
    requires p <= |d|
    ensures r <= MaxLen(f) && p + r <= |d|
  {
    var c := Min(MaxLen(f), |d| - p);
    if f.Blz? then Min(c, p) else c
  }

  /** `d` repeats for `len` bytes at `p`, `off` bytes after an earlier copy. */
  predicate Repeats(d: seq<byte>, p: nat, off: nat, len: nat)
    requires off <= p && p + len <= |d|
  {
    forall i :: p <= i < p + len ==> d[i] == d[i - off]
  }

  /** How far `d` repeats at `p` what stands at `q`, up to `cap`. */
  function Run(d: seq<byte>, q: nat, p: nat, cap: nat): (r: nat)
    requires q <= p && p + cap <= |d|
    ensures r <= cap && Repeats(d, p, p - q, r)
    ensures r < cap ==> d[q + r] != d[p + r]
    decreases cap
  {
    if cap == 0 || d[q] != d[p] then 0 else 1 + Run(d, q + 1, p + 1, cap - 1)
  }

  lemma RunIs(d: seq<byte>, q: nat, p: nat, cap: nat, len: nat)
    requires q <= p && p + cap <= |d| && len <= cap && Repeats(d, p, p - q, len)
    ensures len <= Run(d, q, p, cap)
    ensures len == cap || d[q + len] != d[p + len] ==> len == Run(d, q, p, cap)
  {
    var r := Run(d, q, p, cap);
    if len < r {
      assert d[p + len] == d[p + len - (p - q)];
    }
  }

  /** The length limit for a copy from `dist` bytes back: the backward codec forbids overlap. */
  function Limit(f: Format, cap: nat, dist: nat): (r: nat)
    ensures r <= cap
  {
    if f.Blz? then Min(cap, dist) else cap
  }

  /** The length position `q` offers at `p`, 0 when it offers no usable match. */
  function Candidate(f: Format, d: seq<byte>, q: nat, p: nat, cap: nat): (r: nat)
    requires q < p && p + cap <= |d|
  {
    if p - q < MinDistance(f) then 0
    else
      var l := Run(d, q, p, Limit(f, cap, p - q));
      if l < 3 then 0 else l
  }

  /** The lengths offered by the positions `lo`, `lo + 1`, ... below `p`. */
  function Candidates(f: Format, d: seq<byte>, lo: nat, p: nat, cap: nat): (cs: seq<nat>)
    requires lo <= p && p + cap <= |d|
    ensures |cs| == p - lo
  {
    seq<nat>(p - lo, i requires 0 <= i < p - lo => Candidate(f, d, lo + i, p, cap))
  }

  /** A length and where it was found; length 0 stands for nothing found. */
  datatype Pick = Pick(len: nat, at: nat)

  function Better(b: Pick, len: nat, at: nat): Pick { if len > b.len then Pick(len, at) else b }

  /** The first of the longest among `cs[..i]`. */
  function Oldest(cs: seq<nat>, i: nat): Pick
    requires i <= |cs|
  {
    if i == 0 then Pick(0, 0) else Better(Oldest(cs, i - 1), cs[i - 1], i - 1)
  }

  /** The last of the longest among `cs[i..]`. */
  function Newest(cs: seq<nat>, i: nat): Pick
    requires i <= |cs|
    decreases |cs| - i
  {
    if i == |cs| then Pick(0, 0) else Better(Newest(cs, i + 1), cs[i], i)
  }

  /** LZ77 walks its window oldest first, Yaz0 and backward LZ77 newest first. */
  predicate OldestFirst(f: Format) { f.Lz? || f.LzEx? }

  datatype Best = Best(len: nat, off: nat)

  /** The choice among the lengths `cs` offered by the positions before `p`; the last is nearest. */
  function Choose(f: Format, cs: seq<nat>): Best {
    var pick := if OldestFirst(f) then Oldest(cs, |cs|) else Newest(cs, 0);
    PickInRange(cs);
    if pick.len == 0 then Best(0, 0) else Best(pick.len, |cs| - pick.at)
  }

  function BestWithin(f: Format, d: seq<byte>, p: nat, cap: nat): Best
    requires p + cap <= |d|
  {
    if cap < 3 then Best(0, 0) else Choose(f, Candidates(f, d, Low(f, p), p, cap))
  }

  /** The brute-force search: every position of the window is tried. */
  function BestMatch(f: Format, d: seq<byte>, p: nat): Best
    requires p <= |d|
  {
    BestWithin(f, d, p, Cap(f, d, p))
  }

  /** `b` is the longest of `cs[lo..hi]`, and among equals the first or the last. */
  ghost predicate IsLongest(cs: seq<nat>, lo: nat, hi: nat, b: Pick, first: bool)
    requires lo <= hi <= |cs|
  {
    && (forall i :: lo <= i < hi ==> cs[i] <= b.len)
    && (b.len > 0 ==>
        && lo <= b.at < hi && cs[b.at] == b.len
        && (forall i :: lo <= i < hi && cs[i] == b.len ==> if first then b.at <= i else i <= b.at))
  }

  lemma {:induction false} OldestIsLongest(cs: seq<nat>, i: nat)
    requires i <= |cs|
    ensures IsLongest(cs, 0, i, Oldest(cs, i), true)
  {
    if i > 0 {
      OldestIsLongest(cs, i - 1);
    }
  }

  lemma {:induction false} NewestIsLongest(cs: seq<nat>, i: nat)
    requires i <= |cs|
    ensures IsLongest(cs, i, |cs|, Newest(cs, i), false)
    decreases |cs| - i
  {
    if i < |cs| {
      NewestIsLongest(cs, i + 1);
    }
  }

  lemma PickInRange(cs: seq<nat>)
    ensures IsLongest(cs, 0, |cs|, Oldest(cs, |cs|), true)
    ensures IsLongest(cs, 0, |cs|, Newest(cs, 0), false)
  {
    OldestIsLongest(cs, |cs|);
    NewestIsLongest(cs, 0);
  }

  lemma CandidateIsMatch(f: Format, d: seq<byte>, q: nat, p: nat, cap: nat)
    requires q < p && p + cap <= |d|
    ensures var c := Candidate(f, d, q, p, cap);
      c > 0 ==> 3 <= c <= Limit(f, cap, p - q) && MinDistance(f) <= p - q && Repeats(d, p, p - q, c)
  {
  }

  lemma CandidateIsLongest(f: Format, d: seq<byte>, q: nat, p: nat, cap: nat, len: nat)
    requires q < p && p + cap <= |d| && MinDistance(f) <= p - q
    requires 3 <= len <= Limit(f, cap, p - q) && Repeats(d, p, p - q, len)
    ensures Candidate(f, d, q, p, cap) >= len
  {
    RunIs(d, q, p, Limit(f, cap, p - q), len);
  }

  lemma ChooseIsLongest(f: Format, cs: seq<nat>, i: nat)
    requires i < |cs|
    ensures var b := Choose(f, cs);
      cs[i] <= b.len && (0 < cs[i] == b.len ==> if OldestFirst(f) then b.off >= |cs| - i else b.off <= |cs| - i)
  {
    PickInRange(cs);
  }

  lemma ChooseInRange(f: Format, cs: seq<nat>)
    ensures var b := Choose(f, cs);
      b.len > 0 ==> 1 <= b.off <= |cs| && cs[|cs| - b.off] == b.len
  {
    PickInRange(cs);
  }

  lemma CandidatesAt(f: Format, d: seq<byte>, lo: nat, p: nat, cap: nat, q: nat)
    requires lo <= q < p && p + cap <= |d|
    ensures Candidates(f, d, lo, p, cap)[q - lo] == Candidate(f, d, q, p, cap)
  {
  }

  lemma ChosenIsMatch(f: Format, d: seq<byte>, lo: nat, p: nat, cap: nat)
    requires lo <= p && p + cap <= |d|
    ensures var b := Choose(f, Candidates(f, d, lo, p, cap));
      b.len > 0 ==>
        3 <= b.len <= Limit(f, cap, b.off) && MinDistance(f) <= b.off <= p - lo && Repeats(d, p, b.off, b.len)
  {
    var b := Choose(f, Candidates(f, d, lo, p, cap));
    ChooseInRange(f, Candidates(f, d, lo, p, cap));
    if b.len > 0 {
      CandidatesAt(f, d, lo, p, cap, p - b.off);
      CandidateIsMatch(f, d, p - b.off, p, cap);
    }
  }

  lemma ChosenIsLongest(f: Format, d: seq<byte>, lo: nat, p: nat, cap: nat, off: nat, len: nat)
    requires lo <= p && p + cap <= |d| && MinDistance(f) <= off <= p - lo
    requires 3 <= len <= Limit(f, cap, off) && Repeats(d, p, off, len)
    ensures var b := Choose(f, Candidates(f, d, lo, p, cap));
      b.len >= len && (b.len == len ==> if OldestFirst(f) then b.off >= off else b.off <= off)
  {
    CandidateIsLongest(f, d, p - off, p, cap, len);
    CandidatesAt(f, d, lo, p, cap, p - off);
    ChooseIsLongest(f, Candidates(f, d, lo, p, cap), p - off - lo);
  }

  /** No usable match in the window is longer than the one found; of equally long ones LZ77 takes the
      farthest, the others the nearest. */
  lemma BestMatchIsLongest(f: Format, d: seq<byte>, p: nat, off: nat, len: nat)
    requires p <= |d| && MinDistance(f) <= off <= Min(p, WindowSize(f))
    requires 3 <= len <= Limit(f, Cap(f, d, p), off) && Repeats(d, p, off, len)
    ensures BestMatch(f, d, p).len >= len
    ensures BestMatch(f, d, p).len == len ==>
      if OldestFirst(f) then BestMatch(f, d, p).off >= off else BestMatch(f, d, p).off <= off
  {
    ChosenIsLongest(f, d, Low(f, p), p, Cap(f, d, p), off, len);
  }

  /** The match found really is one, and the format can store it. */
  lemma BestMatchIsMatch(f: Format, d: seq<byte>, p: nat)
    requires p <= |d|
    ensures var b := BestMatch(f, d, p);
      b.len > 0 ==>
        && 3 <= b.len <= Limit(f, Cap(f, d, p), b.off)
        && MinDistance(f) <= b.off <= Min(p, WindowSize(f))
        && Repeats(d, p, b.off, b.len)
  {
    ChosenIsMatch(f, d, Low(f, p), p, Cap(f, d, p));
  }

  // ----- The greedy token sequence -----

  /** The encoder's choice at `p`. Yaz0 looks one byte ahead and prefers a longer match there. */
  function NextToken(f: Format, d: seq<byte>, p: nat): (t: Token)
    requires p < |d|
    ensures Span(t) > 0
  {
    var b := BestMatch(f, d, p);
    if b.len < 3 || (f.Yaz0? && BestMatch(f, d, p + 1).len > b.len) then Literal(d[p]) else Match(b.len, b.off)
  }

  /** A token that describes `d` at `p`. */
  ghost predicate Describes(f: Format, d: seq<byte>, p: nat, t: Token) {
    && WellFormed(f, t)
    && p + Span(t) <= |d| && p < |d|
    && (t.Literal? ==> t.b == d[p])
    && (t.Match? ==> t.off <= p && Repeats(d, p, t.off, t.len))
  }

  lemma NextTokenDescribes(f: Format, d: seq<byte>, p: nat)
    requires p < |d|
    ensures Describes(f, d, p, NextToken(f, d, p))
  {
    BestMatchIsMatch(f, d, p);
  }

  function Parse(f: Format, d: seq<byte>, p: nat): (toks: seq<Token>)
    requires p <= |d|
    decreases |d| - p
  {
    if p == |d| then []
    else
      var t := NextToken(f, d, p);
      NextTokenDescribes(f, d, p);
      [t] + Parse(f, d, p + Span(t))
  }

  lemma ParseUnfolds(f: Format, d: seq<byte>, p: nat)
    requires p < |d|
    ensures p + Span(NextToken(f, d, p)) <= |d|
    ensures Parse(f, d, p) == [NextToken(f, d, p)] + Parse(f, d, p + Span(NextToken(f, d, p)))
  {
    NextTokenDescribes(f, d, p);
  }

  lemma ApplyDescribes(f: Format, d: seq<byte>, p: nat, t: Token)
    requires Describes(f, d, p, t)
    ensures Applicable(t, d[..p]) && Apply(d[..p], t) == d[..p + Span(t)]
  {
    if t.Match? {
      CopyExtends(d, p, t.off, t.len);
    } else {
      assert d[..p] + [d[p]] == d[..p + 1];
    }
  }

  /** A sequence of tokens that describes `d` from `p` on, up to some later point. */
  ghost predicate DescribesAll(f: Format, d: seq<byte>, p: nat, toks: seq<Token>)
    decreases |toks|
  {
    toks != [] ==> Describes(f, d, p, toks[0]) && DescribesAll(f, d, p + Span(toks[0]), toks[1..])
  }

  function Spans(toks: seq<Token>): nat {
    if toks == [] then 0 else Span(toks[0]) + Spans(toks[1..])
  }

  /** Tokens that describe `d` expand to it. */
  lemma {:induction false} ExpandDescribes(f: Format, d: seq<byte>, p: nat, toks: seq<Token>)
    requires p <= |d| && DescribesAll(f, d, p, toks)
    ensures p + Spans(toks) <= |d|
    ensures Expandable(d[..p], toks) && Expand(d[..p], toks) == d[..p + Spans(toks)]
    decreases |toks|
  {
    if toks != [] {
      var p' := p + Span(toks[0]);
      ApplyDescribes(f, d, p, toks[0]);
      ExpandDescribes(f, d, p', toks[1..]);
      ExpandFirst(d[..p], toks, d[..p']);
    }
  }

  lemma ExpandFirst(out: seq<byte>, toks: seq<Token>, out': seq<byte>)
    requires toks != [] && Applicable(toks[0], out) && Apply(out, toks[0]) == out' && Expandable(out', toks[1..])
    ensures Expandable(out, toks) && Expand(out, toks) == Expand(out', toks[1..])
  {
  }

  lemma {:induction false} DescribesWellFormed(f: Format, d: seq<byte>, p: nat, toks: seq<Token>)
    requires DescribesAll(f, d, p, toks)
    ensures AllWellFormed(f, toks)
    decreases |toks|
  {
    if toks != [] {
      DescribesWellFormed(f, d, p + Span(toks[0]), toks[1..]);
      forall k | 0 <= k < |toks| ensures WellFormed(f, toks[k]) {
        if k > 0 {
          assert toks[k] == toks[1..][k - 1];
        }
      }
    }
  }

  lemma {:induction false} ParseDescribes(f: Format, d: seq<byte>, p: nat)
    requires p <= |d|
    ensures DescribesAll(f, d, p, Parse(f, d, p)) && p + Spans(Parse(f, d, p)) == |d|
    ensures AllWellFormed(f, Parse(f, d, p))
    decreases |d| - p
  {
    if p < |d| {
      NextTokenDescribes(f, d, p);
      var t := NextToken(f, d, p);
      ParseDescribes(f, d, p + Span(t));
      ParseUnfolds(f, d, p);
      DescribesFirst(f, d, p, t, Parse(f, d, p + Span(t)), Parse(f, d, p));
      DescribesWellFormed(f, d, p, Parse(f, d, p));
    }
  }

  lemma DescribesFirst(f: Format, d: seq<byte>, p: nat, t: Token, rest: seq<Token>, toks: seq<Token>)
    requires toks == [t] + rest && Describes(f, d, p, t) && DescribesAll(f, d, p + Span(t), rest)
    ensures DescribesAll(f, d, p, toks) && Spans(toks) == Span(t) + Spans(rest)
  {
    assert toks[1..] == rest;
  }

  /** The greedy parse of any data expands to the data. */
  lemma ParseExpands(f: Format, d: seq<byte>)
    ensures AllWellFormed(f, Parse(f, d, 0))
    ensures Expandable([], Parse(f, d, 0)) && Expand([], Parse(f, d, 0)) == d
  {
    ParseDescribes(f, d, 0);
    ExpandDescribes(f, d, 0, Parse(f, d, 0));
    assert d[..0] == [] && d[..|d|] == d;
  }
}
