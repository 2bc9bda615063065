/** Data of any length in which the encoders of the LZ77 family find no match: two neighbouring bytes tell where in
    the last 32768 they stand. */
module Unmatched {
  import opened Bytes
  import opened FlagGroups
  import opened TokenStream
  import opened GreedyParse
  import opened StreamWriter

  /** Bytes from 128 on count in even places, bytes below 128 count their rounds in odd places. */
  function Counting(n: nat): (d: seq<byte>)
    ensures |d| == n
  {
    seq(n, i requires 0 <= i < n => if i % 2 == 0 then 128 + i / 2 % 128 else i / 2 / 128 % 128)
  }

  lemma SameRemainder(x: nat, e: nat) returns (q: nat)
    requires e <= x && x % 128 == (x - e) % 128
    ensures e == 128 * q
  {
    q := x / 128 - (x - e) / 128;
  }

  lemma OtherRound(k: nat, e: nat, q: nat)
    requires e == 128 * q <= k && 0 < q < 128
    ensures k / 128 % 128 != (k - e) / 128 % 128
  {
    assert (k - e) / 128 == k / 128 - q;
    NextRemainder(k / 128, q);
  }

  lemma NextRemainder(m: nat, q: nat)
    requires 0 < q < 128 && q <= m
    ensures m % 128 != (m - q) % 128
  {
  }

  /** No two neighbours stand a second time within a window. */
  lemma NoRepeat(n: nat, p: nat, off: nat)
    requires 0 < off <= p && off <= 4098 && p + 1 < n
    ensures var d := Counting(n); d[p] != d[p - off] || d[p + 1] != d[p + 1 - off]
  {
    var d := Counting(n);
    if d[p] == d[p - off] && d[p + 1] == d[p + 1 - off] {
      var k, e := SamePlace(n, p, off);
      var q := SameRemainder(if p % 2 == 0 then k else k + 1, e);
      OtherRound(k, e, q);
    }
  }

  /** The byte tells whether its place is even. */
  lemma SameParity(n: nat, i: nat, j: nat)
    requires j <= i < n && Counting(n)[i] == Counting(n)[j]
    ensures (i - j) % 2 == 0
  {
  }

  /** A repeat is one of both the count and the round. */
  lemma SamePlace(n: nat, p: nat, off: nat) returns (k: nat, e: nat)
    requires 0 < off <= p && p + 1 < n
    requires var d := Counting(n); d[p] == d[p - off] && d[p + 1] == d[p + 1 - off]
    ensures 0 < e <= k && off == 2 * e && k / 128 % 128 == (k - e) / 128 % 128
    ensures var x := if p % 2 == 0 then k else k + 1; x % 128 == (x - e) % 128
  {
    k, e := p / 2, off / 2;
    SameParity(n, p, p - off);
    assert (p - off) / 2 == k - e && (p + 1 - off) / 2 == (p + 1) / 2 - e;
  }

  /** Every token of such data is a literal. */
  lemma NoMatch(f: Format, n: nat, p: nat)
    requires p < n
    ensures NextToken(f, Counting(n), p).Literal?
  {
    var d := Counting(n);
    var b := BestMatch(f, d, p);
    BestMatchIsMatch(f, d, p);
    if b.len > 0 {
      assert d[p] == d[p - b.off] && d[p + 1] == d[p + 1 - b.off];
      NoRepeat(n, p, b.off);
    }
  }

  lemma {:induction false} AllLiterals(f: Format, n: nat, p: nat)
    requires p <= n
    ensures var toks := Parse(f, Counting(n), p);
      |toks| == n - p && forall i :: 0 <= i < |toks| ==> toks[i].Literal?
    decreases n - p
  {
    if p < n {
      NoMatch(f, n, p);
      AllLiterals(f, n, p + 1);
    }
  }

  /** Its stream takes nine bytes for every eight, and the rest and a flag byte for what is left. */
  lemma CountingStream(f: Format, n: nat)
    ensures AllWellFormed(f, Parse(f, Counting(n), 0))
    ensures |EncodeTokens(f, Parse(f, Counting(n), 0))| == n + (n + 7) / 8
  {
    var toks := Parse(f, Counting(n), 0);
    AllLiterals(f, n, 0);
    LiteralPos(f, toks, n);
    assert Items(f, toks)[..n] == Items(f, toks);
  }
}
