/** Backward LZ77: where the safety scan leaves its buffer. */
module BackwardEdges {
  import opened Bytes
  import opened FlagGroups
  import opened TokenStream
  import opened GreedyParse
  import opened StreamWriter
  import opened BackwardLz77
  import opened BackwardSafety
  import opened ParseMatches

  // ----- The exact condition -----

  /** Up to token `k`, no match leaves more input behind it than output has been written. */
  ghost predicate NeverAhead(data: seq<byte>, k: nat)
    requires k <= |Stream(data)|
  {
    forall j :: 0 < j <= k && Stream(data)[j - 1].Match? ==>
      SpanSum(Stream(data), j) <= Pos(Items(Blz, Stream(data)), j)
  }

  /** The output fills up exactly with a flag group, while input is left and the input read has never been
      ahead of the output behind a match. */
  ghost predicate FillsAtGroup(data: seq<byte>, k: nat) {
    && k < |Stream(data)| && k % 8 == 0 && Pos(Items(Blz, Stream(data)), k) == |data| && NeverAhead(data, k)
  }

  lemma PrefixPos(stream: seq<Token>, k: nat, j: nat)
    requires AllWellFormed(Blz, stream) && j <= k <= |stream|
    ensures Pos(Items(Blz, stream[..k]), j) == Pos(Items(Blz, stream), j)
    ensures |EncodeTokens(Blz, stream[..k])| == Pos(Items(Blz, stream), k)
  {
    var items := Items(Blz, stream);
    assert items[..k] == Items(Blz, stream[..k]);
    assert items[..k][..j] == items[..j];
  }

  /** When the output is full, the scan cuts where a match has brought the input ahead. */
  lemma CutIsAhead(data: seq<byte>, k: nat, j: nat)
    requires 0 < j <= k <= |Stream(data)| && Pos(Items(Blz, Stream(data)), k) == |data|
    ensures IsCut(|data|, Stream(data)[..k], j) <==>
      Stream(data)[j - 1].Match? && SpanSum(Stream(data), j) > Pos(Items(Blz, Stream(data)), j)
  {
    PrefixPos(Stream(data), k, j);
    SpanSumPrefix(Stream(data), k, j);
  }

  lemma NoCutIsNeverAhead(data: seq<byte>, k: nat)
    requires k <= |Stream(data)| && Pos(Items(Blz, Stream(data)), k) == |data|
    ensures FirstCut(|data|, Stream(data)[..k], 0).None? <==> NeverAhead(data, k)
  {
    forall j | 0 < j <= k
      ensures IsCut(|data|, Stream(data)[..k], j) <==>
        Stream(data)[j - 1].Match? && SpanSum(Stream(data), j) > Pos(Items(Blz, Stream(data)), j)
    {
      CutIsAhead(data, k, j);
    }
  }

  lemma EmitsAt(data: seq<byte>, k: nat)
    requires k < |Stream(data)| && k % 8 == 0 && Pos(Items(Blz, Stream(data)), k) == |data|
    ensures Emit(data) == Emitted(k)
  {
    var items := Items(Blz, Stream(data));
    assert items[..0] == [];
    EncodeLaidOut(items, k);
    FitCountIs(items, 0, k, |data|);
  }

  /** The encoder reports success and its scan then leaves the buffer exactly when the output fills up like
      that: for all data, matches or not. */
  lemma RunsOffIff(data: seq<byte>)
    requires FOOTER < |data| < U32_LIMIT
    ensures Compressed(data) == RunsOff <==> exists k: nat :: FillsAtGroup(data, k)
  {
    if k: nat :| FillsAtGroup(data, k) {
      EmitsAt(data, k);
      NoCutIsNeverAhead(data, k);
    }
    if Compressed(data) == RunsOff {
      var k := Emit(data).count;
      var items := Items(Blz, Stream(data));
      assert items[..0] == [];
      NoCutIsNeverAhead(data, k);
      assert FillsAtGroup(data, k);
    }
  }

  // ----- Data without matches -----

  /** No match is found anywhere in the data. */
  ghost predicate MatchFree(data: seq<byte>) {
    forall k :: 0 <= k < |Stream(data)| ==> Stream(data)[k].Literal?
  }

  lemma {:induction false} LiteralSpans(toks: seq<Token>, k: nat)
    requires k <= |toks| && forall i :: 0 <= i < |toks| ==> toks[i].Literal?
    ensures SpanSum(toks, k) == k
  {
    if k > 0 {
      LiteralSpans(toks, k - 1);
    }
  }

  /** The last token count whose nine bytes per eight fit. */
  function LiteralFit(n: nat): (k: nat)
    ensures k + (k + 7) / 8 <= n < k + 1 + (k + 8) / 8
    ensures (k % 8 == 0 && k + (k + 7) / 8 == n) == (n % 9 == 0)
    ensures n > 0 ==> k < n
  {
    var m, r := n / 9, n % 9;
    LiteralFitAt(m, r);
    if r <= 1 then 8 * m else 8 * m + r - 1
  }

  lemma LiteralFitAt(m: nat, r: nat)
    requires r < 9
    ensures var n, k := 9 * m + r, if r <= 1 then 8 * m else 8 * m + r - 1;
      && k + (k + 7) / 8 <= n < k + 1 + (k + 8) / 8
      && (k % 8 == 0 && k + (k + 7) / 8 == n) == (r == 0)
  {
  }

  /** On data without any match the encoder reports success and the scan leaves its buffer exactly when
      nine divides the size: the output then fills just as a flag group ends. Otherwise it refuses. */
  lemma MatchFreeOutcome(data: seq<byte>)
    requires FOOTER < |data| < U32_LIMIT && MatchFree(data)
    ensures Compressed(data) == if |data| % 9 == 0 then RunsOff else Refused
  {
    var stream := Stream(data);
    var n, items := |data|, Items(Blz, stream);
    StreamWithin(data, |stream|, |stream|);
    assert stream[..|stream|] == stream;
    LiteralSpans(stream, |stream|);
    var k := LiteralFit(n);
    LiteralPos(Blz, stream, k);
    LiteralPos(Blz, stream, k + 1);
    assert items[..0] == [];
    PosMonotone(items, 0, k);
    FitCountIs(items, 0, k, n);
    RunsOffIff(data);
    if n % 9 == 0 {
      assert FillsAtGroup(data, k);
    }
  }

  /** Data in which no byte value occurs twice has no match. */
  lemma DistinctIsMatchFree(data: seq<byte>)
    requires forall i, j :: 0 <= i < j < |data| ==> data[i] != data[j]
    ensures MatchFree(data)
  {
    var d := Rev(data);
    ParseDescribes(Blz, d, 0);
    forall k | 0 <= k < |Stream(data)| ensures Stream(data)[k].Literal? {
      StreamDescribes(d, 0, Stream(data), k);
      FreshByteIsLiteral(data, SpanSum(Stream(data), k), Stream(data)[k]);
    }
  }

  /** A match needs a byte that occurs twice. */
  lemma MatchSharesByte(data: seq<byte>, p: nat, t: Token) returns (i: nat, j: nat)
    requires Describes(Blz, Rev(data), p, t) && t.Match?
    ensures i < j < |data| && data[i] == data[j]
  {
    var d := Rev(data);
    assert d[p] == d[p - t.off];
    i, j := |data| - 1 - p, |data| - 1 - (p - t.off);
  }

  lemma FreshByteIsLiteral(data: seq<byte>, p: nat, t: Token)
    requires Describes(Blz, Rev(data), p, t)
    requires forall i, j :: 0 <= i < j < |data| ==> data[i] != data[j]
    ensures t.Literal?
  {
    if t.Match? {
      var i, j := MatchSharesByte(data, p, t);
    }
  }

  /** The smallest example: any nine different bytes. */
  lemma NineBytesRunOff(data: seq<byte>)
    requires |data| == 9 && forall i, j :: 0 <= i < j < |data| ==> data[i] != data[j]
    ensures Compressed(data) == RunsOff
  {
    DistinctIsMatchFree(data);
    MatchFreeOutcome(data);
  }

  // ----- When it succeeds -----

  /** A stream that fits is emitted whole. */
  lemma WholeStream(data: seq<byte>)
    requires |EncodeTokens(Blz, Stream(data))| <= |data|
    ensures Emit(data) == Emitted(|Stream(data)|)
  {
    var items := Items(Blz, Stream(data));
    assert items[..|items|] == items && items[..0] == [];
    FitCountIs(items, 0, |items|, |data|);
  }

  /** Wherever the stream is cut, the file is at most 11 bytes longer than the stream. */
  lemma FileSizeAtMost(data: seq<byte>, toks: seq<Token>, cut: nat)
    requires |data| < U32_LIMIT && AllWellFormed(Blz, toks) && cut <= |toks|
    requires 0 <= OrigLeft(|data|, toks, cut) <= CompLeft(toks, cut)
    requires |EncodeTokens(Blz, toks)| + 11 < |data| && |EncodeTokens(Blz, toks)| + 11 <= 0xFFFFFF
    ensures var r := Finish(data, toks, cut);
      r.Done? && |r.file| <= |EncodeTokens(Blz, toks)| + 11
  {
  }

  /** Compress finishes a file whenever the stream is 12 bytes shorter than the data and within 24 bits. */
  lemma ShortStreamSucceeds(data: seq<byte>)
    requires FOOTER < |data| < U32_LIMIT
    requires |EncodeTokens(Blz, Stream(data))| + 11 < |data| && |EncodeTokens(Blz, Stream(data))| + 11 <= 0xFFFFFF
    ensures Compressed(data).Done? && |Compressed(data).file| <= |EncodeTokens(Blz, Stream(data))| + 11
  {
    var toks := Stream(data);
    WholeStream(data);
    assert toks[..|toks|] == toks;
    StreamWithin(data, |toks|, |toks|);
    var c := FirstCut(|data|, toks, 0);
    match c {
      case None =>
        FileSizeAtMost(data, toks, |toks|);
      case Some(cut) =>
        StreamWithin(data, |toks|, cut);
        FileSizeAtMost(data, toks, cut);
    }
  }

  /** Data of one byte value, from 29 bytes on, are compressed to about an eighth of their size. */
  lemma ConstantSucceeds(b: byte, n: nat)
    requires 29 <= n <= 134217472
    ensures Compressed(Repeated(b, n)).Done? && 8 * |Compressed(Repeated(b, n)).file| <= n + 198
  {
    var data := Repeated(b, n);
    assert Rev(data) == data;
    ConstantIsShort(Blz, b, n);
    ShortStreamSucceeds(data);
  }
}
