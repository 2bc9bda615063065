/** The encoders' searches. Each walks the chain of the byte at the current position instead of the
    whole window, and finds exactly what trying every window position would find. */
module MatchSearch {
  import opened Bytes
  import opened TokenStream
  import opened GreedyParse
  import opened SlidingWindow

  /** A window that has slid over `d[..p]`. */
  ghost predicate Covers(w: Window, f: Format, d: seq<byte>, p: nat)
    reads w, w.next, w.prev, w.first, w.last
  {
    w.Valid() && w.size == WindowSize(f) && p <= |d| && w.hist == d[..p]
  }

  /** The buffer position a ring place stands for. */
  function SearchPosition(windowPos: nat, windowLen: nat, p: nat, slot: nat): int {
    if slot < windowPos then p - windowPos + slot else p - windowLen - windowPos + slot
  }

  /** The search's running result as a pick among the candidates. */
  ghost predicate Holds(pick: Pick, lo: nat, p: nat, size: nat, off: nat) {
    if size < 3 then size == 2 && off == 0 && pick.len == 0
    else pick.len == size && off <= p && pick.at == p - off - lo
  }

  lemma {:induction false} OldestSkip(cs: seq<nat>, a: nat, b: nat)
    requires a <= b <= |cs|
    requires forall j :: a <= j < b ==> cs[j] <= Oldest(cs, a).len
    ensures Oldest(cs, b) == Oldest(cs, a)
  {
    if a < b {
      OldestSkip(cs, a, b - 1);
    }
  }

  lemma {:induction false} NewestSkip(cs: seq<nat>, a: nat, b: nat)
    requires a <= b <= |cs|
    requires forall j :: a <= j < b ==> cs[j] <= Newest(cs, b).len
    ensures Newest(cs, a) == Newest(cs, b)
    decreases b - a
  {
    if a < b {
      NewestSkip(cs, a + 1, b);
    }
  }

  /** A position holding a different byte offers nothing. */
  lemma ForeignCandidates(f: Format, d: seq<byte>, lo: nat, p: nat, cap: nat, a: nat, b: nat)
    requires lo <= a <= b <= p && p + cap <= |d| && 0 < cap
    requires forall q :: a <= q < b ==> d[q] != d[p]
    ensures forall j :: a - lo <= j < b - lo ==> Candidates(f, d, lo, p, cap)[j] == 0
  {
    forall j | a - lo <= j < b - lo
      ensures Candidates(f, d, lo, p, cap)[j] == 0
    {
      CandidatesAt(f, d, lo, p, cap, lo + j);
      assert d[lo + j] != d[p];
    }
  }

  /** No candidate is longer than the cap. */
  lemma CandidatesCapped(f: Format, d: seq<byte>, lo: nat, p: nat, cap: nat)
    requires lo <= p && p + cap <= |d|
    ensures forall j :: 0 <= j < p - lo ==> Candidates(f, d, lo, p, cap)[j] <= cap
  {
    forall j | 0 <= j < p - lo
      ensures Candidates(f, d, lo, p, cap)[j] <= cap
    {
      CandidatesAt(f, d, lo, p, cap, lo + j);
    }
  }

  /** Extends a three-byte match as far as it goes. */
  method Extend(d: seq<byte>, q: nat, p: nat, cap: nat) returns (n: nat)
    requires q <= p && p + cap <= |d| && 3 <= cap
    requires d[q] == d[p] && d[q + 1] == d[p + 1] && d[q + 2] == d[p + 2]
    ensures 3 <= n == Run(d, q, p, cap)
  {
    n := 3;
    while n < cap && d[q + n] == d[p + n]
      invariant 3 <= n <= cap && Repeats(d, p, p - q, n)
    {
      n := n + 1;
    }
    RunIs(d, q, p, cap, n);
  }

  lemma ShortRun(d: seq<byte>, q: nat, p: nat, cap: nat)
    requires q < p && p + cap <= |d| && 3 <= cap
    requires d[q + 1] != d[p + 1] || d[q + 2] != d[p + 2]
    ensures Run(d, q, p, cap) < 3
  {
    assert Repeats(d, p, p - q, Run(d, q, p, cap));
  }

  // ----- Walking the chain -----

  /** The window positions that hold the byte at `p`, oldest first. */
  ghost function ChainOf(f: Format, d: seq<byte>, p: nat): (ps: seq<nat>)
    requires p < |d|
    ensures ListsAll(d[..p], Low(f, p), d[p], ps)
  {
    PositionsListAll(d[..p], Low(f, p), d[p]);
    Positions(d[..p], Low(f, p), d[p])
  }

  /** The ring place of the `i`-th chain entry, or the chain's end mark. */
  ghost function ChainSlot(f: Format, d: seq<byte>, p: nat, i: int): int
    requires p < |d|
  {
    var ps := ChainOf(f, d, p);
    if 0 <= i < |ps| then ps[i] % WindowSize(f) else -1
  }

  /** One entry of the chain: its position is recovered, and its links lead to its neighbours. */
  ghost predicate EntryOk(w: Window, f: Format, d: seq<byte>, p: nat, i: nat)
    requires w.Separate() && p < |d| && i < |ChainOf(f, d, p)|
    reads w, w.next, w.prev
  {
    var slot, q := ChainSlot(f, d, p, i), ChainOf(f, d, p)[i];
    && 0 <= slot < w.size
    && SearchPosition(w.windowPos, w.windowLen, p, slot) == q
    && w.next[slot] == ChainSlot(f, d, p, i + 1)
    && w.prev[slot] == ChainSlot(f, d, p, i - 1)
  }

  /** The tables hold the chain of the byte at `p`. */
  ghost predicate ChainOk(w: Window, f: Format, d: seq<byte>, p: nat)
    reads w, w.next, w.prev, w.first, w.last
  {
    && w.Separate() && p < |d|
    && w.first[d[p]] == ChainSlot(f, d, p, 0)
    && w.last[d[p]] == ChainSlot(f, d, p, |ChainOf(f, d, p)| - 1)
    && forall i :: 0 <= i < |ChainOf(f, d, p)| ==> EntryOk(w, f, d, p, i)
  }

  lemma CoversChain(w: Window, f: Format, d: seq<byte>, p: nat)
    requires Covers(w, f, d, p) && p < |d|
    ensures ChainOk(w, f, d, p)
  {
    assert w.Lo() == Low(f, p);
    var t, slots, ps := w.Contents(), Ring(p, w.size), ChainOf(f, d, p);
    assert Linked(t, slots, w.size, d[p], ps);
    assert w.first[d[p]] == t.first[d[p]] && w.last[d[p]] == t.last[d[p]];
    forall i | 0 <= i < |ps| ensures EntryOk(w, f, d, p, i) {
      CoversEntry(w, f, d, p, i);
    }
  }

  lemma CoversEntry(w: Window, f: Format, d: seq<byte>, p: nat, i: nat)
    requires Covers(w, f, d, p) && p < |d| && i < |ChainOf(f, d, p)|
    ensures w.Separate() && EntryOk(w, f, d, p, i)
  {
    assert w.Lo() == Low(f, p);
    var t, slots, ps := w.Contents(), Ring(p, w.size), ChainOf(f, d, p);
    assert Linked(t, slots, w.size, d[p], ps);
    assert LinkedAt(t, slots, w.size, ps, i);
    PositionOfSlot(ps[i], p, w.size);
    var slot := slots[ps[i]];
    assert w.next[slot] == t.next[slot] && w.prev[slot] == t.prev[slot];
  }

  lemma ChainInWindow(f: Format, d: seq<byte>, p: nat, i: nat)
    requires p < |d| && i < |ChainOf(f, d, p)|
    ensures var q := ChainOf(f, d, p)[i]; Low(f, p) <= q < p && d[q] == d[p]
  {
    assert d[..p][ChainOf(f, d, p)[i]] == d[p];
  }

  /** Where the `i`-th gap of the chain starts and ends. */
  ghost function GapStart(f: Format, d: seq<byte>, p: nat, i: nat): nat
    requires p < |d| && i <= |ChainOf(f, d, p)|
  {
    if i == 0 then Low(f, p) else ChainOf(f, d, p)[i - 1] + 1
  }

  ghost function GapEnd(f: Format, d: seq<byte>, p: nat, i: nat): nat
    requires p < |d| && i <= |ChainOf(f, d, p)|
  {
    if i < |ChainOf(f, d, p)| then ChainOf(f, d, p)[i] else p
  }

  lemma GapIsEmpty(f: Format, d: seq<byte>, p: nat, cap: nat, i: nat)
    requires p + cap <= |d| && 0 < cap && i <= |ChainOf(f, d, p)|
    ensures var a, b, lo := GapStart(f, d, p, i), GapEnd(f, d, p, i), Low(f, p);
      && lo <= a <= b <= p
      && forall j :: a - lo <= j < b - lo ==> Candidates(f, d, lo, p, cap)[j] == 0
  {
    var a, b, lo, ps := GapStart(f, d, p, i), GapEnd(f, d, p, i), Low(f, p), ChainOf(f, d, p);
    GapsAreForeign(d[..p], lo, d[p], ps, i);
    forall q | a <= q < b ensures d[q] != d[p] {
      assert d[..p][q] != d[p];
    }
    ForeignCandidates(f, d, lo, p, cap, a, b);
  }

  // ----- The running result -----

  /** The candidates in the window before `q` have been tried, oldest first, and this is the best. */
  ghost predicate TriedBelow(f: Format, d: seq<byte>, p: nat, cap: nat, q: nat, size: nat, off: nat)
    requires p + cap <= |d| && Low(f, p) <= q <= p
  {
    var lo := Low(f, p);
    Holds(Oldest(Candidates(f, d, lo, p, cap), q - lo), lo, p, size, off)
  }

  lemma TryBelow(f: Format, d: seq<byte>, p: nat, cap: nat, q: nat, size: nat, off: nat, c: nat)
    requires p + cap <= |d| && Low(f, p) <= q < p && TriedBelow(f, d, p, cap, q, size, off)
    requires c == Candidate(f, d, q, p, cap)
    ensures c > size ==> TriedBelow(f, d, p, cap, q + 1, c, p - q)
    ensures c <= size ==> TriedBelow(f, d, p, cap, q + 1, size, off)
  {
    CandidatesAt(f, d, Low(f, p), p, cap, q);
    CandidateIsMatch(f, d, q, p, cap);
  }

  lemma TryBelowGap(f: Format, d: seq<byte>, p: nat, cap: nat, i: nat, size: nat, off: nat)
    requires p + cap <= |d| && 0 < cap && i <= |ChainOf(f, d, p)|
    ensures Low(f, p) <= GapStart(f, d, p, i) <= GapEnd(f, d, p, i) <= p
    ensures TriedBelow(f, d, p, cap, GapStart(f, d, p, i), size, off)
        ==> TriedBelow(f, d, p, cap, GapEnd(f, d, p, i), size, off)
  {
    GapIsEmpty(f, d, p, cap, i);
    var lo := Low(f, p);
    OldestSkip(Candidates(f, d, lo, p, cap), GapStart(f, d, p, i) - lo, GapEnd(f, d, p, i) - lo);
  }

  /** A search may stop once no position left can offer more. */
  lemma TryBelowRest(f: Format, d: seq<byte>, p: nat, cap: nat, q: nat, size: nat, off: nat)
    requires p + cap <= |d| && Low(f, p) <= q <= p && TriedBelow(f, d, p, cap, q, size, off)
    requires size == cap || p - q < MinDistance(f)
    ensures TriedBelow(f, d, p, cap, p, size, off)
  {
    var lo := Low(f, p);
    var cs := Candidates(f, d, lo, p, cap);
    CandidatesCapped(f, d, lo, p, cap);
    forall j | q - lo <= j < p - lo ensures cs[j] <= Oldest(cs, q - lo).len {
      CandidatesAt(f, d, lo, p, cap, lo + j);
    }
    OldestSkip(cs, q - lo, p - lo);
  }

  lemma TriedAllBelow(f: Format, d: seq<byte>, p: nat, cap: nat, size: nat, off: nat)
    requires OldestFirst(f) && p + cap <= |d| && 3 <= cap && TriedBelow(f, d, p, cap, p, size, off)
    ensures BestWithin(f, d, p, cap) == if size < 3 then Best(0, 0) else Best(size, off)
  {
  }

  /** One step of LZ77's search: the window position `q`, which holds the byte at `p`. */
  method ConsiderOldest(f: Format, d: seq<byte>, p: nat, cap: nat, q: nat, size: nat, off: nat)
    returns (size': nat, off': nat, stop: bool)
    requires OldestFirst(f) && p + cap <= |d| && 2 <= size <= cap && 3 <= cap
    requires Low(f, p) <= q < p && d[q] == d[p] && TriedBelow(f, d, p, cap, q, size, off)
    ensures 2 <= size' <= cap
    ensures TriedBelow(f, d, p, cap, if stop then p else q + 1, size', off')
  {
    size', off', stop := size, off, false;
    if d[q + 1] != d[p + 1] || d[q + 2] != d[p + 2] {
      ShortRun(d, q, p, cap);
      TryBelow(f, d, p, cap, q, size, off, 0);
      return;
    }
    if p - q < 2 {
      TryBelowRest(f, d, p, cap, q, size, off);
      stop := true;
      return;
    }
    var n := Extend(d, q, p, cap);
    TryBelow(f, d, p, cap, q, size, off, n);
    if n > size {
      size', off' := n, p - q;
      if size' == cap {
        TryBelowRest(f, d, p, cap, q + 1, size', off');
        stop := true;
      }
    }
  }

  /** The state of a walk along the chain, oldest first, about to look at entry `i`. */
  ghost predicate WalkingUp(
    f: Format, d: seq<byte>, p: nat, cap: nat, i: nat, slot: int, stop: bool, size: nat, off: nat)
  {
    && p + cap <= |d| && 3 <= cap && i <= |ChainOf(f, d, p)| && 2 <= size <= cap
    && slot == ChainSlot(f, d, p, i)
    && Low(f, p) <= GapEnd(f, d, p, i) <= p
    && TriedBelow(f, d, p, cap, if stop then p else GapEnd(f, d, p, i), size, off)
  }

  lemma StartUp(w: Window, f: Format, d: seq<byte>, p: nat, cap: nat)
    requires ChainOk(w, f, d, p) && p + cap <= |d| && 3 <= cap
    ensures WalkingUp(f, d, p, cap, 0, w.first[d[p]], false, 2, 0)
  {
    TryBelowGap(f, d, p, cap, 0, 2, 0);
  }

  lemma EnterUp(w: Window, f: Format, d: seq<byte>, p: nat, cap: nat, i: nat, slot: int, size: nat, off: nat)
    returns (q: nat)
    requires ChainOk(w, f, d, p) && WalkingUp(f, d, p, cap, i, slot, false, size, off) && slot != -1
    ensures i < |ChainOf(f, d, p)| && q == ChainOf(f, d, p)[i]
    ensures Low(f, p) <= q < p && d[q] == d[p] && TriedBelow(f, d, p, cap, q, size, off)
    ensures 0 <= slot < w.size && SearchPosition(w.windowPos, w.windowLen, p, slot) == q
  {
    q := ChainOf(f, d, p)[i];
    assert EntryOk(w, f, d, p, i);
    ChainInWindow(f, d, p, i);
  }

  lemma AdvanceUp(w: Window, f: Format, d: seq<byte>, p: nat, cap: nat, i: nat, slot: int, size: nat, off: nat)
    requires ChainOk(w, f, d, p) && p + cap <= |d| && 3 <= cap && i < |ChainOf(f, d, p)| && 2 <= size <= cap
    requires slot == ChainSlot(f, d, p, i)
    requires var q := ChainOf(f, d, p)[i]; Low(f, p) <= q < p && TriedBelow(f, d, p, cap, q + 1, size, off)
    ensures 0 <= slot < w.size && WalkingUp(f, d, p, cap, i + 1, w.next[slot], false, size, off)
  {
    assert EntryOk(w, f, d, p, i);
    TryBelowGap(f, d, p, cap, i + 1, size, off);
  }

  /** Walks the chain of the byte at `p`, oldest first. */
  method WalkOldest(w: Window, f: Format, d: seq<byte>, p: nat, cap: nat) returns (size: nat, off: nat)
    requires OldestFirst(f) && ChainOk(w, f, d, p) && p + cap <= |d| && 3 <= cap
    ensures BestWithin(f, d, p, cap) == if size < 3 then Best(0, 0) else Best(size, off)
  {
    StartUp(w, f, d, p, cap);
    size, off := 2, 0;
    var slot, stop := w.first[d[p]], false;
    ghost var i: nat := 0;
    while slot != -1 && !stop
      invariant WalkingUp(f, d, p, cap, i, slot, stop, size, off)
      decreases |ChainOf(f, d, p)| - i, !stop
    {
      ghost var q0 := EnterUp(w, f, d, p, cap, i, slot, size, off);
      var q := SearchPosition(w.windowPos, w.windowLen, p, slot);
      size, off, stop := ConsiderOldest(f, d, p, cap, q, size, off);
      if !stop {
        AdvanceUp(w, f, d, p, cap, i, slot, size, off);
        slot := w.next[slot];
        i := i + 1;
      }
    }
    TriedAllBelow(f, d, p, cap, size, off);
  }

  /** LZ77's search: oldest first, never closer than two bytes. */
  method SearchOldest(w: Window, f: Format, d: seq<byte>, p: nat, cap: nat) returns (size: nat, off: nat)
    requires OldestFirst(f) && Covers(w, f, d, p) && p + cap <= |d|
    ensures Best(size, off) == BestWithin(f, d, p, cap)
  {
    if cap < 3 {
      return 0, 0;
    }
    CoversChain(w, f, d, p);
    size, off := WalkOldest(w, f, d, p, cap);
    if size < 3 {
      return 0, 0;
    }
  }

  // ----- Newest first -----

  /** The candidates in the window from `q` on have been tried, newest first, and this is the best. */
  ghost predicate TriedAbove(f: Format, d: seq<byte>, p: nat, cap: nat, q: nat, size: nat, off: nat)
    requires p + cap <= |d| && Low(f, p) <= q <= p
  {
    var lo := Low(f, p);
    Holds(Newest(Candidates(f, d, lo, p, cap), q - lo), lo, p, size, off)
  }

  lemma HoldsStep(pick: Pick, lo: nat, p: nat, size: nat, off: nat, c: nat, q: nat)
    requires Holds(pick, lo, p, size, off) && lo <= q < p && (c == 0 || c >= 3)
    ensures c > size ==> Holds(Better(pick, c, q - lo), lo, p, c, p - q)
    ensures c <= size ==> Holds(Better(pick, c, q - lo), lo, p, size, off)
  {
  }

  lemma TryAbove(f: Format, d: seq<byte>, p: nat, cap: nat, q: nat, size: nat, off: nat, c: nat)
    requires p + cap <= |d| && Low(f, p) <= q < p && TriedAbove(f, d, p, cap, q + 1, size, off)
    requires c == Candidate(f, d, q, p, cap)
    ensures c > size ==> TriedAbove(f, d, p, cap, q, c, p - q)
    ensures c <= size ==> TriedAbove(f, d, p, cap, q, size, off)
  {
    CandidatesAt(f, d, Low(f, p), p, cap, q);
    CandidateIsMatch(f, d, q, p, cap);
    var lo := Low(f, p);
    var cs := Candidates(f, d, lo, p, cap);
    HoldsStep(Newest(cs, q + 1 - lo), lo, p, size, off, c, q);
    assert Newest(cs, q - lo) == Better(Newest(cs, q + 1 - lo), c, q - lo);
  }

  lemma TryAboveGap(f: Format, d: seq<byte>, p: nat, cap: nat, i: nat, size: nat, off: nat)
    requires p + cap <= |d| && 0 < cap && i <= |ChainOf(f, d, p)|
    ensures Low(f, p) <= GapStart(f, d, p, i) <= GapEnd(f, d, p, i) <= p
    ensures TriedAbove(f, d, p, cap, GapEnd(f, d, p, i), size, off)
        ==> TriedAbove(f, d, p, cap, GapStart(f, d, p, i), size, off)
  {
    GapIsEmpty(f, d, p, cap, i);
    var lo := Low(f, p);
    NewestSkip(Candidates(f, d, lo, p, cap), GapStart(f, d, p, i) - lo, GapEnd(f, d, p, i) - lo);
  }

  lemma TryAboveRest(f: Format, d: seq<byte>, p: nat, cap: nat, q: nat, size: nat, off: nat)
    requires p + cap <= |d| && Low(f, p) <= q <= p && TriedAbove(f, d, p, cap, q, size, off)
    requires 3 <= size == cap
    ensures TriedAbove(f, d, p, cap, Low(f, p), size, off)
  {
    var lo := Low(f, p);
    var cs := Candidates(f, d, lo, p, cap);
    CandidatesCapped(f, d, lo, p, cap);
    assert Newest(cs, q - lo).len == cap;
    NewestSkip(cs, 0, q - lo);
  }

  lemma TriedAllAbove(f: Format, d: seq<byte>, p: nat, cap: nat, size: nat, off: nat)
    requires !OldestFirst(f) && p + cap <= |d| && 3 <= cap && TriedAbove(f, d, p, cap, Low(f, p), size, off)
    ensures BestWithin(f, d, p, cap) == if size < 3 then Best(0, 0) else Best(size, off)
  {
  }

  /** The state of a walk along the chain, newest first, about to look at entry `i - 1`. */
  ghost predicate WalkingDown(
    f: Format, d: seq<byte>, p: nat, cap: nat, i: nat, slot: int, stop: bool, size: nat, off: nat)
  {
    && p + cap <= |d| && 3 <= cap && i <= |ChainOf(f, d, p)| && 2 <= size <= cap
    && slot == ChainSlot(f, d, p, i - 1)
    && Low(f, p) <= GapStart(f, d, p, i) <= p
    && TriedAbove(f, d, p, cap, if stop then Low(f, p) else GapStart(f, d, p, i), size, off)
  }

  lemma StartDown(w: Window, f: Format, d: seq<byte>, p: nat, cap: nat)
    requires ChainOk(w, f, d, p) && p + cap <= |d| && 3 <= cap
    ensures WalkingDown(f, d, p, cap, |ChainOf(f, d, p)|, w.last[d[p]], false, 2, 0)
  {
    TryAboveGap(f, d, p, cap, |ChainOf(f, d, p)|, 2, 0);
  }

  lemma EnterDown(w: Window, f: Format, d: seq<byte>, p: nat, cap: nat, i: nat, slot: int, size: nat, off: nat)
    returns (q: nat)
    requires ChainOk(w, f, d, p) && WalkingDown(f, d, p, cap, i, slot, false, size, off) && slot != -1
    ensures 0 < i <= |ChainOf(f, d, p)| && q == ChainOf(f, d, p)[i - 1] && slot == ChainSlot(f, d, p, i - 1)
    ensures Low(f, p) <= q < p && d[q] == d[p] && TriedAbove(f, d, p, cap, q + 1, size, off)
    ensures 0 <= slot < w.size && SearchPosition(w.windowPos, w.windowLen, p, slot) == q
  {
    q := ChainOf(f, d, p)[i - 1];
    assert EntryOk(w, f, d, p, i - 1);
    ChainInWindow(f, d, p, i - 1);
  }

  lemma AdvanceDown(w: Window, f: Format, d: seq<byte>, p: nat, cap: nat, i: nat, slot: int, size: nat, off: nat)
    requires ChainOk(w, f, d, p) && p + cap <= |d| && 3 <= cap && i < |ChainOf(f, d, p)| && 2 <= size <= cap
    requires slot == ChainSlot(f, d, p, i)
    requires var q := ChainOf(f, d, p)[i]; Low(f, p) <= q < p && TriedAbove(f, d, p, cap, q, size, off)
    ensures 0 <= slot < w.size && WalkingDown(f, d, p, cap, i, w.prev[slot], false, size, off)
  {
    assert EntryOk(w, f, d, p, i);
    TryAboveGap(f, d, p, cap, i, size, off);
  }

  /** One step of a search that goes newest first, `n` being what position `q` offers. */
  method ConsiderNewest(
    ghost f: Format, ghost d: seq<byte>, ghost p: nat, cap: nat, ghost q: nat, size: nat, off: nat, n: nat, dist: nat)
    returns (size': nat, off': nat, stop: bool)
    requires p + cap <= |d| && 2 <= size <= cap && 3 <= cap
    requires Low(f, p) <= q < p && TriedAbove(f, d, p, cap, q + 1, size, off)
    requires n == Candidate(f, d, q, p, cap) && dist == p - q
    ensures 2 <= size' <= cap
    ensures TriedAbove(f, d, p, cap, if stop then Low(f, p) else q, size', off')
  {
    size', off', stop := size, off, false;
    TryAbove(f, d, p, cap, q, size, off, n);
    CandidateIsMatch(f, d, q, p, cap);
    if n > size {
      size', off' := n, dist;
      if size' == cap {
        TryAboveRest(f, d, p, cap, q, size', off');
        stop := true;
      }
    }
  }

  method LengthYaz0(d: seq<byte>, p: nat, cap: nat, q: nat) returns (n: nat)
    requires 3 <= cap && p + cap <= |d| && q < p && d[q] == d[p]
    ensures n == Candidate(Yaz0, d, q, p, cap)
  {
    n := 0;
    if d[q + 1] == d[p + 1] && d[q + 2] == d[p + 2] {
      n := Extend(d, q, p, cap);
    } else {
      ShortRun(d, q, p, cap);
    }
  }

  method WalkNewest(w: Window, d: seq<byte>, p: nat, cap: nat) returns (size: nat, off: nat)
    requires ChainOk(w, Yaz0, d, p) && p + cap <= |d| && 3 <= cap
    ensures BestWithin(Yaz0, d, p, cap) == if size < 3 then Best(0, 0) else Best(size, off)
  {
    StartDown(w, Yaz0, d, p, cap);
    size, off := 2, 0;
    var slot, stop := w.last[d[p]], false;
    ghost var i: nat := |ChainOf(Yaz0, d, p)|;
    while slot != -1 && !stop
      invariant WalkingDown(Yaz0, d, p, cap, i, slot, stop, size, off)
      decreases i, !stop
    {
      slot, stop, size, off, i := StepNewest(w, d, p, cap, slot, size, off, i);
    }
    TriedAllAbove(Yaz0, d, p, cap, size, off);
  }

  /** One link of the chain, followed towards older positions. */
  method StepNewest(w: Window, d: seq<byte>, p: nat, cap: nat, slot: int, size: nat, off: nat, ghost i: nat)
    returns (slot': int, stop: bool, size': nat, off': nat, ghost i': nat)
    requires ChainOk(w, Yaz0, d, p) && p + cap <= |d| && 3 <= cap && slot != -1
    requires WalkingDown(Yaz0, d, p, cap, i, slot, false, size, off)
    ensures WalkingDown(Yaz0, d, p, cap, i', slot', stop, size', off')
    ensures i' < i || (i' == i && stop)
  {
    ghost var q0 := EnterDown(w, Yaz0, d, p, cap, i, slot, size, off);
    var q := SearchPosition(w.windowPos, w.windowLen, p, slot);
    var n := LengthYaz0(d, p, cap, q);
    size', off', stop := ConsiderNewest(Yaz0, d, p, cap, q, size, off, n, p - q);
    slot', i' := slot, i;
    if !stop {
      AdvanceDown(w, Yaz0, d, p, cap, i - 1, slot, size', off');
      slot' := w.prev[slot];
      i' := i - 1;
    }
  }

  /** Yaz0's search: newest first. */
  method SearchNewest(w: Window, d: seq<byte>, p: nat, cap: nat) returns (size: nat, off: nat)
    requires Covers(w, Yaz0, d, p) && p + cap <= |d|
    ensures Best(size, off) == BestWithin(Yaz0, d, p, cap)
  {
    if cap < 3 {
      return 0, 0;
    }
    CoversChain(w, Yaz0, d, p);
    size, off := WalkNewest(w, d, p, cap);
    if size < 3 {
      return 0, 0;
    }
  }

  // ----- Backwards -----

  /** Compares below `src` and `search`: the reversed buffer read forwards. */
  method ExtendBackward(buf: seq<byte>, src: nat, search: nat, cap: nat) returns (n: nat)
    requires 3 <= cap <= src < search <= |buf|
    requires buf[search - 1] == buf[src - 1] && buf[search - 2] == buf[src - 2] && buf[search - 3] == buf[src - 3]
    ensures 3 <= n == Run(Rev(buf), |buf| - search, |buf| - src, cap)
  {
    ghost var d, p, q := Rev(buf), |buf| - src, |buf| - search;
    n := 3;
    while n < cap && buf[search - n - 1] == buf[src - n - 1]
      invariant 3 <= n <= cap && Repeats(d, p, p - q, n)
    {
      assert d[p + n] == buf[src - n - 1] && d[q + n] == buf[search - n - 1];
      n := n + 1;
    }
    assert n < cap ==> d[p + n] == buf[src - n - 1] && d[q + n] == buf[search - n - 1];
    RunIs(d, q, p, cap, n);
  }

  /** What a backward candidate is worth. */
  lemma BackwardNear(d: seq<byte>, q: nat, p: nat, cap: nat)
    requires q < p && p + cap <= |d| && p - q < 3
    ensures Candidate(Blz, d, q, p, cap) == 0
  {
  }

  lemma BackwardFar(d: seq<byte>, q: nat, p: nat, cap: nat, limit: nat, l: nat)
    requires q < p && p + cap <= |d| && p - q >= 3 && limit == Min(cap, p - q) && l == Run(d, q, p, limit)
    ensures Candidate(Blz, d, q, p, cap) == if l < 3 then 0 else l
  {
  }

  lemma RevAt(buf: seq<byte>, x: nat)
    requires 0 < x <= |buf|
    ensures Rev(buf)[|buf| - x] == buf[x - 1]
  {
  }

  /** The length offered by the copy just below `search`, 0 when it is too near or too short. In the
      reversed buffer `d` the two places compared are `p` and `q`. */
  method LengthBackward(
    buf: seq<byte>, src: nat, cap: nat, search: nat, ghost d: seq<byte>, ghost p: nat, ghost q: nat) returns (n: nat)
    requires 3 <= cap <= src < search <= |buf|
    requires d == Rev(buf) && p == |buf| - src && q == |buf| - search && d[q] == d[p]
    ensures n == Candidate(Blz, d, q, p, cap)
  {
    if search - src < 3 {
      BackwardNear(d, q, p, cap);
      return 0;
    }
    var maxSize := Min(cap, search - src);
    RevAt(buf, src - 1);
    RevAt(buf, src - 2);
    RevAt(buf, search - 1);
    RevAt(buf, search - 2);
    if buf[search - 2] != buf[src - 2] || buf[search - 3] != buf[src - 3] {
      ShortRun(d, q, p, maxSize);
      BackwardFar(d, q, p, cap, maxSize, Run(d, q, p, maxSize));
      return 0;
    }
    n := ExtendBackward(buf, src, search, maxSize);
    BackwardFar(d, q, p, cap, maxSize, n);
  }

  /** Walks the chain of the byte below `src`; `d` and `p` are the reversed buffer and the place in it. */
  method WalkBackward(w: Window, buf: seq<byte>, src: nat, cap: nat, ghost d: seq<byte>, ghost p: nat)
    returns (size: nat, off: nat)
    requires 3 <= cap <= src <= |buf| && d == Rev(buf) && p == |buf| - src && ChainOk(w, Blz, d, p)
    ensures BestWithin(Blz, d, p, cap) == if size < 3 then Best(0, 0) else Best(size, off)
  {
    StartDown(w, Blz, d, p, cap);
    RevAt(buf, src);
    size, off := 2, 0;
    var slot, stop := w.last[buf[src - 1]], false;
    ghost var i: nat := |ChainOf(Blz, d, p)|;
    while slot != -1 && !stop
      invariant WalkingDown(Blz, d, p, cap, i, slot, stop, size, off)
      decreases i, !stop
    {
      ghost var q := EnterDown(w, Blz, d, p, cap, i, slot, size, off);
      var search := if slot < w.windowPos then src + w.windowPos - slot else src + w.windowLen + w.windowPos - slot;
      assert q == |buf| - search;
      var n := LengthBackward(buf, src, cap, search, d, p, q);
      size, off, stop := ConsiderNewest(Blz, d, p, cap, q, size, off, n, search - src);
      if !stop {
        AdvanceDown(w, Blz, d, p, cap, i - 1, slot, size, off);
        slot := w.prev[slot];
        i := i - 1;
      }
    }
    TriedAllAbove(Blz, d, p, cap, size, off);
  }

  /** Backward LZ77's search: newest first, at least three bytes away and never overlapping. */
  method SearchBackward(w: Window, buf: seq<byte>, src: nat, cap: nat) returns (size: nat, off: nat)
    requires src <= |buf| && cap <= src && Covers(w, Blz, Rev(buf), |buf| - src)
    ensures Best(size, off) == BestWithin(Blz, Rev(buf), |buf| - src, cap)
  {
    if cap < 3 {
      return 0, 0;
    }
    CoversChain(w, Blz, Rev(buf), |buf| - src);
    size, off := WalkBackward(w, buf, src, cap, Rev(buf), |buf| - src);
    if size < 3 {
      return 0, 0;
    }
  }

  // ----- Sliding -----

  /** Slides `count` bytes into the window. */
  method Slide(w: Window, f: Format, data: seq<byte>, p: nat, count: nat)
    requires Covers(w, f, data, p) && p + count <= |data|
    modifies w, w.next, w.prev, w.first, w.last
    ensures Covers(w, f, data, p + count)
  {
    for i := 0 to count
      invariant Covers(w, f, data, p + i)
    {
      assert data[..p + i + 1] == data[..p + i] + [data[p + i]];
      w.SlideByte(data[p + i], if w.windowLen == w.size then data[p + i - w.size] else 0);
    }
  }

  /** The output buffer is none of the window's tables. */
  ghost predicate Apart(w: Window, out: array<byte>) {
    && w.next as object != out && w.prev as object != out
    && w.first as object != out && w.last as object != out
  }
}
