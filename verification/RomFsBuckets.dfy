/** The hash tables of a RomFS image (src/romfs.cpp, hash, computeBucketCount, createHash): every entry can be
    found by following the chain of its bucket. */
module RomFsBuckets {
  import opened Bytes

  const NONE: int := -1

  /** An entry: its name, the offset of its parent, and the link to the entry before it in its bucket. */
  datatype Entry = Entry(name: seq<bv16>, parentOffset: bv32, prev: int, bucket: nat)

  function Hash(parentOffset: bv32, name: seq<bv16>): bv32 {
    if name == [] then parentOffset ^ 123456789
    else
      var h := Hash(parentOffset, name[..|name| - 1]);
      ((h >> 5) | (h << 27)) ^ (name[|name| - 1] as bv32)
  }

  /** The hash of some names: of none under the root, of "a" under the root, and of "ab" under offset 4. */
  lemma SomeHashes()
    ensures Hash(0, []) == 0x75B_CD15 && Hash(0, [0x61]) == 0xA83A_DE09 && Hash(4, [0x61, 0x62]) == 0x4C41_D692
  {
    var root, child: bv32 := 0, 4;
    assert Hash(root, []) == 0x75B_CD15;
    assert Hash(root, [0x61]) == 0xA83A_DE09 by {
      assert [0x61 as bv16][..0] == [];
    }
    assert Hash(child, [0x61, 0x62]) == 0x4C41_D692 by {
      assert [0x61 as bv16, 0x62][..1] == [0x61];
      assert [0x61 as bv16][..0] == [];
      assert Hash(child, []) == 0x75B_CD11;
      assert Hash(child, [0x61]) == 0x883A_DE09;
    }
  }

  function BucketOf(e: Entry, count: nat): (b: nat)
    requires count > 0
    ensures b < count
  {
    Hash(e.parentOffset, e.name) as int % count
  }

  // ----- The number of buckets -----

  predicate Sparse(x: nat) {
    x % 2 != 0 && x % 3 != 0 && x % 5 != 0 && x % 7 != 0 && x % 11 != 0 && x % 13 != 0 && x % 17 != 0
  }

  const PERIOD: nat := 2 * 3 * 5 * 7 * 11 * 13 * 17

  /** One past a multiple of all seven primes is divisible by none of them. */
  lemma SparseExists(k: nat)
    ensures Sparse(k * PERIOD + 1)
  {
    var x := k * PERIOD + 1;
    NotDivisible(x, k * (PERIOD / 2), 2);
    NotDivisible(x, k * (PERIOD / 3), 3);
    NotDivisible(x, k * (PERIOD / 5), 5);
    NotDivisible(x, k * (PERIOD / 7), 7);
    SparseRest(k, x);
  }

  lemma SparseRest(k: nat, x: nat)
    requires x == k * PERIOD + 1
    ensures x % 11 != 0 && x % 13 != 0 && x % 17 != 0
  {
    NotDivisible(x, k * (PERIOD / 11), 11);
    NotDivisible(x, k * (PERIOD / 13), 13);
    NotDivisible(x, k * (PERIOD / 17), 17);
  }

  lemma NotDivisible(x: nat, q: nat, a: nat)
    requires a > 1 && x == q * a + 1
    ensures x % a != 0
  {
    DivModUnique(x, q, 1, a);
  }

  /** computeBucketCount: the first number from `n` on that is divisible by none of the primes, for large `n`. */
  method ComputeBucketCount(n: nat) returns (count: nat)
    ensures count >= n && count >= 3
    ensures n < 3 ==> count == 3
    ensures 3 <= n <= 19 ==> count == if n % 2 == 0 then n + 1 else n
    ensures n > 19 ==> Sparse(count) && forall x :: n <= x < count ==> !Sparse(x)
  {
    count := n;
    if count < 3 {
      count := 3;
    } else if count <= 19 {
      count := if count % 2 == 0 then count + 1 else count;
    } else {
      ghost var limit := (n / PERIOD + 1) * PERIOD + 1;
      SparseExists(n / PERIOD + 1);
      while !Sparse(count)
        invariant n <= count <= limit && forall x :: n <= x < count ==> !Sparse(x)
        decreases limit - count
      {
        count := count + 1;
      }
    }
  }

  // ----- Chains -----

  /** The last of the first `n` entries in bucket `b`, or NONE. */
  predicate IsLast(o: seq<nat>, n: nat, b: nat, r: int)
    requires n <= |o|
  {
    if r == NONE then forall i :: 0 <= i < n ==> o[i] != b
    else 0 <= r < n && o[r] == b && forall i :: r < i < n ==> o[i] != b
  }

  predicate Backward(prev: seq<int>) { forall i :: 0 <= i < |prev| ==> prev[i] == NONE || 0 <= prev[i] < i }

  function Chain(prev: seq<int>, i: int): seq<int>
    requires Backward(prev) && (i == NONE || 0 <= i < |prev|)
    decreases if i == NONE then 0 else i + 1
  {
    if i == NONE then [] else [i] + Chain(prev, prev[i])
  }

  /** The entries of one bucket among the first `n`, the last one first. */
  function Members(o: seq<nat>, b: nat, n: nat): seq<int>
    requires n <= |o|
  {
    if n == 0 then [] else (if o[n - 1] == b then [n - 1] else []) + Members(o, b, n - 1)
  }

  predicate Threaded(o: seq<nat>, prev: seq<int>, n: nat) {
    n <= |o| == |prev| && forall i :: 0 <= i < n ==> IsLast(o, i, o[i], prev[i])
  }

  lemma {:induction false} SkipMembers(o: seq<nat>, b: nat, r: nat, n: nat)
    requires r <= n <= |o| && forall i :: r <= i < n ==> o[i] != b
    ensures Members(o, b, n) == Members(o, b, r)
  {
    if r < n {
      SkipMembers(o, b, r, n - 1);
    }
  }

  lemma {:induction false} ChainIsMembers(o: seq<nat>, prev: seq<int>, b: nat, n: nat, r: int)
    requires Threaded(o, prev, |o|) && n <= |o| && IsLast(o, n, b, r)
    ensures Backward(prev) && Chain(prev, r) == Members(o, b, n)
    decreases if r == NONE then 0 else r + 1
  {
    ThreadsBack(o, prev);
    if r == NONE {
      SkipMembers(o, b, 0, n);
    } else {
      assert IsLast(o, r, o[r], prev[r]);
      ChainIsMembers(o, prev, b, r, prev[r]);
      SkipMembers(o, b, r + 1, n);
    }
  }

  lemma ThreadsBack(o: seq<nat>, prev: seq<int>)
    requires Threaded(o, prev, |o|)
    ensures Backward(prev)
  {
    forall i | 0 <= i < |prev| ensures prev[i] == NONE || 0 <= prev[i] < i {
      assert IsLast(o, i, o[i], prev[i]);
    }
  }

  lemma {:induction false} MembersExactly(o: seq<nat>, b: nat, n: nat, i: int)
    requires n <= |o|
    ensures i in Members(o, b, n) <==> 0 <= i < n && o[i] == b
  {
    if n > 0 {
      MembersExactly(o, b, n - 1, i);
    }
  }

  function Buckets(entries: seq<Entry>, count: nat): (o: seq<nat>)
    requires count > 0
    ensures |o| == |entries| && forall i :: 0 <= i < |entries| ==> o[i] == BucketOf(entries[i], count) < count
  {
    seq(|entries|, i requires 0 <= i < |entries| => BucketOf(entries[i], count))
  }

  function Prevs(entries: seq<Entry>): (p: seq<int>)
    ensures |p| == |entries| && forall i :: 0 <= i < |entries| ==> p[i] == entries[i].prev
  {
    seq(|entries|, i requires 0 <= i < |entries| => entries[i].prev)
  }

  /** Each bucket leads to its last entry, and each entry to the one before it in its bucket. */
  ghost predicate Indexed(entries: seq<Entry>, heads: seq<int>) {
    && heads != [] && Threaded(Buckets(entries, |heads|), Prevs(entries), |entries|)
    && forall b :: 0 <= b < |heads| ==> IsLast(Buckets(entries, |heads|), |entries|, b, heads[b])
  }

  /** Looking an entry up: the chain of its bucket meets it, and meets exactly the entries of that bucket. */
  lemma LookupFinds(entries: seq<Entry>, heads: seq<int>, i: nat)
    requires Indexed(entries, heads) && i < |entries|
    ensures
      var b := BucketOf(entries[i], |heads|);
      && Backward(Prevs(entries)) && (heads[b] == NONE || 0 <= heads[b] < |entries|)
      && i in Chain(Prevs(entries), heads[b])
      && forall j :: j in Chain(Prevs(entries), heads[b]) <==>
        0 <= j < |entries| && BucketOf(entries[j], |heads|) == b
  {
    var o, b := Buckets(entries, |heads|), BucketOf(entries[i], |heads|);
    assert IsLast(o, |entries|, b, heads[b]);
    ChainIsMembers(o, Prevs(entries), b, |entries|, heads[b]);
    forall j ensures j in Members(o, b, |entries|) <==> 0 <= j < |entries| && o[j] == b {
      MembersExactly(o, b, |entries|, j);
    }
  }

  class HashTable {
    var entries: seq<Entry>
    var heads: seq<int>

    /** What the loop has done for the first `n` entries. */
    ghost predicate Done(n: nat, o: seq<nat>)
      reads this
    {
      && heads != [] && n <= |entries| == |o| && (forall i :: 0 <= i < |o| ==> o[i] < |heads|)
      && Threaded(o, Prevs(entries), n) && (forall i :: n <= i < |entries| ==> entries[i].prev == NONE)
      && forall b :: 0 <= b < |heads| ==> IsLast(o, n, b, heads[b])
    }

    /** createHash, for one of its two lists of entries. */
    method CreateHash()
      requires forall i :: 0 <= i < |entries| ==> entries[i].prev == NONE
      modifies this
      ensures Indexed(entries, heads) && |entries| == |old(entries)|
      ensures forall i :: 0 <= i < |entries| ==>
        && entries[i].name == old(entries)[i].name && entries[i].parentOffset == old(entries)[i].parentOffset
        && entries[i].bucket == BucketOf(entries[i], |heads|)
    {
      var count := ComputeBucketCount(|entries|);
      heads := seq(count, _ => NONE);
      ghost var start, o := entries, Buckets(entries, count);
      for i := 0 to |entries|
        invariant |entries| == |start| && |heads| == count && Done(i, o)
        invariant forall j :: 0 <= j < |entries| ==>
          && entries[j].name == start[j].name && entries[j].parentOffset == start[j].parentOffset
          && (j < i ==> entries[j].bucket == o[j])
      {
        AddEntry(i, o);
      }
      assert Buckets(entries, count) == o;
    }

    method AddEntry(i: nat, ghost o: seq<nat>)
      requires i < |entries| && Done(i, o) && o[i] == BucketOf(entries[i], |heads|)
      modifies this
      ensures Done(i + 1, o) && |heads| == |old(heads)| && |entries| == |old(entries)|
      ensures entries[i] == old(entries)[i].(prev := entries[i].prev, bucket := o[i])
      ensures forall j :: 0 <= j < |entries| && j != i ==> entries[j] == old(entries)[j]
    {
      var b := BucketOf(entries[i], |heads|);
      var e := entries[i].(bucket := b);
      if heads[b] != NONE {
        e := e.(prev := heads[b]);
      }
      entries := entries[i := e];
      heads := heads[b := i];
    }
  }
}
