/** The framing shared by the LZ77 family: items are emitted in groups of eight, each group led by a
    flag byte that holds one bit per item, the first item in the most significant bit. */
module FlagGroups {
  import opened Bytes

  datatype Item = Item(bit: bool, bytes: seq<byte>)

  function Mask(i: nat): (m: nat)
    requires i < 8
    ensures 1 <= m <= 128
  {
    if i == 0 then 128 else if i == 1 then 64 else if i == 2 then 32 else if i == 3 then 16
    else if i == 4 then 8 else if i == 5 then 4 else if i == 6 then 2 else 1
  }

  lemma MaskIsShift(i: nat)
    requires i < 8
    ensures Mask(i) == Shl(1, 7 - i)
  {
    assert Shl(1, 1) == 2 && Shl(1, 2) == 4 && Shl(1, 3) == 8 && Shl(1, 4) == 16;
    assert Shl(1, 5) == 32 && Shl(1, 6) == 64 && Shl(1, 7) == 128;
  }

  /** The decoder's test of bit `i`, counted from the most significant. */
  predicate BitSet(flag: byte, i: nat)
    requires i < 8
  {
    Shr(flag, 7 - i) % 2 == 1
  }

  function BitsOf(g: seq<Item>): (b: seq<bool>)
    ensures |b| == |g|
  {
    seq(|g|, i requires 0 <= i < |g| => g[i].bit)
  }

  /** The flag byte of a group of which the items `g` have been emitted so far. */
  function FlagOf(g: seq<Item>): (r: nat)
    requires |g| <= 8
    ensures r < 256
  {
    FlagBelow(g);
    Shl(Bits(BitsOf(g)), 8 - |g|)
  }

  lemma FlagBelow(g: seq<Item>)
    requires |g| <= 8
    ensures Shl(Bits(BitsOf(g)), 8 - |g|) < 256
  {
    var x := Bits(BitsOf(g));
    BitsBound(BitsOf(g));
    ShlBelow(x, |g|, 8 - |g|);
    MaskIsShift(0);
    assert Shl(1, 8) == 2 * Shl(1, 7);
  }

  /** Emitting an item adds its bit to the flag byte already in the buffer. */
  lemma FlagSnoc(g: seq<Item>, t: Item)
    requires |g| < 8
    ensures FlagOf(g + [t]) == FlagOf(g) + (if t.bit then Mask(|g|) else 0)
  {
    var b, k := BitsOf(g), 7 - |g|;
    assert BitsOf(g + [t]) == b + [t.bit];
    assert (b + [t.bit])[..|b|] == b;
    ShlAdd(2 * Bits(b), if t.bit then 1 else 0, k);
    ShlDouble(Bits(b), k);
    MaskIsShift(|g|);
    ShlZero(k);
  }

  lemma {:induction false} ShlZero(k: nat)
    ensures Shl(0, k) == 0
  {
    if k > 0 {
      ShlZero(k - 1);
    }
  }

  /** The decoder sees every item's bit in its group's flag byte. */
  lemma FlagBits(g: seq<Item>, i: nat)
    requires i < |g| <= 8
    ensures BitSet(FlagOf(g), i) == g[i].bit
  {
    var b := BitsOf(g);
    ShrShl(Bits(b), 8 - |g|, 7 - i);
    BitOfBits(b, i);
  }

  function Payloads(g: seq<Item>): seq<byte> {
    if g == [] then [] else Payloads(g[..|g| - 1]) + g[|g| - 1].bytes
  }

  function Group(g: seq<Item>): seq<byte>
    requires |g| <= 8
  {
    [FlagOf(g)] + Payloads(g)
  }

  function Encode(items: seq<Item>): seq<byte>
    decreases |items|
  {
    if |items| == 0 then []
    else if |items| <= 8 then Group(items)
    else Group(items[..8]) + Encode(items[8..])
  }

  /** Where item `k`'s bytes start (at the flag byte when it opens a group). */
  function Pos(items: seq<Item>, k: nat): nat
    requires k <= |items|
  {
    |Encode(items[..k])|
  }

  function FlagSize(k: nat): nat { if k % 8 == 0 then 1 else 0 }

  /** The flag byte of the group that holds item `k`. */
  function GroupFlag(items: seq<Item>, k: nat): (r: nat)
    requires k < |items|
    ensures r < 256
  {
    var lo := k / 8 * 8;
    FlagOf(items[lo..if lo + 8 <= |items| then lo + 8 else |items|])
  }

  lemma {:induction false} PayloadsPrefix(g: seq<Item>, k: nat)
    requires k <= |g|
    ensures Payloads(g[..k]) <= Payloads(g)
  {
    if k < |g| {
      PayloadsPrefix(g[..|g| - 1], k);
      assert g[..|g| - 1][..k] == g[..k];
    } else {
      assert g[..k] == g;
    }
  }

  /** `e` holds, from `p0` to `p1`, the flag byte (when the item opens a group) and the item's bytes. */
  ghost predicate ItemAt(e: seq<byte>, p0: nat, p1: nat, opens: bool, flag: byte, bytes: seq<byte>) {
    var a := p0 + if opens then 1 else 0;
    && p1 == a + |bytes| <= |e|
    && e[a..p1] == bytes
    && (opens ==> e[p0] == flag)
  }

  /** `e` is laid out at item `k` as the decoder expects. */
  ghost predicate LaidOut(items: seq<Item>, k: nat, e: seq<byte>)
    requires k < |items|
  {
    ItemAt(e, Pos(items, k), Pos(items, k + 1), k % 8 == 0, GroupFlag(items, k), items[k].bytes)
  }

  lemma ItemAtShift(head: seq<byte>, e: seq<byte>, p0: nat, p1: nat, opens: bool, flag: byte, bytes: seq<byte>)
    requires ItemAt(e, p0, p1, opens, flag, bytes)
    ensures ItemAt(head + e, |head| + p0, |head| + p1, opens, flag, bytes)
  {
    var a := p0 + if opens then 1 else 0;
    assert (head + e)[|head| + a..|head| + p1] == e[a..p1];
  }

  lemma ItemAtExtend(e: seq<byte>, tail: seq<byte>, p0: nat, p1: nat, opens: bool, flag: byte, bytes: seq<byte>)
    requires ItemAt(e, p0, p1, opens, flag, bytes)
    ensures ItemAt(e + tail, p0, p1, opens, flag, bytes)
  {
    var a := p0 + if opens then 1 else 0;
    assert (e + tail)[a..p1] == e[a..p1];
  }

  /** Item `k` of a single group. */
  lemma GroupItemAt(g: seq<Item>, k: nat)
    requires k < |g| <= 8
    ensures ItemAt(Group(g), |Encode(g[..k])|, |Encode(g[..k + 1])|, k == 0, FlagOf(g), g[k].bytes)
  {
    var h := g[..k + 1];
    assert h[..k] == g[..k];
    PayloadsPrefix(g, k + 1);
    assert Payloads(h) == Payloads(g[..k]) + g[k].bytes;
    var x, y := |Payloads(g[..k])|, |Payloads(h)|;
    assert Payloads(g)[x..y] == Payloads(h)[x..y] == g[k].bytes;
    assert Group(g)[1 + x..1 + y] == Payloads(g)[x..y];
  }

  lemma FirstGroupFlag(items: seq<Item>, k: nat)
    requires k < |items| && k < 8
    ensures GroupFlag(items, k) == FlagOf(if |items| <= 8 then items else items[..8])
  {
    assert k / 8 * 8 == 0;
    assert |items| <= 8 ==> items[0..|items|] == items;
    assert |items| > 8 ==> items[0..8] == items[..8];
  }

  lemma SmallMod(k: nat)
    requires k < 8
    ensures k % 8 == k && k / 8 == 0
  {
  }

  lemma EncodeFirst(items: seq<Item>, k: nat)
    requires k < |items| && k < 8
    ensures LaidOut(items, k, Encode(items))
  {
    FirstGroupFlag(items, k);
    SmallMod(k);
    if |items| <= 8 {
      GroupItemAt(items, k);
    } else {
      var g, rest := items[..8], items[8..];
      assert g[..k] == items[..k] && g[..k + 1] == items[..k + 1] && g[k] == items[k];
      GroupItemAt(g, k);
      ItemAtExtend(Group(g), Encode(rest), |Encode(g[..k])|, |Encode(g[..k + 1])|, k == 0, FlagOf(g), g[k].bytes);
    }
  }

  lemma TakeSplit(items: seq<Item>, k: nat)
    requires 8 <= k <= |items|
    ensures Encode(items[..k]) == Group(items[..8]) + Encode(items[8..][..k - 8])
  {
    assert items[..k][..8] == items[..8];
    assert items[..k][8..] == items[8..][..k - 8];
    if k == 8 {
      assert items[8..][..0] == [];
    }
  }

  lemma GroupFlagShift(items: seq<Item>, k: nat)
    requires 8 <= k < |items|
    ensures GroupFlag(items, k) == GroupFlag(items[8..], k - 8)
  {
    var lo, rest := k / 8 * 8, items[8..];
    assert (k - 8) / 8 * 8 == lo - 8;
    var hi := if lo + 8 <= |items| then lo + 8 else |items|;
    PartOfPart(items, 8, |items| - 8, lo - 8, hi - lo);
    assert rest == items[8..8 + (|items| - 8)];
  }

  lemma {:induction false} EncodeLaidOut(items: seq<Item>, k: nat)
    requires k < |items|
    ensures LaidOut(items, k, Encode(items))
    decreases |items|
  {
    if k < 8 {
      EncodeFirst(items, k);
    } else {
      var rest := items[8..];
      EncodeLaidOut(rest, k - 8);
      TakeSplit(items, k);
      TakeSplit(items, k + 1);
      GroupFlagShift(items, k);
      SameSlot(k);
      LaidOutLater(items, rest, k, k - 8, Group(items[..8]), Encode(rest));
    }
  }

  lemma SameSlot(k: nat)
    requires k >= 8
    ensures (k - 8) % 8 == k % 8
  {
  }

  /** What is laid out for a suffix of the items is laid out behind the groups before it. */
  lemma LaidOutLater(items: seq<Item>, rest: seq<Item>, k: nat, j: nat, head: seq<byte>, e: seq<byte>)
    requires k < |items| && j < |rest| && rest[j] == items[k] && j % 8 == k % 8 && LaidOut(rest, j, e)
    requires Pos(items, k) == |head| + Pos(rest, j) && Pos(items, k + 1) == |head| + Pos(rest, j + 1)
    requires GroupFlag(items, k) == GroupFlag(rest, j)
    ensures LaidOut(items, k, head + e)
  {
    ItemAtShift(head, e, Pos(rest, j), Pos(rest, j + 1), j % 8 == 0, GroupFlag(rest, j), rest[j].bytes);
  }

  /** The group flag holds the item's bit. */
  lemma GroupFlagBit(items: seq<Item>, k: nat)
    requires k < |items|
    ensures BitSet(GroupFlag(items, k), k % 8) == items[k].bit
  {
    var lo := k / 8 * 8;
    FlagBits(items[lo..if lo + 8 <= |items| then lo + 8 else |items|], k % 8);
  }

  /** What the encoder has written: the complete groups, then the open one. */
  lemma {:induction false} EncodeAppendGroup(full: seq<Item>, g: seq<Item>)
    requires |full| % 8 == 0 && 0 < |g| <= 8
    ensures Encode(full + g) == Encode(full) + Group(g)
    decreases |full|
  {
    if full == [] {
      assert full + g == g;
    } else {
      EncodeAppendGroup(full[8..], g);
      assert (full + g)[..8] == full[..8];
      assert (full + g)[8..] == full[8..] + g;
      EncodeHead(full);
    }
  }

  lemma EncodeHead(items: seq<Item>)
    requires |items| >= 8
    ensures Encode(items) == Group(items[..8]) + Encode(items[8..])
  {
    if |items| == 8 {
      assert items[..8] == items;
    }
  }

  lemma GroupSnoc(g: seq<Item>, t: Item)
    requires |g| < 8
    ensures Group(g + [t]) == [FlagOf(g + [t])] + Payloads(g) + t.bytes
  {
    assert (g + [t])[..|g|] == g;
  }

  /** Encoded length grows item by item. */
  lemma {:induction false} PosMonotone(items: seq<Item>, j: nat, k: nat)
    requires j <= k <= |items|
    ensures Pos(items, j) <= Pos(items, k) <= |Encode(items)|
    decreases k - j
  {
    if k < |items| {
      EncodeLaidOut(items, k);
    } else {
      assert items[..k] == items;
    }
    if j < k {
      EncodeLaidOut(items, j);
      PosMonotone(items, j + 1, k);
    }
  }
}
