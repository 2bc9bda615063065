/** The streaming hash tree of a RomFS image (src/romfs.cpp, writeBuffer, alignBuffer, createHeader,
    initLevelBuffer, updateLevelBuffer): full blocks are flushed and their hashes fed to the level below,
    and the image ends up as the batch definition says. */
module RomFsHash {
  import opened Bytes

  const BLOCK: nat := 0x1000
  const DIGEST: nat := 32

  /** SHA-256, of which only the length of the result matters. */
  type Sha = f: seq<byte> -> seq<byte> | forall x :: |f(x)| == DIGEST witness x => Zeros(DIGEST)

  /** The hashes of the blocks of `s`, one after the other. */
  function Hashes(sha: Sha, s: seq<byte>): (h: seq<byte>)
    decreases |s|
  {
    if |s| < BLOCK then [] else Hashes(sha, s[..|s| - BLOCK]) + sha(s[|s| - BLOCK..])
  }

  lemma HashesSnoc(sha: Sha, s: seq<byte>, block: seq<byte>)
    requires |block| == BLOCK
    ensures Hashes(sha, s + block) == Hashes(sha, s) + sha(block)
  {
    assert (s + block)[..|s|] == s && (s + block)[|s|..] == block;
  }

  lemma {:induction false} HashesLength(sha: Sha, s: seq<byte>, n: nat)
    requires |s| == n * BLOCK
    ensures |Hashes(sha, s)| == n * DIGEST
  {
    if n > 0 {
      HashesLength(sha, s[..|s| - BLOCK], n - 1);
    }
  }

  // ----- The batch definition -----

  /** The four levels of an image, each padded to whole blocks. */
  datatype Levels = Levels(zero: seq<byte>, one: seq<byte>, two: seq<byte>, three: seq<byte>)

  function Batch(sha: Sha, header: seq<byte>, content: seq<byte>): Levels {
    var three := PadTo(content, BLOCK);
    var two := PadTo(Hashes(sha, three), BLOCK);
    var one := PadTo(Hashes(sha, two), BLOCK);
    Levels(PadTo(PadTo(header, DIGEST) + Hashes(sha, one), BLOCK), one, two, three)
  }

  /** Level 0 comes first, then the content, then the two hash levels between. */
  function Image(l: Levels): seq<byte> { l.zero + l.three + l.one + l.two }

  // ----- The level buffers -----

  /** A buffer of one block, how much of it is in use, and where it will be written. */
  datatype Level = Level(data: seq<byte>, dataPos: nat, filePos: nat)

  /** What a level has been fed so far: whole blocks, which have been written, and the rest. */
  datatype Track = Track(flushed: seq<byte>, tail: seq<byte>, count: nat)

  function Fed(t: Track): seq<byte> { t.flushed + t.tail }

  /** The part of the image that belongs to a level, in bytes and in blocks. */
  datatype Region = Region(base: nat, blocks: nat)

  function Size(r: Region): nat { r.blocks * BLOCK }

  /** A level's buffer holds its open block; its region holds the whole blocks and is empty behind them. */
  ghost predicate LevelOk(l: Level, image: seq<byte>, r: Region, t: Track) {
    && |t.flushed| == t.count * BLOCK <= Size(r) && |t.tail| == l.dataPos < BLOCK
    && (t.tail != [] ==> t.count < r.blocks) && t.count <= r.blocks
    && l.data == t.tail + Zeros(BLOCK - |t.tail|)
    && l.filePos == r.base + |t.flushed| && r.base + Size(r) <= |image|
    && image[r.base..r.base + Size(r)] == t.flushed + Zeros(Size(r) - |t.flushed|)
  }

  /** The whole blocks of a level are in its region. */
  lemma FlushedFits(l: Level, image: seq<byte>, r: Region, t: Track)
    requires LevelOk(l, image, r, t)
    ensures |t.flushed| <= Size(r) && image[r.base..r.base + |t.flushed|] == t.flushed
  {
    var region := image[r.base..r.base + Size(r)];
    assert region[..|t.flushed|] == t.flushed;
    assert region[..|t.flushed|] == image[r.base..r.base + |t.flushed|];
  }

  lemma BlocksFit(count: nat, blocks: nat)
    requires count < blocks
    ensures count * BLOCK + BLOCK <= blocks * BLOCK && (count + 1) * BLOCK == count * BLOCK + BLOCK
  {
  }

  lemma TailGrows(l: Level, image: seq<byte>, r: Region, t: Track, bytes: seq<byte>, m: Level)
    requires LevelOk(l, image, r, t) && |t.tail| + |bytes| < BLOCK && (bytes != [] ==> t.count < r.blocks)
    requires m ==
      l.(data := l.data[..l.dataPos] + bytes + l.data[l.dataPos + |bytes|..], dataPos := l.dataPos + |bytes|)
    ensures LevelOk(m, image, r, t.(tail := t.tail + bytes))
  {
    assert l.data[..l.dataPos] == t.tail;
  }

  /** Storing one block in its place. */
  function Stored(image: seq<byte>, at: nat, block: seq<byte>): (r: seq<byte>)
    requires at + |block| <= |image|
    ensures |r| == |image|
  {
    image[..at] + block + image[at + |block|..]
  }

  lemma BlockFlushed(l: Level, image: seq<byte>, r: Region, t: Track, bytes: seq<byte>, block: seq<byte>)
    requires LevelOk(l, image, r, t) && |t.tail| + |bytes| == BLOCK && t.count < r.blocks
    requires block == t.tail + bytes
    ensures l.filePos + BLOCK <= |image|
    ensures LevelOk(Level(Zeros(BLOCK), 0, l.filePos + BLOCK), Stored(image, l.filePos, block), r,
                    Track(t.flushed + block, [], t.count + 1))
  {
    BlocksFit(t.count, r.blocks);
    var after := Stored(image, l.filePos, block);
    StoredRegion(image, r.base, Size(r), t.flushed, block);
  }

  /** A block that is stored behind what a region holds. */
  lemma StoredRegion(image: seq<byte>, base: nat, size: nat, held: seq<byte>, block: seq<byte>)
    requires base + size <= |image| && |held| + |block| <= size
    requires image[base..base + size] == held + Zeros(size - |held|)
    ensures
      Stored(image, base + |held|, block)[base..base + size] == held + block + Zeros(size - |held + block|)
  {
    var region, after := image[base..base + size], Stored(image, base + |held|, block)[base..base + size];
    assert region[..|held|] == held && region[|held| + |block|..] == Zeros(size - |held| - |block|);
    assert after == region[..|held|] + block + region[|held| + |block|..];
  }

  /** Two regions that do not overlap. */
  predicate Clear(r: Region, q: Region) { r.base + Size(r) <= q.base || q.base + Size(q) <= r.base }

  lemma OtherLevel(l: Level, image: seq<byte>, r: Region, t: Track, q: Region, at: nat, block: seq<byte>)
    requires LevelOk(l, image, r, t) && Clear(r, q) && q.base <= at && at + |block| <= q.base + Size(q) <= |image|
    ensures LevelOk(l, Stored(image, at, block), r, t)
  {
    var after := Stored(image, at, block);
    assert after[r.base..r.base + Size(r)] == image[r.base..r.base + Size(r)];
  }

  /** The bytes that a write adds: its source, or zeros where the buffer is only advanced. */
  function Payload(src: Option<seq<byte>>, size: nat): (b: seq<byte>)
    requires src.Some? ==> |src.value| == size
    ensures |b| == size
  {
    if src.Some? then src.value else Zeros(size)
  }

  /** Below the content, a level holds what it was given first and then the hashes of the level above. */
  predicate LinkOk(sha: Sha, lead: seq<byte>, below: Track, t: Track) {
    Fed(below) == lead + Hashes(sha, t.flushed)
  }

  /** There is room below for the hash of every block above. */
  predicate RoomBelow(lead: seq<byte>, below: Region, r: Region) {
    |lead| + r.blocks * DIGEST <= Size(below)
  }

  lemma RoomForHash(sha: Sha, lead: seq<byte>, below: Region, r: Region, b: Track, t: Track)
    requires LinkOk(sha, lead, b, t) && RoomBelow(lead, below, r) && |t.flushed| == t.count * BLOCK
    requires t.count < r.blocks
    ensures |Fed(b)| + DIGEST <= Size(below)
  {
    HashesLength(sha, t.flushed, t.count);
    DigestsFit(t.count, r.blocks);
  }

  lemma DigestsFit(count: nat, blocks: nat)
    requires count < blocks
    ensures count * DIGEST + DIGEST <= blocks * DIGEST
  {
  }

  /** A hash never straddles two blocks: a level fed with hashes only, behind a lead of whole digests, always
      has room for one more in its open block. */
  lemma HashesDoNotStraddle(
    sha: Sha, lead: seq<byte>, n: nat, l: Level, image: seq<byte>, r: Region, b: Track, t: Track)
    requires LevelOk(l, image, r, b) && LinkOk(sha, lead, b, t) && |lead| == n * DIGEST
    requires |t.flushed| == t.count * BLOCK
    ensures l.dataPos % DIGEST == 0 && l.dataPos + DIGEST <= BLOCK
  {
    HashesLength(sha, t.flushed, t.count);
    assert |Fed(b)| == (n + t.count) * DIGEST;
    assert l.dataPos == (n + t.count - b.count * (BLOCK / DIGEST)) * DIGEST;
    WholeDigests(l.dataPos, n + t.count - b.count * (BLOCK / DIGEST));
  }

  lemma WholeDigests(x: nat, q: int)
    requires x == q * DIGEST && x < BLOCK
    ensures x % DIGEST == 0 && x + DIGEST <= BLOCK
  {
    if q >= 0 {
      MultipleModZero(q, DIGEST);
    }
  }

  /** Everything about a tree under construction: its buffers and its image, and, for the proofs only, the
      regions, what each level has been fed, and what came before the hashes. */
  datatype View = View(
    levels: seq<Level>, image: seq<byte>, regions: seq<Region>, tracks: seq<Track>, leads: seq<seq<byte>>)

  ghost predicate Shaped(v: View) {
    && |v.levels| == |v.regions| == |v.tracks| == |v.leads| == 4
    && (forall i, j :: 0 <= i < j < 4 ==> Clear(v.regions[i], v.regions[j]))
    && (forall i :: 0 <= i < 4 ==> v.regions[i].base + Size(v.regions[i]) <= |v.image|)
    && forall i :: 1 <= i < 4 ==> RoomBelow(v.leads[i - 1], v.regions[i - 1], v.regions[i])
  }

  ghost predicate LevelAt(v: View, i: nat)
    requires Shaped(v) && i < 4
  {
    LevelOk(v.levels[i], v.image, v.regions[i], v.tracks[i])
  }

  ghost predicate LinkAt(sha: Sha, v: View, i: nat)
    requires Shaped(v) && 1 <= i < 4
  {
    LinkOk(sha, v.leads[i - 1], v.tracks[i - 1], v.tracks[i])
  }

  /** Levels up to `k` are in order, and linked to each other. */
  ghost predicate ValidTo(sha: Sha, v: View, k: int)
    requires k < 4
  {
    && Shaped(v) && (forall i :: 0 <= i <= k ==> LevelAt(v, i)) && forall i :: 1 <= i <= k ==> LinkAt(sha, v, i)
  }

  ghost predicate SameAt(v: View, w: View, i: nat)
    requires Shaped(v) && Shaped(w) && i < 4
  {
    var r := v.regions[i];
    && w.levels[i] == v.levels[i] && w.tracks[i] == v.tracks[i] && w.regions[i] == r
    && w.image[r.base..r.base + Size(r)] == v.image[r.base..r.base + Size(r)]
  }

  /** A write to level `k` leaves the levels above it alone. */
  ghost predicate KeepsAbove(v: View, w: View, k: int) {
    && Shaped(v) && Shaped(w) && w.regions == v.regions && w.leads == v.leads && |w.image| == |v.image|
    && forall i :: k < i < 4 && 0 <= i ==> SameAt(v, w, i)
  }

  lemma SameLevel(v: View, w: View, i: nat)
    requires Shaped(v) && Shaped(w) && i < 4 && SameAt(v, w, i) && LevelAt(v, i)
    ensures LevelAt(w, i)
  {
  }

  lemma KeepsTwice(v: View, w: View, x: View, k: int)
    requires KeepsAbove(v, w, k) && KeepsAbove(w, x, k)
    ensures KeepsAbove(v, x, k)
  {
    forall i | k < i < 4 && 0 <= i ensures SameAt(v, x, i) {
      assert SameAt(v, w, i) && SameAt(w, x, i);
    }
  }

  // ----- One chunk -----

  /** The view after a chunk that does not fill the block of level `k`. */
  function WithHeld(v: View, k: nat, m: Level, bytes: seq<byte>): View
    requires k < |v.levels| == |v.tracks|
  {
    v.(levels := v.levels[k := m], tracks := v.tracks[k := v.tracks[k].(tail := v.tracks[k].tail + bytes)])
  }

  lemma ChunkHeld(sha: Sha, v: View, k: nat, bytes: seq<byte>, m: Level)
    requires k < 4 && ValidTo(sha, v, k)
    requires LevelOk(m, v.image, v.regions[k], v.tracks[k].(tail := v.tracks[k].tail + bytes))
    ensures ValidTo(sha, WithHeld(v, k, m, bytes), k) && KeepsAbove(v, WithHeld(v, k, m, bytes), k)
    ensures Fed(WithHeld(v, k, m, bytes).tracks[k]) == Fed(v.tracks[k]) + bytes
  {
    var w := WithHeld(v, k, m, bytes);
    forall i | 0 <= i <= k ensures LevelAt(w, i) {
      assert LevelAt(v, i);
    }
    forall i | 1 <= i <= k ensures LinkAt(sha, w, i) {
      assert LinkAt(sha, v, i);
    }
    Associate(v.tracks[k].flushed, v.tracks[k].tail, bytes);
  }

  /** The view after the full block of level `k` has been written. */
  function WithFlushed(u: View, k: nat, block: seq<byte>): View
    requires k < |u.levels| == |u.tracks| && u.levels[k].filePos + |block| <= |u.image|
  {
    var at, t := u.levels[k].filePos, u.tracks[k];
    u.(levels := u.levels[k := Level(Zeros(BLOCK), 0, at + BLOCK)],
       tracks := u.tracks[k := Track(t.flushed + block, [], t.count + 1)],
       image := Stored(u.image, at, block))
  }

  /** The open block of level `k` is due: it has the bytes it lacked, and its place in the image. */
  ghost predicate Due(u: View, k: nat, block: seq<byte>) {
    && Shaped(u) && k < 4 && LevelAt(u, k) && u.tracks[k].count < u.regions[k].blocks
    && |block| == BLOCK && u.tracks[k].tail <= block
    && u.regions[k].base <= u.levels[k].filePos
    && u.levels[k].filePos + BLOCK <= u.regions[k].base + Size(u.regions[k])
  }

  lemma FlushedShape(u: View, k: nat, block: seq<byte>)
    requires Due(u, k, block)
    ensures Shaped(WithFlushed(u, k, block))
  {
  }

  lemma FlushedOwn(u: View, k: nat, block: seq<byte>)
    requires Due(u, k, block) && Shaped(WithFlushed(u, k, block))
    ensures LevelAt(WithFlushed(u, k, block), k)
  {
    var l, r, t := u.levels[k], u.regions[k], u.tracks[k];
    BlockFlushed(l, u.image, r, t, block[|t.tail|..], block);
  }

  lemma FlushedOther(u: View, k: nat, block: seq<byte>, i: nat)
    requires Due(u, k, block) && Shaped(WithFlushed(u, k, block)) && i < k && LevelAt(u, i)
    ensures LevelAt(WithFlushed(u, k, block), i)
  {
    assert Clear(u.regions[i], u.regions[k]);
    OtherLevel(u.levels[i], u.image, u.regions[i], u.tracks[i], u.regions[k], u.levels[k].filePos, block);
  }

  lemma FlushedLevels(sha: Sha, u: View, k: nat, block: seq<byte>)
    requires Due(u, k, block) && ValidTo(sha, u, k - 1) && Shaped(WithFlushed(u, k, block))
    ensures forall i :: 0 <= i <= k ==> LevelAt(WithFlushed(u, k, block), i)
  {
    FlushedOwn(u, k, block);
    forall i | 0 <= i < k ensures LevelAt(WithFlushed(u, k, block), i) {
      FlushedOther(u, k, block, i);
    }
  }

  lemma RoomToHash(sha: Sha, v: View, k: nat)
    requires 0 < k < 4 && ValidTo(sha, v, k) && v.tracks[k].count < v.regions[k].blocks
    ensures ValidTo(sha, v, k - 1) && |Fed(v.tracks[k - 1])| + DIGEST <= Size(v.regions[k - 1])
  {
    assert LinkAt(sha, v, k) && LevelAt(v, k) && RoomBelow(v.leads[k - 1], v.regions[k - 1], v.regions[k]);
    RoomForHash(sha, v.leads[k - 1], v.regions[k - 1], v.regions[k], v.tracks[k - 1], v.tracks[k]);
  }

  /** The hash of the block has been fed to the level below. */
  ghost predicate Hashed(sha: Sha, v: View, u: View, k: nat, block: seq<byte>) {
    && k < 4 && ValidTo(sha, v, k) && ValidTo(sha, u, k - 1) && KeepsAbove(v, u, k - 1)
    && (k > 0 ==> Fed(u.tracks[k - 1]) == Fed(v.tracks[k - 1]) + sha(block))
  }

  lemma NothingToHash(sha: Sha, v: View, block: seq<byte>)
    requires ValidTo(sha, v, 0)
    ensures Hashed(sha, v, v, 0, block)
  {
    assert KeepsAbove(v, v, -1);
  }

  lemma HashFed(sha: Sha, v: View, u: View, k: nat, block: seq<byte>)
    requires 0 < k < 4 && ValidTo(sha, v, k) && ValidTo(sha, u, k - 1) && KeepsAbove(v, u, k - 1)
    requires Fed(u.tracks[k - 1]) == Fed(v.tracks[k - 1]) + Payload(Some(sha(block)), DIGEST)
    ensures Hashed(sha, v, u, k, block)
  {
  }

  lemma FlushedLinks(sha: Sha, v: View, u: View, k: nat, block: seq<byte>)
    requires Hashed(sha, v, u, k, block) && Due(u, k, block) && Shaped(WithFlushed(u, k, block))
    ensures forall i :: 1 <= i <= k ==> LinkAt(sha, WithFlushed(u, k, block), i)
  {
    var w := WithFlushed(u, k, block);
    assert SameAt(v, u, k);
    forall i | 1 <= i <= k ensures LinkAt(sha, w, i) {
      if i < k {
        assert LinkAt(sha, u, i);
      } else {
        assert LinkAt(sha, v, k);
        HashesSnoc(sha, v.tracks[k].flushed, block);
        Associate(v.leads[k - 1], Hashes(sha, v.tracks[k].flushed), sha(block));
      }
    }
  }

  lemma FlushedKeeps(v: View, u: View, k: nat, block: seq<byte>)
    requires Due(u, k, block) && KeepsAbove(v, u, k - 1) && Shaped(WithFlushed(u, k, block))
    ensures KeepsAbove(v, WithFlushed(u, k, block), k)
  {
    var w := WithFlushed(u, k, block);
    forall i | k < i < 4 ensures SameAt(v, w, i) {
      assert SameAt(v, u, i) && Clear(u.regions[k], u.regions[i]);
      var r := u.regions[i];
      assert w.image[r.base..r.base + Size(r)] == u.image[r.base..r.base + Size(r)];
    }
  }

  lemma DueAfterHash(sha: Sha, v: View, u: View, k: nat, block: seq<byte>)
    requires Hashed(sha, v, u, k, block) && |block| == BLOCK && v.tracks[k].tail <= block
    requires v.tracks[k].count < v.regions[k].blocks
    ensures Due(u, k, block) && u.tracks[k] == v.tracks[k] && u.levels[k] == v.levels[k]
  {
    assert LevelAt(v, k) && SameAt(v, u, k);
    SameLevel(v, u, k);
    BlocksFit(v.tracks[k].count, v.regions[k].blocks);
  }

  lemma FlushedView(sha: Sha, v: View, u: View, k: nat, block: seq<byte>)
    requires Hashed(sha, v, u, k, block) && |block| == BLOCK && v.tracks[k].tail <= block
    requires v.tracks[k].count < v.regions[k].blocks
    ensures u.levels[k] == v.levels[k] && u.levels[k].filePos + BLOCK <= |u.image|
    ensures ValidTo(sha, WithFlushed(u, k, block), k) && KeepsAbove(v, WithFlushed(u, k, block), k)
    ensures Fed(WithFlushed(u, k, block).tracks[k]) == v.tracks[k].flushed + block
  {
    DueAfterHash(sha, v, u, k, block);
    FlushedShape(u, k, block);
    FlushedLevels(sha, u, k, block);
    FlushedLinks(sha, v, u, k, block);
    FlushedKeeps(v, u, k, block);
  }

  /** A level that can still take bytes has a block left. */
  lemma RoomHere(l: Level, image: seq<byte>, r: Region, t: Track, n: nat)
    requires LevelOk(l, image, r, t) && |Fed(t)| + n <= Size(r)
    ensures n > 0 ==> t.count < r.blocks
  {
  }

  /** The buffer with `bytes` behind what it holds. */
  function Overlaid(l: Level, bytes: seq<byte>): seq<byte>
    requires l.dataPos + |bytes| <= |l.data|
  {
    l.data[..l.dataPos] + bytes + l.data[l.dataPos + |bytes|..]
  }

  lemma OverlaidData(l: Level, image: seq<byte>, r: Region, t: Track, bytes: seq<byte>)
    requires LevelOk(l, image, r, t) && l.dataPos + |bytes| <= BLOCK
    ensures Overlaid(l, bytes) == t.tail + bytes + Zeros(BLOCK - |t.tail| - |bytes|)
    ensures bytes == Zeros(|bytes|) ==> Overlaid(l, bytes) == l.data
    ensures |t.tail| + |bytes| == BLOCK ==> Overlaid(l, bytes) == t.tail + bytes
  {
    assert l.data[..l.dataPos] == t.tail;
  }

  /** What a chunk makes of the buffer: more data behind what it holds, or a whole block. */
  lemma BufferTakes(l: Level, image: seq<byte>, r: Region, t: Track, src: Option<seq<byte>>, n: nat, m: Level)
    requires LevelOk(l, image, r, t) && (src.Some? ==> |src.value| == n) && l.dataPos + n <= BLOCK
    requires n > 0 ==> t.count < r.blocks
    requires m == if n == 0 then l
      else l.(data := if src.Some? then Overlaid(l, src.value) else l.data, dataPos := l.dataPos + n)
    ensures m.dataPos < BLOCK ==> LevelOk(m, image, r, t.(tail := t.tail + Payload(src, n)))
    ensures m.dataPos == BLOCK ==> m.data == t.tail + Payload(src, n) && |m.data| == BLOCK && t.count < r.blocks
  {
    var bytes := Payload(src, n);
    OverlaidData(l, image, r, t, bytes);
    assert m == l.(data := Overlaid(l, bytes), dataPos := l.dataPos + n);
    if m.dataPos < BLOCK {
      TailGrows(l, image, r, t, bytes, m);
    }
  }

  lemma PayloadPart(src: Option<seq<byte>>, size: nat, done: nat, n: nat, part: Option<seq<byte>>, fed: seq<byte>)
    requires (src.Some? ==> |src.value| == size) && done + n <= size
    requires part == if src.Some? then Some(src.value[done..done + n]) else None
    ensures fed + Payload(src, size)[..done] + Payload(part, n) == fed + Payload(src, size)[..done + n]
  {
    var p := Payload(src, size);
    assert p[..done] + Payload(part, n) == p[..done + n];
    Associate(fed, p[..done], Payload(part, n));
  }

  // ----- The layout of the image -----

  /** The sizes that createHeader computes: 32 bytes for each block of the level above. */
  datatype Sizes = Sizes(zero: nat, one: nat, two: nat, three: nat)

  function BlocksOf(n: nat): nat { Align(n, BLOCK) / BLOCK }

  function LevelSizes(contentSize: nat): Sizes {
    var two := BlocksOf(contentSize) * DIGEST;
    var one := BlocksOf(two) * DIGEST;
    Sizes(BlocksOf(one) * DIGEST, one, two, contentSize)
  }

  /** initLevelBuffer: where each level begins, level 0 first, then 3, 1 and 2. */
  function Layout(headerSize: nat, z: Sizes): (r: seq<Region>)
    ensures |r| == 4
  {
    var offset3 := Align(Align(headerSize, DIGEST) + z.zero, BLOCK);
    var offset1 := offset3 + Align(z.three, BLOCK);
    var offset2 := offset1 + Align(z.one, BLOCK);
    [Region(0, BlocksOf(Align(headerSize, DIGEST) + z.zero)), Region(offset1, BlocksOf(z.one)),
     Region(offset2, BlocksOf(z.two)), Region(offset3, BlocksOf(z.three))]
  }

  lemma BlocksSize(n: nat)
    ensures BlocksOf(n) * BLOCK == Align(n, BLOCK)
  {
    assert Align(n, BLOCK) == (n + BLOCK - 1) / BLOCK * BLOCK;
    DivModUnique(Align(n, BLOCK), (n + BLOCK - 1) / BLOCK, 0, BLOCK);
  }

  /** Every region has the size of its level rounded up to blocks, and they follow each other. */
  lemma LayoutSizes(headerSize: nat, z: Sizes)
    ensures
      var r := Layout(headerSize, z);
      && Size(r[0]) == Align(Align(headerSize, DIGEST) + z.zero, BLOCK) == r[3].base && r[0].base == 0
      && Size(r[3]) == Align(z.three, BLOCK) && r[1].base == r[3].base + Size(r[3])
      && Size(r[1]) == Align(z.one, BLOCK) && r[2].base == r[1].base + Size(r[1])
      && Size(r[2]) == Align(z.two, BLOCK)
  {
    BlocksSize(Align(headerSize, DIGEST) + z.zero);
    BlocksSize(z.one);
    BlocksSize(z.two);
    BlocksSize(z.three);
  }

  /** A tree to which nothing has been fed. */
  function Empty(image: seq<byte>, r: seq<Region>): View
    requires |r| == 4
  {
    View(seq(4, i requires 0 <= i < 4 => Level(Zeros(BLOCK), 0, r[i].base)), image, r,
         seq(4, _ => Track([], [], 0)), seq(4, _ => []))
  }

  /** The regions follow each other without overlap. */
  lemma LayoutClear(headerSize: nat, contentSize: nat, r: seq<Region>)
    requires r == Layout(headerSize, LevelSizes(contentSize))
    ensures forall i, j :: 0 <= i < j < 4 ==> Clear(r[i], r[j])
    ensures forall i :: 0 <= i < 4 ==> r[i].base + Size(r[i]) <= r[2].base + Size(r[2])
  {
    LayoutSizes(headerSize, LevelSizes(contentSize));
  }

  /** Each region has room for the hashes of the level above. */
  lemma LayoutRoom(headerSize: nat, contentSize: nat, r: seq<Region>)
    requires r == Layout(headerSize, LevelSizes(contentSize))
    ensures forall i :: 1 <= i < 4 ==> RoomBelow([], r[i - 1], r[i])
    ensures Align(headerSize, DIGEST) + r[1].blocks * DIGEST <= Size(r[0])
  {
    LayoutSizes(headerSize, LevelSizes(contentSize));
  }

  lemma EmptyValid(sha: Sha, image: seq<byte>, headerSize: nat, contentSize: nat)
    requires
      var r := Layout(headerSize, LevelSizes(contentSize));
      image == Zeros(r[2].base + Size(r[2]))
    ensures
      var v := Empty(image, Layout(headerSize, LevelSizes(contentSize)));
      && ValidTo(sha, v, 3) && HeaderRoom(v, headerSize)
  {
    var z := LevelSizes(contentSize);
    var r := Layout(headerSize, z);
    var v := Empty(image, r);
    LayoutClear(headerSize, contentSize, r);
    LayoutRoom(headerSize, contentSize, r);
    forall i | 0 <= i < 4 ensures LevelAt(v, i) {
      EmptyLevel(image, r[i]);
    }
    assert Hashes(sha, []) == [];
  }

  lemma EmptyLevel(image: seq<byte>, r: Region)
    requires r.base + Size(r) <= |image| && image == Zeros(|image|)
    ensures LevelOk(Level(Zeros(BLOCK), 0, r.base), image, r, Track([], [], 0))
  {
    assert [] + Zeros(BLOCK) == Zeros(BLOCK);
    assert image[r.base..r.base + Size(r)] == [] + Zeros(Size(r));
  }

  /** Level 0 has room for the header and the hashes behind it. */
  predicate HeaderRoom(v: View, headerSize: nat) {
    |v.regions| == 4 && Align(headerSize, DIGEST) + v.regions[1].blocks * DIGEST <= Size(v.regions[0])
  }

  /** A region begins with `s`, and there are only zeros behind. */
  predicate InRegion(image: seq<byte>, r: Region, s: seq<byte>) {
    && |s| <= Size(r) && r.base + Size(r) <= |image|
    && image[r.base..r.base + Size(r)] == s + Zeros(Size(r) - |s|)
  }

  lemma RegionPart(image: seq<byte>, r: Region, s: seq<byte>, at: nat, size: nat)
    requires InRegion(image, r, s) && at + size <= |s|
    ensures image[r.base + at..r.base + at + size] == s[at..at + size]
  {
    PartOfPart(image, r.base, Size(r), at, size);
    PartOfFront(s, Zeros(Size(r) - |s|), at, size);
  }

  lemma RegionRest(image: seq<byte>, r: Region, s: seq<byte>, x: nat)
    requires InRegion(image, r, s) && |s| <= x < Size(r)
    ensures image[r.base + x] == 0
  {
    var region := image[r.base..r.base + Size(r)];
    assert region[x] == 0 && region[x] == image[r.base + x];
  }

  // ----- Padding a level -----

  lemma AlignBehind(q: nat, x: nat, a: nat)
    requires a > 0
    ensures Align(q * a + x, a) == q * a + Align(x, a)
  {
    var n := (x + a - 1) / a;
    var m := (x + a - 1) % a;
    assert (q + n) * a == q * a + n * a;
    DivModUnique(q * a + x + a - 1, q + n, m, a);
  }

  /** Padding to a divisor of the block size stays within the open block. */
  lemma PadsWithin(t: Track, r: Region, l: Level, image: seq<byte>, a: nat, m: nat)
    requires LevelOk(l, image, r, t) && a > 0 && m * a == BLOCK
    ensures Align(|Fed(t)|, a) == |Fed(t)| + Align(l.dataPos, a) - l.dataPos <= Size(r)
    ensures Align(l.dataPos, a) <= BLOCK
  {
    assert t.count * BLOCK == (t.count * m) * a;
    AlignBehind(t.count * m, l.dataPos, a);
    AlignMonotone(l.dataPos, BLOCK, a);
    AlignWhole(m, a);
    if t.tail != [] {
      BlocksFit(t.count, r.blocks);
    } else {
      AlignWhole(0, a);
      CountsFit(t.count, r.blocks);
    }
  }

  lemma AlignWhole(q: nat, a: nat)
    requires a > 0
    ensures Align(q * a, a) == q * a
  {
    AlignBehind(q, 0, a);
    DivModUnique(a - 1, 0, a - 1, a);
  }

  lemma CountsFit(count: nat, blocks: nat)
    requires count <= blocks
    ensures count * BLOCK <= blocks * BLOCK
  {
  }

  /** A padded level has been written in full. */
  lemma PaddedIsFlushed(l: Level, image: seq<byte>, r: Region, t: Track)
    requires LevelOk(l, image, r, t) && |Fed(t)| % BLOCK == 0
    ensures t.flushed == Fed(t) && InRegion(image, r, Fed(t))
  {
    assert |Fed(t)| == t.count * BLOCK + l.dataPos;
    DivModUnique(|Fed(t)|, t.count, l.dataPos, BLOCK);
    assert t.tail == [];
  }

  // ----- What is written -----

  /** What goes into the content: bytes, a stretch that is only skipped, or padding to 16 bytes. */
  datatype Piece = Data(bytes: seq<byte>) | Skip(size: nat) | Padding

  const FILE_ALIGN: nat := 16

  function Extended(s: seq<byte>, p: Piece): (r: seq<byte>)
    ensures s <= r
  {
    match p
    case Data(bytes) => s + bytes
    case Skip(size) => s + Zeros(size)
    case Padding => PadTo(s, FILE_ALIGN)
  }

  function Content(pieces: seq<Piece>): seq<byte> {
    if pieces == [] then [] else Extended(Content(pieces[..|pieces| - 1]), pieces[|pieces| - 1])
  }

  lemma {:induction false} ContentGrows(pieces: seq<Piece>, i: nat)
    requires i <= |pieces|
    ensures Content(pieces[..i]) <= Content(pieces)
  {
    if i < |pieces| {
      ContentGrows(pieces[..|pieces| - 1], i);
      assert pieces[..|pieces| - 1][..i] == pieces[..i];
    } else {
      assert pieces[..i] == pieces;
    }
  }

  /** The header is in place, and nothing else has changed. */
  ghost predicate Started(sha: Sha, v: View, w: View, header: seq<byte>) {
    && ValidTo(sha, w, 3) && |v.leads| == |v.tracks| == 4 && w.regions == v.regions && w.tracks[3] == v.tracks[3]
    && w.leads == v.leads[0 := PadTo(header, DIGEST)] && |w.image| == |v.image|
  }

  lemma HeaderStarts(sha: Sha, v: View, u: View, w: View, header: seq<byte>)
    requires ValidTo(sha, v, 3) && HeaderRoom(v, |header|) && v.tracks[1].flushed == []
    requires KeepsAbove(v, u, 0) && KeepsAbove(u, w, 0) && ValidTo(sha, w, 0)
    requires Fed(w.tracks[0]) == PadTo(header, DIGEST)
    ensures Started(sha, v, w.(leads := w.leads[0 := Fed(w.tracks[0])]), header)
  {
    KeepsTwice(v, u, w, 0);
    HeaderLeads(sha, v, w, |header|);
    assert SameAt(v, w, 3);
  }

  /** The header takes the place of the first bytes of level 0, and the links hold from there on. */
  lemma HeaderLeads(sha: Sha, v: View, w: View, headerSize: nat)
    requires ValidTo(sha, v, 3) && HeaderRoom(v, headerSize) && ValidTo(sha, w, 0) && KeepsAbove(v, w, 0)
    requires v.tracks[1].flushed == [] && |Fed(w.tracks[0])| == Align(headerSize, DIGEST)
    ensures ValidTo(sha, w.(leads := w.leads[0 := Fed(w.tracks[0])]), 3)
  {
    var x := w.(leads := w.leads[0 := Fed(w.tracks[0])]);
    forall i | 0 <= i < 4 ensures LevelAt(x, i) {
      if i > 0 {
        assert LevelAt(v, i) && SameAt(v, w, i);
        SameLevel(v, w, i);
      }
      assert LevelAt(w, i);
    }
    forall i | 1 <= i < 4 ensures LinkAt(sha, x, i) {
      assert LinkAt(sha, v, i) && SameAt(v, w, i);
      if i > 1 {
        assert SameAt(v, w, i - 1);
      }
    }
  }

  /** Closing level `k`: once padded, all it was fed has been written, and the level below holds its hashes. */
  lemma LevelClosed(sha: Sha, v: View, w: View, k: nat, s: seq<byte>)
    requires k < 4 && ValidTo(sha, w, k) && KeepsAbove(v, w, k) && Fed(w.tracks[k]) == s && |s| % BLOCK == 0
    ensures w.tracks[k].flushed == s && InRegion(w.image, w.regions[k], s)
    ensures k > 0 ==> Fed(w.tracks[k - 1]) == w.leads[k - 1] + Hashes(sha, s)
  {
    assert LevelAt(w, k);
    PaddedIsFlushed(w.levels[k], w.image, w.regions[k], w.tracks[k]);
    if k > 0 {
      assert LinkAt(sha, w, k);
    }
  }

  /** What a closed level holds stays in the image while the levels below are closed. */
  lemma StillThere(v: View, w: View, k: nat, j: nat, s: seq<byte>)
    requires KeepsAbove(v, w, k) && k < j < 4 && InRegion(v.image, v.regions[j], s)
    ensures InRegion(w.image, w.regions[j], s)
  {
    assert SameAt(v, w, j);
  }

  lemma PaddedBlocks(s: seq<byte>)
    ensures |PadTo(s, BLOCK)| == BlocksOf(|s|) * BLOCK
  {
    BlocksSize(|s|);
  }

  /** One level of the batch definition and the size of the level below. */
  lemma NextLevel(sha: Sha, s: seq<byte>, padded: seq<byte>, m: nat)
    requires padded == PadTo(s, BLOCK) && m == BlocksOf(|s|) * DIGEST
    ensures |padded| == BlocksOf(|s|) * BLOCK && |Hashes(sha, padded)| == m
  {
    PaddedBlocks(s);
    HashesLength(sha, padded, BlocksOf(|s|));
  }

  /** The sizes of the batch levels, in blocks. */
  lemma BatchBlocks(sha: Sha, header: seq<byte>, content: seq<byte>, z: Sizes, b: Levels)
    requires |content| == z.three && z.two == BlocksOf(z.three) * DIGEST
    requires z.one == BlocksOf(z.two) * DIGEST && z.zero == BlocksOf(z.one) * DIGEST
    requires b == Batch(sha, header, content)
    ensures |b.three| == BlocksOf(z.three) * BLOCK && |b.two| == BlocksOf(z.two) * BLOCK
    ensures |b.one| == BlocksOf(z.one) * BLOCK
    ensures |Hashes(sha, b.one)| == z.zero
  {
    NextLevel(sha, content, b.three, z.two);
    NextLevel(sha, Hashes(sha, b.three), b.two, z.one);
    NextLevel(sha, Hashes(sha, b.two), b.one, z.zero);
  }

  lemma ZeroSize(lead: seq<byte>, h: seq<byte>, padded: seq<byte>, m: nat, n: nat, r: Region)
    requires padded == PadTo(lead + h, BLOCK) && |lead| == m && |h| <= n && r.blocks == BlocksOf(m + n)
    ensures |padded| <= Size(r) && (|h| == n ==> |padded| == Size(r))
  {
    PaddedBlocks(lead + h);
    BlocksMonotone(m + |h|, m + n);
  }

  lemma BlocksMonotone(m: nat, n: nat)
    requires m <= n
    ensures BlocksOf(m) <= BlocksOf(n) && BlocksOf(m) * BLOCK <= BlocksOf(n) * BLOCK
  {
    AlignMonotone(m, n, BLOCK);
    BlocksSize(m);
    BlocksSize(n);
  }

  /** Sizes grow with the content, and depend on its blocks only. */
  lemma SizesMonotone(m: nat, n: nat)
    requires m <= n
    ensures
      var y, z := LevelSizes(m), LevelSizes(n);
      && y.zero <= z.zero && y.one <= z.one && y.two <= z.two
      && (BlocksOf(m) == BlocksOf(n) ==> y.zero == z.zero && y.one == z.one && y.two == z.two)
  {
    var y, z := LevelSizes(m), LevelSizes(n);
    BlocksMonotone(m, n);
    BlocksMonotone(y.two, z.two);
    BlocksMonotone(y.one, z.one);
  }

  /** The batch levels fit in the regions for content that is at least as long, and fill them if it has as many
      blocks. */
  lemma BatchSizes(sha: Sha, header: seq<byte>, content: seq<byte>, n: nat, r: seq<Region>, b: Levels)
    requires |content| <= n && r == Layout(|header|, LevelSizes(n)) && b == Batch(sha, header, content)
    ensures FitsRegions(r, b) && (BlocksOf(|content|) == BlocksOf(n) ==> FillsRegions(r, b))
  {
    var y, z := LevelSizes(|content|), LevelSizes(n);
    BatchBlocks(sha, header, content, y, b);
    SizesMonotone(|content|, n);
    BlocksMonotone(|content|, n);
    BlocksMonotone(y.two, z.two);
    BlocksMonotone(y.one, z.one);
    ZeroSize(PadTo(header, DIGEST), Hashes(sha, b.one), b.zero, Align(|header|, DIGEST), z.zero, r[0]);
  }

  predicate FillsRegions(r: seq<Region>, b: Levels) {
    |r| == 4 && |b.zero| == Size(r[0]) && |b.one| == Size(r[1]) && |b.two| == Size(r[2]) && |b.three| == Size(r[3])
  }

  /** The image is the four regions one after the other. */
  lemma ImageOf(image: seq<byte>, r: seq<Region>, b: Levels)
    requires FillsRegions(r, b) && r[0].base == 0 && r[3].base == |b.zero| && r[1].base == r[3].base + |b.three|
    requires r[2].base == r[1].base + |b.one| && |image| == r[2].base + |b.two| && Filled(image, r, b)
    ensures image == Image(b)
  {
    WholeRegion(image, r[0], b.zero);
    WholeRegion(image, r[1], b.one);
    WholeRegion(image, r[2], b.two);
    WholeRegion(image, r[3], b.three);
    Quartered(image, r[3].base, r[1].base, r[2].base);
  }

  lemma WholeRegion(image: seq<byte>, r: Region, s: seq<byte>)
    requires InRegion(image, r, s) && |s| == Size(r)
    ensures image[r.base..r.base + |s|] == s
  {
  }

  lemma Quartered(s: seq<byte>, i: nat, j: nat, k: nat)
    requires i <= j <= k <= |s|
    ensures s == s[0..i] + s[i..j] + s[j..k] + s[k..|s|]
  {
  }

  /** A tree that waits for its header. */
  ghost predicate Unused(sha: Sha, v: View, header: seq<byte>) {
    && ValidTo(sha, v, 3) && HeaderRoom(v, |header|) && v.tracks == seq(4, _ => Track([], [], 0))
    && v.leads == [[], [], [], []] && |header| <= Size(v.regions[0])
  }

  /** The tree as it is set up for a header and content of known sizes. */
  ghost predicate SetUp(v: View, headerSize: nat, contentSize: nat) {
    var r := Layout(headerSize, LevelSizes(contentSize));
    v == Empty(Zeros(r[2].base + Size(r[2])), r)
  }

  /** The tree has the regions, and the image the size, that were set up. */
  ghost predicate Sized(v: View, headerSize: nat, contentSize: nat) {
    && v.regions == Layout(headerSize, LevelSizes(contentSize)) && |v.image| == v.regions[2].base + Size(v.regions[2])
  }

  lemma EmptyReady(sha: Sha, v: View, header: seq<byte>, content: seq<byte>, n: nat, b: Levels)
    requires SetUp(v, |header|, n) && |content| <= n && b == Batch(sha, header, content)
    ensures Unused(sha, v, header) && FitsRegions(v.regions, b) && Sized(v, |header|, n)
  {
    EmptyValid(sha, v.image, |header|, n);
    BatchSizes(sha, header, content, n, v.regions, b);
    HeaderFits(|header|, v.regions);
  }

  lemma HeaderFits(headerSize: nat, r: seq<Region>)
    requires |r| == 4 && Align(headerSize, DIGEST) + r[1].blocks * DIGEST <= Size(r[0])
    ensures headerSize <= Size(r[0])
  {
  }

  lemma StartedReady(sha: Sha, v: View, w: View, header: seq<byte>, b: Levels)
    requires Unused(sha, v, header) && Started(sha, v, w, header) && FitsRegions(v.regions, b)
    ensures ValidTo(sha, w, 3) && FitsRegions(w.regions, b) && Fed(w.tracks[3]) == []
    ensures w.leads == [PadTo(header, DIGEST), [], [], []]
  {
  }

  lemma NoLead(h: seq<byte>)
    ensures [] + h == h
  {
  }

  function LevelOf(b: Levels, k: nat): seq<byte>
    requires k < 4
  {
    if k == 0 then b.zero else if k == 1 then b.one else if k == 2 then b.two else b.three
  }

  /** The closed levels down to `k` are in the image. */
  predicate ClosedDownTo(v: View, b: Levels, k: nat)
    requires |v.regions| == 4
  {
    && (k <= 3 ==> InRegion(v.image, v.regions[3], b.three))
    && (k <= 2 ==> InRegion(v.image, v.regions[2], b.two))
    && (k <= 1 ==> InRegion(v.image, v.regions[1], b.one))
    && (k <= 0 ==> InRegion(v.image, v.regions[0], b.zero))
  }

  /** Each level stands at the front of its region. */
  predicate Filled(image: seq<byte>, r: seq<Region>, b: Levels) {
    && |r| == 4 && InRegion(image, r[0], b.zero) && InRegion(image, r[1], b.one)
    && InRegion(image, r[2], b.two) && InRegion(image, r[3], b.three)
  }

  predicate FitsRegions(r: seq<Region>, b: Levels) {
    |r| == 4 && |b.zero| <= Size(r[0]) && |b.one| <= Size(r[1]) && |b.two| <= Size(r[2]) && |b.three| <= Size(r[3])
  }

  lemma StaysClosed(v: View, w: View, b: Levels, k: nat)
    requires k < 4 && KeepsAbove(v, w, k) && FitsRegions(v.regions, b) && ClosedDownTo(v, b, k + 1)
    ensures ClosedDownTo(w, b, k + 1)
  {
    if k < 3 {
      StillThere(v, w, k, 3, b.three);
    }
    if k < 2 {
      StillThere(v, w, k, 2, b.two);
    }
    if k < 1 {
      StillThere(v, w, k, 1, b.one);
    }
  }

  /** Everything is closed: the image is the batch image if the content has the blocks it was expected to have. */
  lemma AllClosed(sha: Sha, v: View, header: seq<byte>, content: seq<byte>, n: nat, b: Levels)
    requires Sized(v, |header|, n) && |content| <= n && b == Batch(sha, header, content) && ClosedDownTo(v, b, 0)
    ensures BlocksOf(|content|) == BlocksOf(n) ==> v.image == Image(b)
  {
    if BlocksOf(|content|) == BlocksOf(n) {
      BatchSizes(sha, header, content, n, v.regions, b);
      LayoutSizes(|header|, LevelSizes(n));
      ImageOf(v.image, v.regions, b);
    }
  }

  // ----- The tree -----

  class HashTree {
    const sha: Sha
    var levels: seq<Level>
    var image: seq<byte>
    ghost var regions: seq<Region>
    ghost var tracks: seq<Track>
    ghost var leads: seq<seq<byte>>

    ghost function Seen(): View
      reads this
    {
      View(levels, image, regions, tracks, leads)
    }

    /** writeBuffer, one turn of its loop: as much as fits in the block; a full block is hashed into the level
        below, written, and cleared. */
    method WriteChunk(k: nat, src: Option<seq<byte>>, n: nat)
      requires k < 4 && ValidTo(sha, Seen(), k) && (src.Some? ==> |src.value| == n)
      requires levels[k].dataPos + n <= BLOCK && |Fed(tracks[k])| + n <= Size(regions[k])
      modifies this
      ensures ValidTo(sha, Seen(), k) && KeepsAbove(old(Seen()), Seen(), k)
      ensures Fed(tracks[k]) == old(Fed(tracks[k])) + Payload(src, n)
      decreases k, 2
    {
      ghost var bytes := Payload(src, n);
      assert LevelAt(Seen(), k);
      RoomHere(levels[k], image, regions[k], tracks[k], n);
      var l := levels[k];
      if n > 0 {
        if src.Some? {
          l := l.(data := l.data[..l.dataPos] + src.value + l.data[l.dataPos + n..]);
        }
        l := l.(dataPos := l.dataPos + n);
      }
      BufferTakes(levels[k], image, regions[k], tracks[k], src, n, l);
      if l.dataPos == BLOCK {
        Associate(tracks[k].flushed, tracks[k].tail, bytes);
        FlushBlock(k, l.data);
      } else {
        HoldBytes(k, l, bytes);
      }
    }

    /** The bytes stay in the buffer. */
    method HoldBytes(k: nat, l: Level, ghost bytes: seq<byte>)
      requires k < 4 && ValidTo(sha, Seen(), k)
      requires LevelOk(l, image, regions[k], tracks[k].(tail := tracks[k].tail + bytes))
      modifies this
      ensures ValidTo(sha, Seen(), k) && KeepsAbove(old(Seen()), Seen(), k)
      ensures Fed(tracks[k]) == old(Fed(tracks[k])) + bytes
    {
      ghost var v := Seen();
      ChunkHeld(sha, v, k, bytes, l);
      levels := levels[k := l];
      tracks := tracks[k := tracks[k].(tail := tracks[k].tail + bytes)];
      assert Seen() == WithHeld(v, k, l, bytes);
    }

    /** Hashes the full block into the level below. */
    method HashBlock(k: nat, block: seq<byte>)
      requires k < 4 && ValidTo(sha, Seen(), k) && |block| == BLOCK && tracks[k].count < regions[k].blocks
      modifies this
      ensures Hashed(sha, old(Seen()), Seen(), k, block)
      decreases k, 0
    {
      if k != 0 {
        ghost var v := Seen();
        RoomToHash(sha, v, k);
        var digest := sha(block);
        WriteBuffer(k - 1, Some(digest), DIGEST);
        HashFed(sha, v, Seen(), k, block);
      } else {
        NothingToHash(sha, Seen(), block);
      }
    }

    /** Writes the full block and clears the buffer. */
    method FlushBlock(k: nat, block: seq<byte>)
      requires k < 4 && ValidTo(sha, Seen(), k) && |block| == BLOCK && tracks[k].tail <= block
      requires tracks[k].count < regions[k].blocks
      modifies this
      ensures ValidTo(sha, Seen(), k) && KeepsAbove(old(Seen()), Seen(), k)
      ensures Fed(tracks[k]) == old(tracks[k].flushed) + block
      decreases k, 1
    {
      ghost var v := Seen();
      HashBlock(k, block);
      ghost var u := Seen();
      FlushedView(sha, v, u, k, block);
      StoreBlock(k, block);
    }

    method StoreBlock(k: nat, block: seq<byte>)
      requires k < |levels| == |tracks| && levels[k].filePos + |block| <= |image|
      modifies this
      ensures Seen() == WithFlushed(old(Seen()), k, block)
    {
      var at := levels[k].filePos;
      image := Stored(image, at, block);
      levels := levels[k := Level(Zeros(BLOCK), 0, at + BLOCK)];
      tracks := tracks[k := Track(tracks[k].flushed + block, [], tracks[k].count + 1)];
    }

    /** writeBuffer: the bytes go in block by block; without a source the buffer is only advanced. */
    method WriteBuffer(k: nat, src: Option<seq<byte>>, size: nat)
      requires k < 4 && ValidTo(sha, Seen(), k) && (src.Some? ==> |src.value| == size)
      requires |Fed(tracks[k])| + size <= Size(regions[k])
      modifies this
      ensures ValidTo(sha, Seen(), k) && KeepsAbove(old(Seen()), Seen(), k)
      ensures Fed(tracks[k]) == old(Fed(tracks[k])) + Payload(src, size)
      decreases k, 4
    {
      ghost var v := Seen();
      var done: nat, more := 0, true;
      assert Payload(src, size)[..0] == [];
      while more
        invariant done <= size && (!more ==> done == size) && (more && done > 0 ==> done < size)
        invariant ValidTo(sha, Seen(), k) && KeepsAbove(v, Seen(), k)
        invariant Fed(tracks[k]) == Fed(v.tracks[k]) + Payload(src, size)[..done]
        decreases more, size - done
      {
        ghost var u := Seen();
        done := WriteNext(k, src, size, done, Fed(v.tracks[k]));
        KeepsTwice(v, u, Seen(), k);
        more := done < size;
      }
      assert Payload(src, size)[..size] == Payload(src, size);
    }

    /** One turn of writeBuffer's loop. */
    method WriteNext(k: nat, src: Option<seq<byte>>, size: nat, done: nat, ghost fed: seq<byte>) returns (done': nat)
      requires k < 4 && ValidTo(sha, Seen(), k) && (src.Some? ==> |src.value| == size)
      requires done <= size && (done == size ==> size == 0)
      requires |fed| + size <= Size(regions[k]) && Fed(tracks[k]) == fed + Payload(src, size)[..done]
      modifies this
      ensures ValidTo(sha, Seen(), k) && KeepsAbove(old(Seen()), Seen(), k)
      ensures done' <= size && (done < size ==> done < done')
      ensures Fed(tracks[k]) == fed + Payload(src, size)[..done']
      decreases k, 3
    {
      assert LevelAt(Seen(), k);
      var remain := BLOCK - levels[k].dataPos;
      var n := if size - done > remain then remain else size - done;
      var part := if src.Some? then Some(src.value[done..done + n]) else None;
      WriteChunk(k, part, n);
      PayloadPart(src, size, done, n, part, fed);
      done' := done + n;
    }

    /** alignBuffer: the buffer is advanced to the alignment, and a block filled that way is turned over. */
    method AlignBuffer(k: nat, a: nat, ghost m: nat)
      requires k < 4 && ValidTo(sha, Seen(), k) && a > 0 && m * a == BLOCK
      modifies this
      ensures ValidTo(sha, Seen(), k) && KeepsAbove(old(Seen()), Seen(), k)
      ensures Fed(tracks[k]) == PadTo(old(Fed(tracks[k])), a)
    {
      assert LevelAt(Seen(), k);
      PadsWithin(tracks[k], regions[k], levels[k], image, a, m);
      WriteBuffer(k, None, Align(levels[k].dataPos, a) - levels[k].dataPos);
    }

    /** createHeader and initLevelBuffer, for content of a known size. */
    constructor (sha: Sha, headerSize: nat, contentSize: nat)
      ensures this.sha == sha
      ensures SetUp(Seen(), headerSize, contentSize)
    {
      var r := Layout(headerSize, LevelSizes(contentSize));
      this.sha := sha;
      levels := seq(4, i requires 0 <= i < 4 => Level(Zeros(BLOCK), 0, r[i].base));
      image := Zeros(r[2].base + Size(r[2]));
      regions := r;
      tracks := seq(4, _ => Track([], [], 0));
      leads := seq(4, _ => []);
    }

    /** The header, padded to a whole digest. */
    method WriteHeader(header: seq<byte>)
      requires Unused(sha, Seen(), header)
      modifies this
      ensures Started(sha, old(Seen()), Seen(), header)
    {
      ghost var v := Seen();
      WriteBuffer(0, Some(header), |header|);
      ghost var u := Seen();
      assert [] + header == header;
      AlignBuffer(0, DIGEST, BLOCK / DIGEST);
      HeaderStarts(sha, v, u, Seen(), header);
      leads := leads[0 := Fed(tracks[0])];
    }

    /** The content, piece by piece. */
    method WritePieces(pieces: seq<Piece>)
      requires ValidTo(sha, Seen(), 3) && Fed(tracks[3]) == [] && |Content(pieces)| <= Size(regions[3])
      modifies this
      ensures ValidTo(sha, Seen(), 3) && KeepsAbove(old(Seen()), Seen(), 3)
      ensures Fed(tracks[3]) == Content(pieces)
    {
      ghost var v := Seen();
      for i := 0 to |pieces|
        invariant ValidTo(sha, Seen(), 3) && KeepsAbove(v, Seen(), 3)
        invariant Fed(tracks[3]) == Content(pieces[..i])
      {
        ghost var u := Seen();
        ContentGrows(pieces, i + 1);
        assert pieces[..i + 1][..i] == pieces[..i];
        WritePiece(pieces[i]);
        KeepsTwice(v, u, Seen(), 3);
      }
      assert pieces[..|pieces|] == pieces;
    }

    method WritePiece(piece: Piece)
      requires ValidTo(sha, Seen(), 3) && |Extended(Fed(tracks[3]), piece)| <= Size(regions[3])
      modifies this
      ensures ValidTo(sha, Seen(), 3) && KeepsAbove(old(Seen()), Seen(), 3)
      ensures Fed(tracks[3]) == Extended(old(Fed(tracks[3])), piece)
    {
      match piece
      case Data(bytes) => WriteBuffer(3, Some(bytes), |bytes|);
      case Skip(size) => WriteBuffer(3, None, size);
      case Padding => AlignBuffer(3, FILE_ALIGN, BLOCK / FILE_ALIGN);
    }

    /** Closes level `k`. */
    method CloseLevel(k: nat, ghost s: seq<byte>)
      requires k < 4 && ValidTo(sha, Seen(), k) && Fed(tracks[k]) == s
      modifies this
      ensures KeepsAbove(old(Seen()), Seen(), k) && ValidTo(sha, Seen(), k - 1)
      ensures InRegion(image, regions[k], PadTo(s, BLOCK))
      ensures k > 0 ==> Fed(tracks[k - 1]) == leads[k - 1] + Hashes(sha, PadTo(s, BLOCK))
    {
      ghost var v := Seen();
      AlignBuffer(k, BLOCK, 1);
      LevelClosed(sha, v, Seen(), k, PadTo(s, BLOCK));
    }

    /** Closes level `k`, which has been fed `s`, while the levels above stay closed. */
    method CloseStep(k: nat, ghost s: seq<byte>, ghost b: Levels)
      requires k < 4 && ValidTo(sha, Seen(), k) && Fed(tracks[k]) == s && LevelOf(b, k) == PadTo(s, BLOCK)
      requires FitsRegions(regions, b) && ClosedDownTo(Seen(), b, k + 1)
      modifies this
      ensures KeepsAbove(old(Seen()), Seen(), k) && ValidTo(sha, Seen(), k - 1) && ClosedDownTo(Seen(), b, k)
      ensures k > 0 ==> Fed(tracks[k - 1]) == leads[k - 1] + Hashes(sha, LevelOf(b, k))
    {
      ghost var v := Seen();
      CloseLevel(k, s);
      StaysClosed(v, Seen(), b, k);
    }

    /** Closes the four levels, from the content down. */
    method CloseLevels(ghost b: Levels, ghost header: seq<byte>, ghost content: seq<byte>)
      requires b == Batch(sha, header, content) && FitsRegions(regions, b)
      requires ValidTo(sha, Seen(), 3) && Fed(tracks[3]) == content
      requires leads == [PadTo(header, DIGEST), [], [], []]
      modifies this
      ensures regions == old(regions) && |image| == old(|image|) && ClosedDownTo(Seen(), b, 0)
    {
      CloseStep(3, content, b);
      NoLead(Hashes(sha, b.three));
      CloseStep(2, Hashes(sha, b.three), b);
      NoLead(Hashes(sha, b.two));
      CloseStep(1, Hashes(sha, b.two), b);
      CloseStep(0, PadTo(header, DIGEST) + Hashes(sha, b.one), b);
    }

    /** The content and the closing, once the header is in place. */
    method Fill(pieces: seq<Piece>, ghost header: seq<byte>, ghost b: Levels)
      requires b == Batch(sha, header, Content(pieces)) && FitsRegions(regions, b)
      requires ValidTo(sha, Seen(), 3) && Fed(tracks[3]) == [] && leads == [PadTo(header, DIGEST), [], [], []]
      modifies this
      ensures regions == old(regions) && |image| == old(|image|) && ClosedDownTo(Seen(), b, 0)
    {
      WritePieces(pieces);
      CloseLevels(b, header, Content(pieces));
    }

    /** updateLevelBuffer's first part: the header. */
    method Begin(header: seq<byte>, ghost content: seq<byte>, ghost n: nat, ghost b: Levels)
      requires SetUp(Seen(), |header|, n) && |content| <= n && b == Batch(sha, header, content)
      modifies this
      ensures Sized(Seen(), |header|, n) && FitsRegions(regions, b)
      ensures ValidTo(sha, Seen(), 3) && Fed(tracks[3]) == [] && leads == [PadTo(header, DIGEST), [], [], []]
    {
      ghost var v := Seen();
      EmptyReady(sha, v, header, content, n, b);
      WriteHeader(header);
      StartedReady(sha, v, Seen(), header, b);
    }

    /** updateLevelBuffer: streaming the header and the content through the buffers leaves the levels of the batch
        definition behind, each at the front of its region. */
    method Update(header: seq<byte>, pieces: seq<Piece>, ghost n: nat)
      requires SetUp(Seen(), |header|, n) && |Content(pieces)| <= n
      modifies this
      ensures Sized(Seen(), |header|, n) && Filled(image, regions, Batch(sha, header, Content(pieces)))
      ensures BlocksOf(|Content(pieces)|) == BlocksOf(n) ==> image == Image(Batch(sha, header, Content(pieces)))
    {
      ghost var b := Batch(sha, header, Content(pieces));
      Begin(header, Content(pieces), n, b);
      Fill(pieces, header, b);
      AllClosed(sha, Seen(), header, Content(pieces), n, b);
    }
  }
}
