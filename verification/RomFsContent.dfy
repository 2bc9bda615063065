/** What the image of src/romfs.cpp holds, byte by byte: the pieces of the content one behind the other, and below
    each block its digest. */
module RomFsContent {
  import opened Bytes
  import opened RomFsHash

  // ----- The pieces of the content -----

  /** Where piece `i` begins. */
  function Start(pieces: seq<Piece>, i: nat): nat
    requires i <= |pieces|
  {
    |Content(pieces[..i])|
  }

  lemma StartNext(pieces: seq<Piece>, i: nat)
    requires i < |pieces|
    ensures Content(pieces[..i + 1]) == Extended(Content(pieces[..i]), pieces[i])
    ensures Content(pieces[..i + 1]) <= Content(pieces)
  {
    assert pieces[..i + 1][..i] == pieces[..i];
    ContentGrows(pieces, i + 1);
  }

  lemma WholeContent(pieces: seq<Piece>)
    ensures Start(pieces, 0) == 0 && Start(pieces, |pieces|) == |Content(pieces)|
  {
    assert pieces[..|pieces|] == pieces;
  }

  /** The pieces stand one behind the other: data as they are, a skipped stretch as zeros, and padding as zeros up
      to the next multiple of 16. */
  lemma PieceStands(pieces: seq<Piece>, i: nat)
    requires i < |pieces|
    ensures Start(pieces, i) <= Start(pieces, i + 1) <= |Content(pieces)|
    ensures
      var here, at, end := pieces[i], Start(pieces, i), Start(pieces, i + 1);
      && (here.Data? ==> Content(pieces)[at..end] == here.bytes)
      && (here.Skip? ==> end == at + here.size)
      && (here.Padding? ==> end % 16 == 0 && end < at + 16)
      && (!here.Data? ==> forall x :: at <= x < end ==> Content(pieces)[x] == 0)
  {
    StartNext(pieces, i);
    var s, t, whole := Content(pieces[..i]), Content(pieces[..i + 1]), Content(pieces);
    assert whole[|s|..|t|] == t[|s|..];
    if pieces[i].Padding? {
      PadsLess(|s|);
    }
    if !pieces[i].Data? {
      forall x | |s| <= x < |t| ensures whole[x] == 0 {
        assert whole[x] == t[x];
      }
    }
  }

  lemma PadsLess(n: nat)
    ensures Align(n, 16) % 16 == 0 && n <= Align(n, 16) < n + 16
  {
    AlignIsMultiple(n, 16);
  }

  // ----- The digests -----

  lemma {:induction false} HashAt(sha: Sha, s: seq<byte>, n: nat, i: nat)
    requires |s| == n * BLOCK && i < n
    ensures |Hashes(sha, s)| == n * 32 && 0 <= 32 * i && 32 * i + 32 <= n * 32 && i * BLOCK + BLOCK <= n * BLOCK
    ensures Hashes(sha, s)[32 * i..32 * i + 32] == sha(s[i * BLOCK..i * BLOCK + BLOCK])
  {
    var front := s[..|s| - BLOCK];
    HashesLength(sha, s, n);
    HashesLength(sha, front, n - 1);
    if i < n - 1 {
      HashAt(sha, front, n - 1, i);
      assert Hashes(sha, s)[32 * i..32 * i + 32] == Hashes(sha, front)[32 * i..32 * i + 32];
      assert front[i * BLOCK..i * BLOCK + BLOCK] == s[i * BLOCK..i * BLOCK + BLOCK];
    } else {
      assert s[i * BLOCK..i * BLOCK + BLOCK] == s[|s| - BLOCK..];
    }
  }

  /** The digest of block `i` of one region stands in the region below, behind `lead` bytes. */
  predicate DigestAt(sha: Sha, image: seq<byte>, below: Region, lead: nat, here: Region, i: nat) {
    && here.base + 4096 * i + 4096 <= |image| && below.base + lead + 32 * i + 32 <= |image|
    && image[below.base + lead + 32 * i..below.base + lead + 32 * i + 32]
       == sha(image[here.base + 4096 * i..here.base + 4096 * i + 4096])
  }

  /** The first `n` blocks of a region have their digests below. */
  predicate DigestsAt(sha: Sha, image: seq<byte>, below: Region, lead: nat, here: Region, n: nat) {
    forall i :: 0 <= i < n ==> DigestAt(sha, image, below, lead, here, i)
  }

  lemma Behind(image: seq<byte>, r: Region, lead: seq<byte>, h: seq<byte>, t: seq<byte>, x: nat, d: seq<byte>, at: nat)
    requires InRegion(image, r, t) && lead + h <= t && x + 32 <= |h| && d == h[x..x + 32]
    requires at == r.base + |lead| + x
    ensures at + 32 <= |image| && image[at..at + 32] == d
  {
    RegionPart(image, r, t, |lead| + x, 32);
    assert t[|lead| + x..|lead| + x + 32] == h[x..x + 32];
  }

  lemma DigestMade(
    sha: Sha, image: seq<byte>, below: Region, lead: nat, here: Region, i: nat, at: nat, from: nat, block: seq<byte>)
    requires at == below.base + lead + 32 * i && from == here.base + 4096 * i
    requires at + 32 <= |image| && from + 4096 <= |image|
    requires image[at..at + 32] == sha(block) && image[from..from + 4096] == block
    ensures DigestAt(sha, image, below, lead, here, i)
  {
  }

  lemma BlockHere(image: seq<byte>, r: Region, s: seq<byte>, x: nat, block: seq<byte>, from: nat)
    requires InRegion(image, r, s) && x + BLOCK <= |s| && block == s[x..x + BLOCK] && from == r.base + x
    ensures from + 4096 <= |image| && image[from..from + 4096] == block
  {
    RegionPart(image, r, s, x, BLOCK);
  }

  lemma BlockDigest(sha: Sha, s: seq<byte>, n: nat, i: nat, h: seq<byte>, x: nat, y: nat) returns (block: seq<byte>)
    requires |s| == n * BLOCK && i < n && h == Hashes(sha, s) && x == i * BLOCK && y == 32 * i
    ensures y + 32 <= |h| && x + BLOCK <= |s| && block == s[x..x + BLOCK]
    ensures h[y..y + 32] == sha(block)
  {
    HashAt(sha, s, n, i);
    block := s[x..x + BLOCK];
  }

  lemma DigestStands(
    sha: Sha, image: seq<byte>, below: Region, lead: seq<byte>, here: Region, s: seq<byte>, t: seq<byte>,
    h: seq<byte>, n: nat, i: nat)
    requires InRegion(image, here, s) && InRegion(image, below, t) && |s| == n * BLOCK && i < n
    requires h == Hashes(sha, s) && lead + h <= t
    ensures DigestAt(sha, image, below, |lead|, here, i)
  {
    var x, y := i * BLOCK, 32 * i;
    var at, from := below.base + |lead| + y, here.base + x;
    var block := BlockDigest(sha, s, n, i, h, x, y);
    BlockHere(image, here, s, x, block, from);
    Behind(image, below, lead, h, t, y, sha(block), at);
    DigestMade(sha, image, below, |lead|, here, i, at, from, block);
  }

  lemma DigestsStand(
    sha: Sha, image: seq<byte>, below: Region, lead: seq<byte>, here: Region, s: seq<byte>, t: seq<byte>, n: nat)
    requires InRegion(image, here, s) && InRegion(image, below, t) && |s| == n * BLOCK
    requires lead + Hashes(sha, s) <= t
    ensures DigestsAt(sha, image, below, |lead|, here, n)
  {
    forall i | 0 <= i < n ensures DigestAt(sha, image, below, |lead|, here, i) {
      DigestStands(sha, image, below, lead, here, s, t, Hashes(sha, s), n, i);
    }
  }

  lemma ZeroBehind(image: seq<byte>, r: Region, h: seq<byte>, t: seq<byte>, x: nat)
    requires InRegion(image, r, t) && t == PadTo(h, BLOCK) && |h| <= x < Size(r)
    ensures r.base + x < |image| && image[r.base + x] == 0
  {
    if x < |t| {
      var region := image[r.base..r.base + Size(r)];
      assert region[x] == t[x] && region[x] == image[r.base + x];
    } else {
      RegionRest(image, r, t, x);
    }
  }

  /** A hash none of whose results begins with a zero. */
  ghost predicate NeverZero(sha: Sha) { forall x :: sha(x)[0] != 0 }

  lemma DigestNotZero(sha: Sha, image: seq<byte>, below: Region, here: Region, i: nat, x: nat)
    requires NeverZero(sha) && x == 32 * i && below.base + x < |image|
    ensures DigestAt(sha, image, below, 0, here, i) ==> image[below.base + x] != 0
  {
    if DigestAt(sha, image, below, 0, here, i) {
      var d := image[below.base + x..below.base + x + 32];
      assert d[0] == image[below.base + x];
    }
  }

  /** Behind the digests of a region's blocks there are zeros, so that a block without data has no digest. */
  lemma NoDigest(sha: Sha, image: seq<byte>, below: Region, here: Region, s: seq<byte>, t: seq<byte>, n: nat)
    requires InRegion(image, below, t) && |s| == n * BLOCK && t == PadTo(Hashes(sha, s), BLOCK)
    requires 32 * n < Size(below) && NeverZero(sha)
    ensures !DigestAt(sha, image, below, 0, here, n)
  {
    var x := 32 * n;
    HashesLength(sha, s, n);
    ZeroBehind(image, below, Hashes(sha, s), t, x);
    DigestNotZero(sha, image, below, here, n, x);
  }

  // ----- The tree -----

  /** As many blocks as `size` bytes need. */
  predicate Needed(r: Region, size: nat) { r.blocks * 4096 - 4096 < size <= r.blocks * 4096 }

  /** A header of `lead` bytes with the digests of the second region behind it, then content of `size` bytes, then
      the regions of digests, each long enough for the one it covers. */
  predicate Arranged(r: seq<Region>, lead: nat, size: nat) {
    && |r| == 4 && r[0].base == 0 && r[3].base == r[0].blocks * 4096 && r[1].base == r[3].base + r[3].blocks * 4096
    && r[2].base == r[1].base + r[1].blocks * 4096
    && Needed(r[3], size) && Needed(r[2], 32 * r[3].blocks) && Needed(r[1], 32 * r[2].blocks)
    && Needed(r[0], lead + 32 * r[1].blocks)
  }

  lemma BlocksNeeded(r: Region, size: nat)
    requires r.blocks == BlocksOf(size)
    ensures Needed(r, size)
  {
    BlocksSize(size);
  }

  lemma LayoutArranged(headerSize: nat, size: nat, r: seq<Region>)
    requires r == Layout(headerSize, LevelSizes(size))
    ensures Arranged(r, Align(headerSize, 32), size)
  {
    var z := LevelSizes(size);
    LayoutSizes(headerSize, z);
    BlocksNeeded(r[3], size);
    BlocksNeeded(r[2], z.two);
    BlocksNeeded(r[1], z.one);
    BlocksNeeded(r[0], Align(headerSize, 32) + z.zero);
  }

  /** Every block of the three upper regions has its digest in the region below. */
  predicate Covered(sha: Sha, image: seq<byte>, r: seq<Region>, lead: nat)
    requires |r| == 4
  {
    && DigestsAt(sha, image, r[2], 0, r[3], r[3].blocks) && DigestsAt(sha, image, r[1], 0, r[2], r[2].blocks)
    && DigestsAt(sha, image, r[0], lead, r[1], r[1].blocks)
  }

  lemma FullBlocks(s: seq<byte>, r: Region)
    requires |s| == Size(r)
    ensures |s| == r.blocks * BLOCK
  {
  }

  lemma FullyCovered(
    sha: Sha, image: seq<byte>, r: seq<Region>, header: seq<byte>, content: seq<byte>, n: nat, b: Levels)
    requires r == Layout(|header|, LevelSizes(n)) && |content| <= n && BlocksOf(|content|) == BlocksOf(n)
    requires b == Batch(sha, header, content) && Filled(image, r, b)
    ensures Covered(sha, image, r, Align(|header|, 32))
  {
    BatchSizes(sha, header, content, n, r, b);
    NoLead(Hashes(sha, b.three));
    DigestsStand(sha, image, r[2], [], r[3], b.three, b.two, r[3].blocks);
    NoLead(Hashes(sha, b.two));
    DigestsStand(sha, image, r[1], [], r[2], b.two, b.one, r[2].blocks);
    DigestsStand(sha, image, r[0], PadTo(header, DIGEST), r[1], b.one, b.zero, r[1].blocks);
  }

  lemma PartlyCovered(
    sha: Sha, image: seq<byte>, r: seq<Region>, header: seq<byte>, content: seq<byte>, n: nat, b: Levels)
    requires r == Layout(|header|, LevelSizes(n)) && |content| <= n && BlocksOf(|content|) < BlocksOf(n)
    requires b == Batch(sha, header, content) && Filled(image, r, b) && NeverZero(sha)
    ensures !Covered(sha, image, r, Align(|header|, 32))
  {
    var m := BlocksOf(|content|);
    LayoutArranged(|header|, n, r);
    PaddedBlocks(content);
    NoDigest(sha, image, r[2], r[3], b.three, b.two, m);
    assert !DigestAt(sha, image, r[2], 0, r[3], m);
  }

  /** The image of some content, laid out for `n` bytes: every block has its digest if the content needs as many
      blocks as were laid out; and only then, for a hash that is never zero at the front. */
  lemma CoveredIff(sha: Sha, image: seq<byte>, r: seq<Region>, header: seq<byte>, content: seq<byte>, n: nat)
    requires r == Layout(|header|, LevelSizes(n)) && |content| <= n
    requires Filled(image, r, Batch(sha, header, content))
    ensures BlocksOf(|content|) == BlocksOf(n) ==> Covered(sha, image, r, Align(|header|, 32))
    ensures NeverZero(sha) && BlocksOf(|content|) < BlocksOf(n) ==> !Covered(sha, image, r, Align(|header|, 32))
  {
    var b := Batch(sha, header, content);
    if BlocksOf(|content|) == BlocksOf(n) {
      FullyCovered(sha, image, r, header, content, n, b);
    } else if NeverZero(sha) && BlocksOf(|content|) < BlocksOf(n) {
      PartlyCovered(sha, image, r, header, content, n, b);
    }
  }

  /** The header is at the front of the image, and the content at the front of its region. */
  lemma HeaderStands(sha: Sha, image: seq<byte>, r: seq<Region>, header: seq<byte>, content: seq<byte>)
    requires Filled(image, r, Batch(sha, header, content)) && r[0].base == 0
    ensures |header| <= |image| && image[..|header|] == header
    ensures r[3].base + |content| <= |image| && image[r[3].base..r[3].base + |content|] == content
  {
    var b := Batch(sha, header, content);
    RegionPart(image, r[0], b.zero, 0, |header|);
    RegionPart(image, r[3], b.three, 0, |content|);
    assert b.zero[0..|header|] == header && b.three[0..|content|] == content;
  }
}
