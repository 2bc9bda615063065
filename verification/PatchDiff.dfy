/** Making a patch (src/patch.cpp, createPatchFile and its writers): runs of differing bytes become
    relative seek-and-write commands, and running them on the old bytes gives the new ones. */
module PatchDiff {
  import opened Bytes
  import opened PatchFormat

  const RUN_LIMIT: nat := 0x10000
  const CHUNK: nat := 0x100000

  // ----- What a diff carries -----

  /** The number of places among the first `n` where the two differ. */
  function Differences(a: seq<byte>, b: seq<byte>, n: nat): nat
    requires n <= |a| && n <= |b|
  {
    if n == 0 then 0 else Differences(a, b, n - 1) + if a[n - 1] != b[n - 1] then 1 else 0
  }

  /** The number of data bytes that commands carry. */
  function Payload(cmds: seq<Command>): nat {
    if cmds == [] then 0
    else
      var c := cmds[|cmds| - 1];
      Payload(cmds[..|cmds| - 1]) + if c.SeekWrite? then |c.data| else 0
  }

  lemma PayloadSnoc(cmds: seq<Command>, c: Command)
    requires c.SeekWrite?
    ensures Payload(cmds + [c]) == Payload(cmds) + |c.data|
  {
    assert (cmds + [c])[..|cmds|] == cmds;
  }

  // ----- How a diff is cut into runs -----

  /** Where the commands leave off in the file: the first offset counts from its front, the others from the end of the
      command before. */
  function Behind(cmds: seq<Command>): nat {
    if cmds == [] then 0
    else
      var c := cmds[|cmds| - 1];
      Behind(cmds[..|cmds| - 1]) + if c.SeekWrite? then c.offset + |c.data| else 0
  }

  lemma BehindSnoc(cmds: seq<Command>, c: Command)
    requires c.SeekWrite?
    ensures Behind(cmds + [c]) == Behind(cmds) + c.offset + |c.data|
  {
    assert (cmds + [c])[..|cmds|] == cmds;
  }

  /** The places from `f` up to `e` are a run: in the part that both ranges have they all differ, and the run is as long
      as it can be, up to 64 KiB, to the end of that part, or to the end of the range. */
  predicate IsRun(a: seq<byte>, b: seq<byte>, common: nat, f: int, e: int)
    requires common <= |a| && common <= |b|
  {
    && 0 <= f < e <= |b| && e - f <= 0x10000
    && (f < common ==> e <= common && forall x :: f <= x < e ==> a[x] != b[x])
    && (e - f == 0x10000 || e == |b| || e == common || (e < common && a[e] == b[e]))
  }

  predicate RunAt(j: Job, cmds: seq<Command>, k: nat)
    requires k < |cmds|
  {
    && cmds[k].SeekWrite?
    && var f := Behind(cmds[..k]) + cmds[k].offset - j.at;
       IsRun(j.a, j.b, Common(j), f, f + |cmds[k].data|)
  }

  /** Each command writes one run. */
  predicate InRuns(j: Job, cmds: seq<Command>) { forall k :: 0 <= k < |cmds| ==> RunAt(j, cmds, k) }

  lemma RunsMore(j: Job, cmds: seq<Command>, c: Command, m: nat, n: nat)
    requires InRuns(j, cmds) && IsRun(j.a, j.b, Common(j), m, n)
    requires c.SeekWrite? && |c.data| == n - m && Behind(cmds) + c.offset == j.at + m
    ensures InRuns(j, cmds + [c]) && Behind(cmds + [c]) == j.at + n
  {
    var more := cmds + [c];
    BehindSnoc(cmds, c);
    forall k | 0 <= k < |more| ensures RunAt(j, more, k) {
      if k < |cmds| {
        assert more[..k] == cmds[..k] && RunAt(j, cmds, k);
      } else {
        assert more[..k] == cmds;
      }
    }
  }

  // ----- The state of a diff -----

  /** The two ranges being compared, where the new one will be, and the file `f` that the commands will meet. */
  datatype Job = Job(a: seq<byte>, b: seq<byte>, at: nat, f: seq<byte>)

  function Common(j: Job): (n: nat)
    ensures n <= |j.a| && n <= |j.b|
  {
    if |j.a| < |j.b| then |j.a| else |j.b|
  }

  /** The file reaches as far as the common part does. */
  predicate JobOk(j: Job) { (Common(j) > 0 ==> j.at + Common(j) <= |j.f|) && j.at + |j.b| < N64_LIMIT }

  /** What stands in the new range afterwards: the file's own bytes where the two ranges agree, and new bytes
      elsewhere. */
  function Effective(j: Job): (e: seq<byte>)
    ensures |e| == |j.b|
    ensures forall k :: 0 <= k < |e| ==> e[k] == EffectiveAt(j, k)
  {
    seq(|j.b|, k requires 0 <= k < |j.b| => EffectiveAt(j, k))
  }

  function EffectiveAt(j: Job, k: nat): byte
    requires k < |j.b|
  {
    if k < Common(j) && j.a[k] == j.b[k] && j.at + k < |j.f| then j.f[j.at + k] else j.b[k]
  }

  /** The file holds the common part of the old range where the new range will be. */
  predicate Carries(j: Job) {
    Common(j) > 0 ==> j.at + Common(j) <= |j.f| && j.f[j.at..j.at + Common(j)] == j.a[..Common(j)]
  }

  /** Then exactly the new range stands there afterwards. */
  lemma CarriedIsNew(j: Job)
    requires Carries(j)
    ensures Effective(j) == j.b
  {
    forall k | 0 <= k < |j.b| ensures EffectiveAt(j, k) == j.b[k] {
      if k < Common(j) {
        assert j.f[j.at..j.at + Common(j)][k] == j.f[j.at + k] && j.a[..Common(j)][k] == j.a[k];
      }
    }
  }

  /** The file once the first `m` bytes of the new range are in place. */
  function Patched(j: Job, m: nat): seq<byte>
    requires m <= |j.b|
  {
    WriteAt(j.f, j.at, Effective(j)[..m])
  }

  /** The commands so far put the first `m` bytes in place, whatever the position was before, and end at
      `base`; before the first command the base is 0 and the seek is absolute. */
  ghost predicate Reached(j: Job, cmds: seq<Command>, pos: nat, seekSet: bool, base: nat, m: nat)
    requires m <= |j.b|
  {
    && AllWrites(cmds) && seekSet == (cmds == []) && base <= (if seekSet then 0 else j.at + m)
    && InRuns(j, cmds) && base == Behind(cmds)
    && ExecuteAll(Target(j.f, pos), cmds) == Target(Patched(j, m), if seekSet then pos else base)
  }

  ghost predicate AllWrites(cmds: seq<Command>) {
    forall i :: 0 <= i < |cmds| ==> WellFormed(cmds[i]) && cmds[i].SeekWrite?
  }

  lemma ReachedAtStart(j: Job, pos: nat)
    ensures Reached(j, [], pos, true, 0, 0)
  {
    assert Effective(j)[..0] == [];
  }

  /** Bytes that agree need not be written. */
  lemma PatchedSame(j: Job, m: nat)
    requires JobOk(j) && m < Common(j) && j.a[m] == j.b[m]
    ensures Patched(j, m + 1) == Patched(j, m)
  {
    SameWrite(j.f, j.at, Effective(j), m);
  }

  lemma SameWrite(f: seq<byte>, at: nat, e: seq<byte>, m: nat)
    requires m < |e| && at + m < |f| && f[at + m] == e[m]
    ensures WriteAt(f, at, e[..m + 1]) == WriteAt(f, at, e[..m])
  {
  }

  lemma MoreWrite(f: seq<byte>, at: nat, e: seq<byte>, m: nat, n: nat)
    requires m < n <= |e| && (m > 0 ==> at + m <= |WriteAt(f, at, e[..m])|)
    ensures WriteAt(WriteAt(f, at, e[..m]), at + m, e[m..n]) == WriteAt(f, at, e[..n])
  {
  }

  lemma PatchedGrows(j: Job, m: nat, n: nat)
    requires JobOk(j) && m < n <= |j.b|
    ensures WriteAt(Patched(j, m), j.at + m, Effective(j)[m..n]) == Patched(j, n)
  {
    MoreWrite(j.f, j.at, Effective(j), m, n);
  }

  lemma WriteStep(j: Job, t: Target, seekSet: bool, base: nat, m: nat, n: nat)
    requires JobOk(j) && m < n <= |j.b| && base <= j.at + m && t.data == Patched(j, m)
    requires base == if seekSet then 0 else t.pos
    ensures Execute(t, SeekWrite(seekSet, j.at + m - base, Effective(j)[m..n])) == Target(Patched(j, n), j.at + n)
  {
    PatchedGrows(j, m, n);
  }

  lemma StepExecutes(
    j: Job, cmds: seq<Command>, pos: nat, seekSet: bool, base: nat, m: nat, n: nat, c: Command)
    requires JobOk(j) && m < n <= |j.b| && n - m <= RUN_LIMIT && Reached(j, cmds, pos, seekSet, base, m)
    requires c == SeekWrite(seekSet, j.at + m - base, Effective(j)[m..n])
    ensures AllWrites(cmds + [c]) && ExecuteAll(Target(j.f, pos), cmds + [c]) == Target(Patched(j, n), j.at + n)
  {
    var t := ExecuteAll(Target(j.f, pos), cmds);
    WriteStep(j, t, seekSet, base, m, n);
    ExecuteSnoc(Target(j.f, pos), cmds, c);
  }

  /** One more write, relative to where the last one ended. */
  lemma ReachedStep(
    j: Job, cmds: seq<Command>, pos: nat, seekSet: bool, base: nat, m: nat, n: nat, c: Command)
    requires JobOk(j) && m < n <= |j.b| && n - m <= RUN_LIMIT && Reached(j, cmds, pos, seekSet, base, m)
    requires c == SeekWrite(seekSet, j.at + m - base, Effective(j)[m..n]) && IsRun(j.a, j.b, Common(j), m, n)
    ensures Reached(j, cmds + [c], pos, false, j.at + n, n)
  {
    StepExecutes(j, cmds, pos, seekSet, base, m, n, c);
    RunsMore(j, cmds, c, m, n);
  }

  /** The state of the loop over the common part: `buffer` is the run of differing bytes from `m` up to `i`. */
  ghost predicate Diffing(
    j: Job, cmds: seq<Command>, pos: nat, seekSet: bool, base: nat, buffer: seq<byte>, m: nat, i: nat)
  {
    && m + |buffer| == i <= Common(j) && |buffer| < RUN_LIMIT && buffer == Effective(j)[m..i]
    && (forall x :: m <= x < i ==> j.a[x] != j.b[x])
    && Reached(j, cmds, pos, seekSet, base, m) && Payload(cmds) + |buffer| == Differences(j.a, j.b, i)
  }

  /** The state of the loop over the tail: `done` bytes are in place, `remain` are not, and all the commands together
      will carry `total` bytes. */
  ghost predicate Tailing(
    j: Job, cmds: seq<Command>, pos: nat, seekSet: bool, base: nat, done: nat, remain: nat, total: nat)
  {
    && Common(j) <= done && done + remain == |j.b| && Reached(j, cmds, pos, seekSet, base, done)
    && Payload(cmds) + remain == total
  }

  /** The command that a run from place `m` on becomes. */
  function RunCommand(j: Job, seekSet: bool, base: nat, buffer: seq<byte>, m: nat): Command
    requires base <= j.at + m
  {
    SeekWrite(seekSet, j.at + m - base, buffer)
  }

  /** Writing out the run. */
  lemma RunWritten(
    j: Job, cmds: seq<Command>, pos: nat, seekSet: bool, base: nat, buffer: seq<byte>, m: nat, n: nat, c: Command)
    requires JobOk(j) && m < n <= |j.b| && |buffer| <= RUN_LIMIT && n == m + |buffer| && buffer == Effective(j)[m..n]
    requires Reached(j, cmds, pos, seekSet, base, m) && c == RunCommand(j, seekSet, base, buffer, m)
    requires IsRun(j.a, j.b, Common(j), m, n)
    ensures Reached(j, cmds + [c], pos, false, j.at + n, n)
    ensures Payload(cmds + [c]) == Payload(cmds) + |buffer|
    ensures EncodeAll(cmds + [c]) == EncodeAll(cmds) + Encode(c)
  {
    ReachedStep(j, cmds, pos, seekSet, base, m, n, c);
    PayloadSnoc(cmds, c);
    EncodeSnoc(cmds, c);
  }

  lemma SameByte(j: Job, cmds: seq<Command>, pos: nat, seekSet: bool, base: nat, i: nat)
    requires JobOk(j) && i < Common(j) && j.a[i] == j.b[i]
    requires Reached(j, cmds, pos, seekSet, base, i) && Payload(cmds) == Differences(j.a, j.b, i)
    ensures Diffing(j, cmds, pos, seekSet, base, [], i + 1, i + 1)
  {
    PatchedSame(j, i);
  }

  /** The chunk of the range that begins at place `s`. */
  predicate ChunkAt(a: seq<byte>, common: nat, s: nat, chunk: seq<byte>)
    requires common <= |a|
  {
    s <= common && |chunk| == Min(CHUNK, common - s) && chunk == a[s..s + |chunk|]
  }

  /** createPatchFile's reading: chunks of both ranges are loaded whenever a chunk begins. */
  predicate Loaded(a: seq<byte>, common: nat, i: nat, chunk: seq<byte>)
    requires common <= |a|
  {
    i < common && i % CHUNK != 0 ==> ChunkAt(a, common, i - i % CHUNK, chunk)
  }

  lemma LoadedChunk(a: seq<byte>, common: nat, i: nat, r: nat, chunk: seq<byte>)
    requires i < common <= |a| && r == i % CHUNK && Loaded(a, common, i, chunk)
    ensures r <= i && (r != 0 ==> ChunkAt(a, common, i - r, chunk))
  {
    ChunkSteps(i);
  }

  /** Taking one byte from the chunk. */
  lemma FromChunk(a: seq<byte>, common: nat, i: nat, r: nat, chunk: seq<byte>)
    requires i < common <= |a| && r == i % CHUNK && r <= i && ChunkAt(a, common, i - r, chunk)
    ensures r < |chunk| && chunk[r] == a[i] && Loaded(a, common, i + 1, chunk)
  {
    ChunkSteps(i);
  }

  lemma ChunkSteps(i: nat)
    ensures (i + 1) % CHUNK != 0 ==> i + 1 - (i + 1) % CHUNK == i - i % CHUNK
    ensures i % CHUNK < CHUNK && i % CHUNK <= i
  {
  }

  lemma SliceOf(s: seq<byte>, off: nat, common: nat, a: seq<byte>, i: nat, n: nat)
    requires off + common <= |s| && common <= |a| && a[..common] == s[off..off + common] && i + n <= common
    ensures s[off + i..off + i + n] == a[i..i + n]
  {
    var x, y := s[off + i..off + i + n], a[i..i + n];
    forall k | 0 <= k < |x| ensures x[k] == y[k] {
      assert a[..common][i + k] == s[off..off + common][i + k];
    }
  }

  lemma SliceIn(s: seq<byte>, off: nat, b: seq<byte>, i: nat, n: nat)
    requires off + |b| <= |s| && b == s[off..off + |b|] && i + n <= |b|
    ensures s[off + i..off + i + n] == b[i..i + n]
  {
    assert b[..|b|] == b;
    SliceOf(s, off, |b|, b, i, n);
  }

  lemma TailBytes(s: seq<byte>, off: nat, j: Job, i: nat, n: nat, from: nat, buffer: seq<byte>)
    requires off + |j.b| <= |s| && j.b == s[off..off + |j.b|] && Common(j) <= i && i + n <= |j.b|
    requires from == off + i && buffer == s[from..from + n]
    ensures |buffer| == n && buffer == Effective(j)[i..i + n]
  {
    SliceIn(s, off, j.b, i, n);
    assert Effective(j)[i..i + n] == j.b[i..i + n];
  }

  lemma EncodedAs(seekSet: bool, offset: nat, data: seq<byte>, code: nat, a: nat, size: nat, b: nat)
    requires 0 < |data| && size == |data| - 1 && a == Width(OffsetClass(offset)) && b == Width(SizeClass(size))
    requires code == 0x10 + (if seekSet then 0 else 8) + 2 * OffsetClass(offset) + SizeClass(size)
    ensures code < 0x100 && Encode(SeekWrite(seekSet, offset, data)) == [code] + (Le(offset, a) + Le(size, b) + data)
  {
  }

  /** The patch being written. */
  class Differ {
    const oldFile: seq<byte>
    const newFile: seq<byte>
    var patch: seq<byte>

    constructor (oldFile: seq<byte>, newFile: seq<byte>)
      ensures this.oldFile == oldFile && this.newFile == newFile && patch == []
    {
      this.oldFile, this.newFile, this.patch := oldFile, newFile, [];
    }

    /** writeSeekWrite: the narrowest operands that hold the offset and the size less one. */
    method WriteSeekWrite(seekSet: bool, offset: nat, data: seq<byte>)
      requires WellFormed(SeekWrite(seekSet, offset, data))
      modifies this
      ensures patch == old(patch) + Encode(SeekWrite(seekSet, offset, data))
    {
      var code := 0x10;
      if !seekSet {
        code := code + 8;
      }
      var size := |data| - 1;
      var offsetCode, offsetWidth := OffsetOperand(offset);
      var sizeCode, sizeWidth := SizeOperand(size);
      code := code + offsetCode + sizeCode;
      EncodedAs(seekSet, offset, data, code, offsetWidth, size, sizeWidth);
      patch := patch + ([code] + (Le(offset, offsetWidth) + Le(size, sizeWidth) + data));
    }

    /** What the width of an offset adds to the code, and the width. */
    method OffsetOperand(offset: nat) returns (code: nat, width: nat)
      ensures code == 2 * OffsetClass(offset) && width == Width(OffsetClass(offset))
    {
      code, width := 0, 1;
      if offset >= 0x100 {
        if offset < 0x10000 {
          code, width := 2, 2;
        } else if offset < 0x1_0000_0000 {
          code, width := 4, 4;
        } else {
          code, width := 6, 8;
        }
      }
    }

    method SizeOperand(size: nat) returns (code: nat, width: nat)
      ensures code == SizeClass(size) && width == Width(SizeClass(size))
    {
      code, width := 0, 1;
      if size >= 0x100 {
        code, width := 1, 2;
      }
    }

    /** Writes the run out and moves the base behind it. */
    method FlushRun(
      seekSet: bool, base: nat, buffer: seq<byte>, end: nat,
      ghost j: Job, ghost cmds: seq<Command>, ghost pos: nat, ghost m: nat, ghost n: nat, ghost start: seq<byte>)
      returns (base': nat, ghost cmds': seq<Command>)
      requires JobOk(j) && m < n <= |j.b| && |buffer| <= RUN_LIMIT && n == m + |buffer| && buffer == Effective(j)[m..n]
      requires Reached(j, cmds, pos, seekSet, base, m) && end == j.at + n && IsRun(j.a, j.b, Common(j), m, n)
      requires patch == start + EncodeAll(cmds)
      modifies this
      ensures base' == j.at + n && Reached(j, cmds', pos, false, base', n)
      ensures Payload(cmds') == Payload(cmds) + |buffer| && patch == start + EncodeAll(cmds')
    {
      var seek := end - |buffer| - base;
      base' := base + seek + |buffer|;
      ghost var c := RunCommand(j, seekSet, base, buffer, m);
      RunWritten(j, cmds, pos, seekSet, base, buffer, m, n, c);
      Associate(start, EncodeAll(cmds), Encode(c));
      WriteSeekWrite(seekSet, seek, buffer);
      cmds' := cmds + [c];
    }

    /** One byte of the common part. */
    method DiffByte(
      offsetNew: nat, i: nat, x: byte, y: byte, seekSet: bool, base: nat, buffer: seq<byte>,
      ghost j: Job, ghost cmds: seq<Command>, ghost pos: nat, ghost start: seq<byte>, ghost m: nat)
      returns (seekSet': bool, base': nat, buffer': seq<byte>, ghost cmds': seq<Command>, ghost m': nat)
      requires JobOk(j) && offsetNew == j.at && i < Common(j) && x == j.a[i] && y == j.b[i]
      requires Diffing(j, cmds, pos, seekSet, base, buffer, m, i) && patch == start + EncodeAll(cmds)
      modifies this
      ensures Diffing(j, cmds', pos, seekSet', base', buffer', m', i + 1) && patch == start + EncodeAll(cmds')
    {
      seekSet', base', buffer', cmds', m' := seekSet, base, buffer, cmds, m;
      if x == y {
        if |buffer| != 0 {
          RunStops(j, m, i);
          base', cmds' := FlushRun(seekSet, base, buffer, offsetNew + i, j, cmds, pos, m, i, start);
          seekSet', buffer' := false, [];
        }
        m' := i + 1;
        SameByte(j, cmds', pos, seekSet', base', i);
      } else {
        RunGrows(j, cmds, pos, seekSet, base, buffer, m, i);
        buffer' := buffer + [y];
        if |buffer'| >= RUN_LIMIT {
          base', cmds' := FlushRun(seekSet, base, buffer', offsetNew + i + 1, j, cmds, pos, m, i + 1, start);
          seekSet', buffer', m' := false, [], i + 1;
          NewRun(j, cmds', pos, base', i + 1);
        }
      }
    }

    /** The tail of a range that grows, in runs of at most 64 KiB. */
    method WriteTail(
      offsetNew: nat, sizeOld: nat, sizeNew: nat, seekSet: bool, base: nat,
      ghost j: Job, ghost cmds: seq<Command>, ghost pos: nat, ghost start: seq<byte>)
      returns (ghost cmds': seq<Command>)
      requires JobOk(j) && Common(j) == sizeOld <= sizeNew && TailSource(newFile, j, offsetNew, sizeNew)
      requires Reached(j, cmds, pos, seekSet, base, sizeOld) && patch == start + EncodeAll(cmds)
      modifies this
      ensures patch == start + EncodeAll(cmds') && Payload(cmds') == Payload(cmds) + sizeNew - sizeOld
      ensures Finished(j, cmds', pos)
    {
      var remain: nat := sizeNew - sizeOld;
      var seek, at: nat := seekSet, base;
      cmds' := cmds;
      ghost var done: nat, total: nat := sizeOld, Payload(cmds) + remain;
      TailBegins(j, cmds', pos, seek, at, done, remain, total);
      while remain > 0
        invariant Tailing(j, cmds', pos, seek, at, done, remain, total)
        invariant patch == start + EncodeAll(cmds')
      {
        remain, at, cmds', done := TailRun(offsetNew, sizeNew, remain, seek, at, j, cmds', pos, start, done, total);
        seek := false;
      }
      TailEnds(j, cmds', pos, seek, at, done, total);
    }

    /** One run of the tail. */
    method TailRun(
      offsetNew: nat, sizeNew: nat, remain: nat, seekSet: bool, base: nat,
      ghost j: Job, ghost cmds: seq<Command>, ghost pos: nat, ghost start: seq<byte>, ghost done: nat,
      ghost total: nat)
      returns (remain': nat, base': nat, ghost cmds': seq<Command>, ghost done': nat)
      requires JobOk(j) && 0 < remain && TailSource(newFile, j, offsetNew, sizeNew)
      requires Tailing(j, cmds, pos, seekSet, base, done, remain, total) && patch == start + EncodeAll(cmds)
      modifies this
      ensures patch == start + EncodeAll(cmds') && remain' < remain
      ensures Tailing(j, cmds', pos, false, base', done', remain', total)
    {
      var n := if remain > RUN_LIMIT then RUN_LIMIT else remain;
      var from := offsetNew + sizeNew - remain;
      var buffer := newFile[from..from + n];
      TailBytes(newFile, offsetNew, j, done, n, from, buffer);
      base', cmds' := FlushRun(seekSet, base, buffer, from + n, j, cmds, pos, done, done + n, start);
      remain', done' := remain - n, done + n;
    }

    /** The next byte of both ranges; a chunk of each is loaded whenever one begins. */
    method NextBytes(
      offsetOld: nat, offsetNew: nat, common: nat, i: nat, chunkOld: seq<byte>, chunkNew: seq<byte>,
      ghost a: seq<byte>, ghost b: seq<byte>)
      returns (chunkOld': seq<byte>, chunkNew': seq<byte>, x: byte, y: byte)
      requires i < common <= |a| && common <= |b|
      requires offsetOld + common <= |oldFile| && a[..common] == oldFile[offsetOld..offsetOld + common]
      requires offsetNew + common <= |newFile| && b[..common] == newFile[offsetNew..offsetNew + common]
      requires Loaded(a, common, i, chunkOld) && Loaded(b, common, i, chunkNew)
      ensures Loaded(a, common, i + 1, chunkOld') && Loaded(b, common, i + 1, chunkNew')
      ensures x == a[i] && y == b[i]
    {
      var r := i % CHUNK;
      LoadedChunk(a, common, i, r, chunkOld);
      LoadedChunk(b, common, i, r, chunkNew);
      chunkOld', chunkNew' := LoadChunks(offsetOld, offsetNew, common, i, r, chunkOld, chunkNew, a, b);
      FromChunk(a, common, i, r, chunkOld');
      FromChunk(b, common, i, r, chunkNew');
      x, y := chunkOld'[r], chunkNew'[r];
    }

    /** At the beginning of a chunk, both are loaded. */
    method LoadChunks(
      offsetOld: nat, offsetNew: nat, common: nat, i: nat, r: nat, chunkOld: seq<byte>, chunkNew: seq<byte>,
      ghost a: seq<byte>, ghost b: seq<byte>)
      returns (chunkOld': seq<byte>, chunkNew': seq<byte>)
      requires r <= i < common <= |a| && common <= |b|
      requires offsetOld + common <= |oldFile| && a[..common] == oldFile[offsetOld..offsetOld + common]
      requires offsetNew + common <= |newFile| && b[..common] == newFile[offsetNew..offsetNew + common]
      requires r != 0 ==> ChunkAt(a, common, i - r, chunkOld) && ChunkAt(b, common, i - r, chunkNew)
      ensures ChunkAt(a, common, i - r, chunkOld') && ChunkAt(b, common, i - r, chunkNew')
    {
      chunkOld', chunkNew' := chunkOld, chunkNew;
      if r == 0 {
        var n := if common - i > CHUNK then CHUNK else common - i;
        chunkOld' := oldFile[offsetOld + i..offsetOld + i + n];
        chunkNew' := newFile[offsetNew + i..offsetNew + i + n];
        SliceOf(oldFile, offsetOld, common, a, i, n);
        SliceOf(newFile, offsetNew, common, b, i, n);
      }
    }

    /** The loop over the common part. */
    method DiffCommon(
      offsetOld: nat, offsetNew: nat, common: nat, ghost j: Job, ghost pos: nat)
      returns (seekSet: bool, base: nat, ghost cmds: seq<Command>)
      requires JobOk(j) && offsetNew == j.at && common == Common(j)
      requires offsetOld + common <= |oldFile| && j.a[..common] == oldFile[offsetOld..offsetOld + common]
      requires offsetNew + common <= |newFile| && j.b[..common] == newFile[offsetNew..offsetNew + common]
      modifies this
      ensures patch == old(patch) + EncodeAll(cmds) && Payload(cmds) == Differences(j.a, j.b, common)
      ensures Reached(j, cmds, pos, seekSet, base, common)
    {
      ghost var start := patch;
      var buffer: seq<byte> := [];
      seekSet, base, cmds := true, 0, [];
      ghost var m := 0;
      ReachedAtStart(j, pos);
      var chunkOld: seq<byte>, chunkNew: seq<byte> := [], [];
      for i := 0 to common
        invariant Diffing(j, cmds, pos, seekSet, base, buffer, m, i) && patch == start + EncodeAll(cmds)
        invariant Loaded(j.a, common, i, chunkOld) && Loaded(j.b, common, i, chunkNew)
      {
        var x, y;
        chunkOld, chunkNew, x, y := NextBytes(offsetOld, offsetNew, common, i, chunkOld, chunkNew, j.a, j.b);
        seekSet, base, buffer, cmds, m :=
          DiffByte(offsetNew, i, x, y, seekSet, base, buffer, j, cmds, pos, start, m);
      }
      seekSet, base, cmds := EndRun(seekSet, base, buffer, offsetNew + common, j, cmds, pos, m, common, start);
    }

    /** Writes out a run that reaches the end of the common part. */
    method EndRun(
      seekSet: bool, base: nat, buffer: seq<byte>, end: nat,
      ghost j: Job, ghost cmds: seq<Command>, ghost pos: nat, ghost m: nat, ghost i: nat, ghost start: seq<byte>)
      returns (seekSet': bool, base': nat, ghost cmds': seq<Command>)
      requires JobOk(j) && Diffing(j, cmds, pos, seekSet, base, buffer, m, i) && end == j.at + i && i == Common(j)
      requires patch == start + EncodeAll(cmds)
      modifies this
      ensures Reached(j, cmds', pos, seekSet', base', i) && patch == start + EncodeAll(cmds')
      ensures Payload(cmds') == Differences(j.a, j.b, i)
    {
      seekSet', base', cmds' := seekSet, base, cmds;
      if |buffer| != 0 {
        base', cmds' := FlushRun(seekSet, base, buffer, end, j, cmds, pos, m, i, start);
        seekSet' := false;
      }
    }

    /** createPatchFile: commands that bring the range `b` of the new file where it differs from the range `a`
        of the old one; they carry exactly the bytes that differ and those by which it grows. */
    method CreateRange(
      offsetOld: nat, sizeOld: nat, offsetNew: nat, sizeNew: nat, ghost j: Job, ghost pos: nat)
      returns (ghost cmds: seq<Command>)
      requires offsetOld + sizeOld <= |oldFile| && offsetNew + sizeNew <= |newFile|
      requires j.a == oldFile[offsetOld..offsetOld + sizeOld] && j.b == newFile[offsetNew..offsetNew + sizeNew]
      requires j.at == offsetNew && JobOk(j)
      modifies this
      ensures patch == old(patch) + EncodeAll(cmds) && Finished(j, cmds, pos)
      ensures Payload(cmds) == Differences(j.a, j.b, Common(j)) + |j.b| - Common(j)
    {
      var common := if sizeOld < sizeNew then sizeOld else sizeNew;
      var seekSet, base;
      seekSet, base, cmds := DiffCommon(offsetOld, offsetNew, common, j, pos);
      if sizeNew > sizeOld {
        cmds := WriteTail(offsetNew, sizeOld, sizeNew, seekSet, base, j, cmds, pos, old(patch));
      } else {
        ReachedEnd(j, cmds, pos, seekSet, base, common);
      }
    }

    /** writeChangeSize. */
    method WriteChangeSize(size: nat)
      modifies this
      ensures patch == old(patch) + Encode(ChangeSize(size))
    {
      patch := patch + ([4] + Le(size, 8));
    }

    /** writeMove. */
    method WriteMove(from: nat, to: nat, size: nat)
      modifies this
      ensures patch == old(patch) + Encode(Move(from, to, size))
    {
      patch := patch + ([2] + (Le(from, 8) + Le(to, 8) + Le(size, 8)));
    }

    /** The commands for the whole file. */
    method WriteCommands() returns (ghost cmds: seq<Command>)
      requires |oldFile| < N64_LIMIT && |newFile| < N64_LIMIT
      modifies this
      ensures patch == old(patch) + EncodeAll(cmds) && Turns(cmds, oldFile, newFile)
      ensures Payload(cmds) == Differences(oldFile, newFile, Min(|oldFile|, |newFile|))
        + |newFile| - Min(|oldFile|, |newFile|)
    {
      ghost var start := patch;
      ghost var j := Job(oldFile, newFile, 0, oldFile);
      WholeJob(oldFile, newFile);
      ghost var writes := CreateRange(0, |oldFile|, 0, |newFile|, j, 0);
      cmds := writes;
      if |newFile| < |oldFile| {
        WriteChangeSize(|newFile|);
        cmds := writes + [ChangeSize(|newFile|)];
        Associate(start, EncodeAll(writes), Encode(ChangeSize(|newFile|)));
      }
      WholeCommands(oldFile, newFile, writes, cmds);
    }

    /** The end of the file, and the header once more, now that the offset behind the commands is known. */
    method CloseFile(ghost cmds: seq<Command>)
      requires patch == Header(0) + EncodeAll(cmds)
      modifies this
      ensures patch == PatchFile(cmds)
    {
      patch := patch + [0];
      var ext := |patch|;
      patch := patch + Le(ext + 8, 8);
      patch := Header(ext) + patch[HEADER_SIZE..];
      FileParts(Header(0), EncodeAll(cmds), [0], Le(ext + 8, 8), Header(ext));
      assert Encode(Over) == [0];
    }

    /** CreatePatchFile for files without a known structure. */
    method CreatePatch() returns (ghost cmds: seq<Command>)
      requires |oldFile| < N64_LIMIT && |newFile| < N64_LIMIT
      modifies this
      ensures patch == PatchFile(cmds) && Turns(cmds, oldFile, newFile)
      ensures Payload(cmds) == Differences(oldFile, newFile, Min(|oldFile|, |newFile|))
        + |newFile| - Min(|oldFile|, |newFile|)
    {
      patch := Header(0);
      cmds := WriteCommands();
      CloseFile(cmds);
    }
  }

  /** The commands turn the old file into the new one, and are no checks. */
  ghost predicate Turns(cmds: seq<Command>, oldFile: seq<byte>, newFile: seq<byte>) {
    && (forall i :: 0 <= i < |cmds| ==> WellFormed(cmds[i]) && (cmds[i].SeekWrite? || cmds[i].ChangeSize?))
    && ExecuteAll(Target(oldFile, 0), cmds).data == newFile
  }

  /** With the size cut down where the new file is shorter, the writes make the new file. */
  lemma WholeCommands(oldFile: seq<byte>, newFile: seq<byte>, writes: seq<Command>, cmds: seq<Command>)
    requires |oldFile| < N64_LIMIT && |newFile| < N64_LIMIT
    requires Finished(Job(oldFile, newFile, 0, oldFile), writes, 0)
    requires cmds == if |newFile| < |oldFile| then writes + [ChangeSize(|newFile|)] else writes
    ensures Turns(cmds, oldFile, newFile) && Payload(cmds) == Payload(writes)
    ensures |newFile| < |oldFile| ==> EncodeAll(cmds) == EncodeAll(writes) + Encode(ChangeSize(|newFile|))
  {
    WholeJob(oldFile, newFile);
    if |newFile| < |oldFile| {
      var c := ChangeSize(|newFile|);
      ExecuteSnoc(Target(oldFile, 0), writes, c);
      EncodeSnoc(writes, c);
      assert (writes + [c])[..|writes|] == writes;
      assert Resize(WriteAt(oldFile, 0, newFile), |newFile|) == newFile;
    } else {
      assert WriteAt(oldFile, 0, newFile) == newFile;
    }
  }

  lemma WholeJob(oldFile: seq<byte>, newFile: seq<byte>)
    requires |newFile| < N64_LIMIT
    ensures JobOk(Job(oldFile, newFile, 0, oldFile)) && Effective(Job(oldFile, newFile, 0, oldFile)) == newFile
    ensures oldFile[0..|oldFile|] == oldFile && newFile[0..|newFile|] == newFile
  {
    CarriedIsNew(Job(oldFile, newFile, 0, oldFile));
  }

  lemma FileParts(start: seq<byte>, a: seq<byte>, b: seq<byte>, c: seq<byte>, head: seq<byte>)
    ensures head + (start + a + b + c)[|start|..] == head + a + b + c
  {
  }

  lemma ReachedEnd(j: Job, cmds: seq<Command>, pos: nat, seekSet: bool, base: nat, m: nat)
    requires m == |j.b| && Reached(j, cmds, pos, seekSet, base, m)
    ensures Finished(j, cmds, pos)
  {
    assert Effective(j)[..m] == Effective(j);
  }

  /** The new range as it stands in the new file. */
  predicate TailSource(newFile: seq<byte>, j: Job, offsetNew: nat, sizeNew: nat) {
    && offsetNew == j.at && sizeNew == |j.b| && offsetNew + sizeNew <= |newFile|
    && j.b == newFile[offsetNew..offsetNew + sizeNew]
  }

  lemma TailBegins(
    j: Job, cmds: seq<Command>, pos: nat, seekSet: bool, base: nat, done: nat, remain: nat, total: nat)
    requires Common(j) == done && done + remain == |j.b| && total == Payload(cmds) + remain
    requires Reached(j, cmds, pos, seekSet, base, done)
    ensures Tailing(j, cmds, pos, seekSet, base, done, remain, total)
  {
  }

  lemma TailEnds(j: Job, cmds: seq<Command>, pos: nat, seekSet: bool, base: nat, done: nat, total: nat)
    requires Tailing(j, cmds, pos, seekSet, base, done, 0, total)
    ensures Finished(j, cmds, pos) && Payload(cmds) == total
  {
    ReachedEnd(j, cmds, pos, seekSet, base, done);
  }

  /** The commands are all writes: they bring new bytes where the two ranges differ, each of them a whole run, and leave
      all else alone. */
  ghost predicate Finished(j: Job, cmds: seq<Command>, pos: nat) {
    && AllWrites(cmds) && ExecuteAll(Target(j.f, pos), cmds).data == WriteAt(j.f, j.at, Effective(j))
    && InRuns(j, cmds)
  }

  /** A run stops where the bytes agree. */
  lemma RunStops(j: Job, m: nat, i: nat)
    requires m < i < Common(j) && i - m <= RUN_LIMIT && j.a[i] == j.b[i] && forall x :: m <= x < i ==> j.a[x] != j.b[x]
    ensures IsRun(j.a, j.b, Common(j), m, i)
  {
  }

  lemma RunGrows(
    j: Job, cmds: seq<Command>, pos: nat, seekSet: bool, base: nat, buffer: seq<byte>, m: nat, i: nat)
    requires Diffing(j, cmds, pos, seekSet, base, buffer, m, i) && i < Common(j) && j.a[i] != j.b[i]
    ensures buffer + [j.b[i]] == Effective(j)[m..i + 1]
    ensures Payload(cmds) + |buffer| + 1 == Differences(j.a, j.b, i + 1)
    ensures |buffer| + 1 < RUN_LIMIT ==> Diffing(j, cmds, pos, seekSet, base, buffer + [j.b[i]], m, i + 1)
    ensures |buffer| + 1 >= RUN_LIMIT ==> IsRun(j.a, j.b, Common(j), m, i + 1)
  {
    SliceGrows(Effective(j), m, i);
    OneMoreDiffers(j.a, j.b, i);
  }

  lemma NewRun(j: Job, cmds: seq<Command>, pos: nat, base: nat, i: nat)
    requires i <= Common(j) && Reached(j, cmds, pos, false, base, i) && Payload(cmds) == Differences(j.a, j.b, i)
    ensures Diffing(j, cmds, pos, false, base, [], i, i)
  {
  }

  lemma SliceGrows(b: seq<byte>, m: nat, i: nat)
    requires m <= i < |b|
    ensures b[m..i] + [b[i]] == b[m..i + 1]
  {
  }

  lemma OneMoreDiffers(a: seq<byte>, b: seq<byte>, i: nat)
    requires i < |a| && i < |b| && a[i] != b[i]
    ensures Differences(a, b, i + 1) == Differences(a, b, i) + 1
  {
  }
}
