/** The whole patch of a file with a header and parts (src/patch.cpp, CreatePatchFile and createNcchPatchFile): a check
    of the header, the parts, the header, and the size. */
module PatchNcch {
  import opened Bytes
  import opened PatchFormat
  import opened PatchDiff
  import opened PatchApply
  import opened PatchMoves
  import opened PatchParts

  /** The header: a signature, and behind it the part that is checked. */
  const HEADER: nat := 0x200
  const CHECKED: nat := 0x100

  type Sha = f: seq<byte> -> seq<byte> | forall x :: |f(x)| == 32 witness x => Repeated(0, 32)

  function CheckedPart(file: seq<byte>): seq<byte>
    requires HEADER <= |file|
  {
    file[CHECKED..HEADER]
  }

  function HeaderCheck(newFile: seq<byte>, sha: Sha): Command
    requires HEADER <= |newFile|
  {
    Check(CHECKED, HEADER - CHECKED, sha(CheckedPart(newFile)))
  }

  // ----- What the commands make -----

  /** The file once the parts and the header have been patched. */
  function HeadedFile(oldFile: seq<byte>, newFile: seq<byte>, a: seq<Part>, b: seq<Part>): seq<byte>
    requires |a| == |b| && Fit(a, |oldFile|) && Fit(b, |newFile|) && HEADER <= |oldFile| && HEADER <= |newFile|
  {
    DiffedFile(Result(oldFile, newFile, a, b), oldFile[0..HEADER], newFile[0..HEADER], Part(0, HEADER))
  }

  function NcchFile(oldFile: seq<byte>, newFile: seq<byte>, a: seq<Part>, b: seq<Part>): seq<byte>
    requires |a| == |b| && Fit(a, |oldFile|) && Fit(b, |newFile|) && HEADER <= |oldFile| && HEADER <= |newFile|
  {
    var f := HeadedFile(oldFile, newFile, a, b);
    if |newFile| < |oldFile| then Resize(f, |newFile|) else f
  }

  /** No part reaches into the header. */
  predicate BehindHeader(a: seq<Part>, b: seq<Part>)
    requires |a| == |b|
  {
    forall i :: 0 <= i < |b| && (a[i].size > 0 || b[i].size > 0) ==> HEADER <= b[i].offset
  }

  /** Where no fill is harmful, the header and all parts of the new file stand in the result. */
  lemma NcchArrives(oldFile: seq<byte>, newFile: seq<byte>, a: seq<Part>, b: seq<Part>)
    requires |a| == |b| && Ordered(a) && Ordered(b) && Fit(a, |oldFile|) && Fit(b, |newFile|)
    requires HEADER <= |oldFile| && HEADER <= |newFile| && BehindHeader(a, b) && FillsClear(a, b)
    ensures var f := NcchFile(oldFile, newFile, a, b);
      Holds(f, Part(0, HEADER), newFile) && Arrived(f, newFile, b)
  {
    var r := Result(oldFile, newFile, a, b);
    ClearFillsArrive(oldFile, newFile, a, b);
    HeaderKept(r, oldFile, newFile, a, b);
    HeaderDiffed(r, oldFile, newFile);
    var f, n := HeadedFile(oldFile, newFile, a, b), |newFile|;
    CutKeeps(f, newFile, Part(0, HEADER));
    forall i | 0 <= i < |b| && b[i].size > 0 ensures Holds(NcchFile(oldFile, newFile, a, b), b[i], newFile) {
      assert StandsAt(r, oldFile, newFile, a[i], b[i], AllDone(|a|)[i]);
      PartBehind(r, f, newFile, b[i]);
      CutKeeps(f, newFile, b[i]);
    }
  }

  /** Handling the parts leaves the header as it was. */
  lemma HeaderKept(r: seq<byte>, oldFile: seq<byte>, newFile: seq<byte>, a: seq<Part>, b: seq<Part>)
    requires |a| == |b| && HEADER <= |oldFile| && BehindHeader(a, b)
    requires Standing(r, oldFile, newFile, a, b, AllDone(|a|))
    ensures Holds(r, Part(0, HEADER), oldFile)
  {
    forall x | 0 <= x < HEADER ensures x < |r| && r[x] == oldFile[x] {
      assert Kept(r, oldFile, a, b, x);
    }
  }

  /** The diff of the header then gives the new one and touches nothing behind it. */
  lemma HeaderDiffed(r: seq<byte>, oldFile: seq<byte>, newFile: seq<byte>)
    requires HEADER <= |oldFile| && HEADER <= |newFile| && Holds(r, Part(0, HEADER), oldFile)
    ensures
      var f := DiffedFile(r, oldFile[0..HEADER], newFile[0..HEADER], Part(0, HEADER));
      && Holds(f, Part(0, HEADER), newFile) && |f| == |r| && forall x :: HEADER <= x < |r| ==> f[x] == r[x]
  {
    var x, y := oldFile[0..HEADER], newFile[0..HEADER];
    var j := Job(x, y, 0, r);
    assert r[0..HEADER] == x;
    CarriedIsNew(j);
    var f := WriteAt(r, 0, y);
    assert f[0..HEADER] == y;
  }

  lemma PartBehind(r: seq<byte>, f: seq<byte>, newFile: seq<byte>, q: Part)
    requires HEADER <= q.offset && Holds(r, q, newFile)
    requires |f| == |r| && forall x :: HEADER <= x < |r| ==> f[x] == r[x]
    ensures Holds(f, q, newFile)
  {
    assert f[q.offset..End(q)] == r[q.offset..End(q)];
  }

  /** Cutting a file down to the size of the new one keeps what stands in the new one. */
  lemma CutKeeps(f: seq<byte>, newFile: seq<byte>, q: Part)
    requires Holds(f, q, newFile)
    ensures Holds(Resize(f, |newFile|), q, newFile)
  {
    var n := |newFile|;
    assert Resize(f, n)[q.offset..End(q)] == f[q.offset..End(q)];
  }

  lemma ResultReaches(oldFile: seq<byte>, newFile: seq<byte>, a: seq<Part>, b: seq<Part>)
    requires |a| == |b| && Fit(a, |oldFile|) && Fit(b, |newFile|)
    ensures ReachesTo(|Result(oldFile, newFile, a, b)|, |oldFile|, a, b, Undone(|a|))
    ensures |Result(oldFile, newFile, a, b)| >= |oldFile|
  {
    LengthIs(oldFile, oldFile, newFile, a, b, Undone(|a|));
  }

  /** Where handling a part ends: at the end of the new part, or of the fill behind it. */
  function Edge(p: Part, q: Part): nat { if p.size == 0 && q.size == 0 then 0 else q.offset + Max(p.size, q.size) }

  /** `size` is the larger of `n` and the furthest edge of a part that waits. */
  ghost predicate ReachesTo(size: nat, n: nat, a: seq<Part>, b: seq<Part>, done: seq<bool>)
    requires |a| == |b| == |done|
  {
    && n <= size && (forall i :: 0 <= i < |a| && !done[i] ==> Edge(a[i], b[i]) <= size)
    && (size == n || exists i :: 0 <= i < |a| && !done[i] && size == Edge(a[i], b[i]))
  }

  lemma HandledLength(f: seq<byte>, oldFile: seq<byte>, newFile: seq<byte>, p: Part, q: Part)
    requires End(p) <= |oldFile| <= |f| && End(q) <= |newFile|
    ensures |HandledFile(f, oldFile, newFile, p, q)| == Max(|f|, Edge(p, q))
  {
    var x, y := oldFile[p.offset..End(p)], newFile[q.offset..End(q)];
    MovedLength(f, p, q);
    DiffedLength(MovedFile(f, p, q), x, y, q);
    FilledIs(DiffedFile(MovedFile(f, p, q), x, y, q), p, q);
    var h := HandledIs(f, oldFile, newFile, p, q, x, y);
  }

  lemma MovedLength(f: seq<byte>, p: Part, q: Part)
    requires End(p) <= |f|
    ensures |f| <= |MovedFile(f, p, q)| <= Max(|f|, if q.size == 0 then 0 else End(q))
  {
  }

  lemma DiffedLength(g: seq<byte>, x: seq<byte>, y: seq<byte>, q: Part)
    requires |y| == q.size
    ensures |DiffedFile(g, x, y, q)| == Max(|g|, if q.size == 0 then 0 else End(q))
  {
  }

  lemma FilledIs(f: seq<byte>, p: Part, q: Part)
    ensures |FilledFile(f, p, q)| == Max(|f|, if q.size < p.size then q.offset + p.size else 0)
  {
  }

  lemma ReachesStep(size: nat, n: nat, a: seq<Part>, b: seq<Part>, done: seq<bool>, i: nat)
    requires |a| == |b| == |done| && i < |a| && !done[i]
    requires ReachesTo(size, Max(n, Edge(a[i], b[i])), a, b, done[i := true])
    ensures ReachesTo(size, n, a, b, done)
  {
    forall k | 0 <= k < |a| && !done[k] ensures Edge(a[k], b[k]) <= size {
      assert k != i ==> !done[i := true][k];
    }
  }

  lemma {:induction false} LengthIs(
    f: seq<byte>, oldFile: seq<byte>, newFile: seq<byte>, a: seq<Part>, b: seq<Part>, done: seq<bool>)
    requires |a| == |b| == |done| && Fit(a, |oldFile|) && Fit(b, |newFile|) && |oldFile| <= |f|
    ensures ReachesTo(|HandleAll(f, oldFile, newFile, a, b, done)|, |f|, a, b, done)
    decreases Waiting(done)
  {
    if false in done {
      var i := NextFrom(a, b, done, |a| - 1);
      WaitingDrops(done, i);
      var h := HandledFile(f, oldFile, newFile, a[i], b[i]);
      HandledLength(f, oldFile, newFile, a[i], b[i]);
      LengthIs(h, oldFile, newFile, a, b, done[i := true]);
      ReachesStep(|HandleAll(h, oldFile, newFile, a, b, done[i := true])|, |f|, a, b, done, i);
    }
  }

  /** The size of the patched file: that of the new one if it is smaller than the old one, and else the furthest that
      the old file or a part or its fill reaches. */
  lemma NcchSize(oldFile: seq<byte>, newFile: seq<byte>, a: seq<Part>, b: seq<Part>)
    requires |a| == |b| && Fit(a, |oldFile|) && Fit(b, |newFile|) && HEADER <= |oldFile| && HEADER <= |newFile|
    ensures |newFile| < |oldFile| ==> |NcchFile(oldFile, newFile, a, b)| == |newFile|
    ensures |newFile| >= |oldFile| ==>
      ReachesTo(|NcchFile(oldFile, newFile, a, b)|, |oldFile|, a, b, Undone(|a|))
  {
    ResultReaches(oldFile, newFile, a, b);
    DiffedLength(Result(oldFile, newFile, a, b), oldFile[0..HEADER], newFile[0..HEADER], Part(0, HEADER));
  }

  // ----- Making the patch -----

  /** The position in the file once its header has been checked. */
  function CheckedTarget(oldFile: seq<byte>): Target { Target(oldFile, HEADER) }

  /** One check comes first, and no others follow. */
  ghost predicate OneCheck(cmds: seq<Command>, c: Command) { Extends([c], cmds) && cmds[0] == c }

  lemma FirstCommand(start: seq<byte>, t: Target, c: Command) returns (cmds: seq<Command>)
    requires WellFormed(c) && c.Check?
    ensures cmds == [c] && start + Encode(c) == start + EncodeAll(cmds) && Runnable(t, cmds) && OneCheck(cmds, c)
    ensures ExecuteAll(t, cmds) == t
  {
    var none: seq<Command> := [];
    cmds := none + [c];
    assert start + EncodeAll(none) == start;
    OneMore(start, t, none, c);
  }

  lemma StillOneCheck(cmds: seq<Command>, more: seq<Command>, c: Command)
    requires OneCheck(cmds, c) && Extends(cmds, more)
    ensures OneCheck(more, c)
  {
    assert more[..|cmds|] == cmds;
    forall i | 1 <= i < |more| ensures !more[i].Check? {
      assert i < |cmds| ==> more[i] == cmds[i];
    }
  }

  /** createNcchPatchFile: the check, the parts and the header. */
  method CreateHeaded(d: Differ, a: seq<Part>, b: seq<Part>, sha: Sha, ghost start: seq<byte>, ghost t: Target)
    returns (ghost cmds: seq<Command>)
    requires |a| == |b| && Fit(a, |d.oldFile|) && Fit(b, |d.newFile|)
    requires HEADER <= |d.oldFile| < N64_LIMIT && HEADER <= |d.newFile| < N64_LIMIT
    requires d.patch == start && t.data == d.oldFile
    modifies d
    ensures d.patch == start + EncodeAll(cmds) && Runnable(t, cmds) && OneCheck(cmds, HeaderCheck(d.newFile, sha))
    ensures ExecuteAll(t, cmds).data == HeadedFile(d.oldFile, d.newFile, a, b)
  {
    var c := HeaderCheck(d.newFile, sha);
    WriteCheck(d, c.offset, c.size, c.sha);
    ghost var first := FirstCommand(start, t, c);
    ghost var parts := PatchParts.PatchParts(d, a, b, start, t, first);
    StillOneCheck(first, parts, c);
    ResultReaches(d.oldFile, d.newFile, a, b);
    cmds := DiffPart(d, Part(0, HEADER), Part(0, HEADER), start, t, parts);
    StillOneCheck(parts, cmds, c);
  }

  /** The size of the new file, where it is the smaller one. */
  method CutSize(d: Differ, ghost start: seq<byte>, ghost t: Target, ghost cmds: seq<Command>)
    returns (ghost cmds': seq<Command>)
    requires d.patch == start + EncodeAll(cmds) && Runnable(t, cmds) && |d.newFile| < N64_LIMIT
    modifies d
    ensures d.patch == start + EncodeAll(cmds') && Runnable(t, cmds') && Extends(cmds, cmds')
    ensures ExecuteAll(t, cmds').data
      == if |d.newFile| < |d.oldFile| then Resize(ExecuteAll(t, cmds).data, |d.newFile|) else ExecuteAll(t, cmds).data
  {
    cmds' := cmds;
    if |d.newFile| < |d.oldFile| {
      d.WriteChangeSize(|d.newFile|);
      ghost var last := ChangeSize(|d.newFile|);
      OneMore(start, t, cmds, last);
      cmds' := cmds + [last];
    }
  }

  /** CreatePatchFile for such a file: the commands move only bytes that exist and make `NcchFile`. */
  method CreateNcch(d: Differ, a: seq<Part>, b: seq<Part>, sha: Sha) returns (ghost cmds: seq<Command>)
    requires |a| == |b| && Fit(a, |d.oldFile|) && Fit(b, |d.newFile|)
    requires HEADER <= |d.oldFile| < N64_LIMIT && HEADER <= |d.newFile| < N64_LIMIT
    modifies d
    ensures d.patch == PatchFile(cmds) && Runnable(CheckedTarget(d.oldFile), cmds)
    ensures OneCheck(cmds, HeaderCheck(d.newFile, sha))
    ensures ExecuteAll(CheckedTarget(d.oldFile), cmds).data == NcchFile(d.oldFile, d.newFile, a, b)
  {
    d.patch := PatchFormat.Header(0);
    ghost var start, t := d.patch, CheckedTarget(d.oldFile);
    ghost var headed := CreateHeaded(d, a, b, sha, start, t);
    cmds := CutSize(d, start, t, headed);
    StillOneCheck(headed, cmds, HeaderCheck(d.newFile, sha));
    d.CloseFile(cmds);
  }

  /** writeCheck. */
  method WriteCheck(d: Differ, offset: nat, size: nat, sha: seq<byte>)
    modifies d
    ensures d.patch == old(d.patch) + Encode(Check(offset, size, sha))
  {
    d.patch := d.patch + ([1] + (Le(offset, 8) + Le(size, 8) + sha));
  }

  // ----- Applying the patch -----

  /** What applying the patch does: nothing if the checked part of the header is the new one already, by its hash. */
  lemma NcchApplied(cmds: seq<Command>, oldFile: seq<byte>, newFile: seq<byte>, sha: Sha)
    returns (body: seq<byte>, tail: seq<byte>)
    requires HEADER <= |oldFile| && HEADER <= |newFile| && |EncodeAll(cmds)| < N64_LIMIT
    requires Runnable(CheckedTarget(oldFile), cmds) && OneCheck(cmds, HeaderCheck(newFile, sha))
    ensures Body(PatchFile(cmds)) == Some(body) && body == EncodeAll(cmds) + Encode(Over) + tail
    ensures RunChecks(body, oldFile, sha, false, 0)
      == Checked(sha(CheckedPart(oldFile)) == sha(CheckedPart(newFile)), HEADER)
    ensures MovesInside(body, CheckedTarget(oldFile))
    ensures Applied(PatchFile(cmds), oldFile, sha) ==
      if sha(CheckedPart(oldFile)) == sha(CheckedPart(newFile)) then AlreadyPatched
      else Patched(ExecuteAll(CheckedTarget(oldFile), cmds).data)
  {
    BodyOfFile(cmds);
    tail :| Body(PatchFile(cmds)) == Some(EncodeAll(cmds) + Encode(Over) + tail);
    body := EncodeAll(cmds) + Encode(Over) + tail;
    CheckFirst(cmds, oldFile, newFile, sha, tail);
    RunEncoded(cmds, tail, CheckedTarget(oldFile));
    InsideEncoded(cmds, tail, CheckedTarget(oldFile));
  }

  lemma CheckFirst(cmds: seq<Command>, oldFile: seq<byte>, newFile: seq<byte>, sha: Sha, tail: seq<byte>)
    requires HEADER <= |oldFile| && HEADER <= |newFile|
    requires Commands(cmds) && OneCheck(cmds, HeaderCheck(newFile, sha))
    ensures RunChecks(EncodeAll(cmds) + Encode(Over) + tail, oldFile, sha, false, 0)
      == Checked(sha(CheckedPart(oldFile)) == sha(CheckedPart(newFile)), HEADER)
  {
    var c, rest := cmds[0], cmds[1..];
    assert [c] + rest == cmds;
    assert WellFormed(c);
    EncodeFirst(c, rest, tail);
    var s := EncodeAll(rest) + Encode(Over) + tail;
    ParseEncoded(c, s);
    ACheck(Encode(c) + s, c, s, oldFile, sha, false, 0);
    assert Clip(oldFile, CHECKED, HEADER - CHECKED) == CheckedPart(oldFile);
    NoChecks(rest, tail, oldFile, sha, true, HEADER);
  }

  /** Making the patch of two such files and applying it to the old one: if the checked part of the header has
      changed, the header and every part of the new file stand in the result, as long as no fill is harmful. */
  method CreateAndApply(oldFile: seq<byte>, newFile: seq<byte>, a: seq<Part>, b: seq<Part>, sha: Sha)
    returns (patch: seq<byte>, ok: bool, patched: seq<byte>)
    requires |a| == |b| && Ordered(a) && Ordered(b) && Fit(a, |oldFile|) && Fit(b, |newFile|)
    requires HEADER <= |oldFile| < N64_LIMIT && HEADER <= |newFile| < N64_LIMIT && BehindHeader(a, b)
    ensures |patch| < N64_LIMIT ==> ok
    ensures |patch| < N64_LIMIT && sha(oldFile[0x100..0x200]) == sha(newFile[0x100..0x200]) ==> patched == oldFile
    ensures
      |patch| < N64_LIMIT && sha(oldFile[0x100..0x200]) != sha(newFile[0x100..0x200]) && FillsClear(a, b) ==>
        Holds(patched, Part(0, 0x200), newFile) && Arrived(patched, newFile, b)
    ensures |patch| < N64_LIMIT && sha(oldFile[0x100..0x200]) != sha(newFile[0x100..0x200]) ==>
      if |newFile| < |oldFile| then |patched| == |newFile|
      else ReachesTo(|patched|, |oldFile|, a, b, Undone(|a|))
  {
    var d := new Differ(oldFile, newFile);
    ghost var cmds := CreateNcch(d, a, b, sha);
    patch, ok, patched := d.patch, false, oldFile;
    if |patch| < N64_LIMIT {
      ghost var body, tail := NcchApplied(cmds, oldFile, newFile, sha);
      var image := new Image(oldFile);
      ok := image.ApplyPatch(patch, sha);
      patched := image.data;
      NcchSize(oldFile, newFile, a, b);
      if FillsClear(a, b) {
        NcchArrives(oldFile, newFile, a, b);
      }
    }
  }
}
