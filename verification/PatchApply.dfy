/** Applying a patch (src/patch.cpp, ApplyPatchFile): the command loop over the file being patched, and the
    chunked move that is safe for overlapping ranges. */
module PatchApply {
  import opened Bytes
  import opened PatchFormat
  import opened PatchDiff

  // ----- Running the commands -----

  /** Runs the stored commands up to the first Over; none if the stream is broken before it. */
  function RunPatch(s: seq<byte>, t: Target): Option<Target>
    decreases |s|
  {
    match Parse(s)
    case None => None
    case Some(p) => if p.command.Over? then Some(t) else RunPatch(p.rest, Execute(t, p.command))
  }

  /** Moves are only asked of bytes that exist. */
  predicate MovesInside(s: seq<byte>, t: Target)
    decreases |s|
  {
    match Parse(s)
    case None => true
    case Some(p) =>
      p.command.Over?
      || (InsideMove(t.data, p.command) && MovesInside(p.rest, Execute(t, p.command)))
  }

  /** Running what was written runs the commands. */
  lemma {:induction false} RunEncoded(cmds: seq<Command>, tail: seq<byte>, t: Target)
    requires Commands(cmds)
    ensures RunPatch(EncodeAll(cmds) + Encode(Over) + tail, t) == Some(ExecuteAll(t, cmds))
    decreases |cmds|
  {
    if cmds == [] {
      assert EncodeAll(cmds) + Encode(Over) + tail == Encode(Over) + tail;
      ParseEncoded(Over, tail);
    } else {
      var c, rest := cmds[0], cmds[1..];
      assert WellFormed(c) && !c.Over?;
      assert [c] + rest == cmds;
      EncodeFirst(c, rest, tail);
      ParseEncoded(c, EncodeAll(rest) + Encode(Over) + tail);
      RunEncoded(rest, tail, Execute(t, c));
      ExecuteFirst(t, c, rest);
    }
  }

  lemma EncodeFirst(c: Command, rest: seq<Command>, tail: seq<byte>)
    ensures EncodeAll([c] + rest) + Encode(Over) + tail == Encode(c) + (EncodeAll(rest) + Encode(Over) + tail)
  {
    EncodeConcat([c], rest);
    EncodeSnoc([], c);
    assert [] + [c] == [c];
    assert EncodeAll([c]) == Encode(c);
    Associate(Encode(c) + EncodeAll(rest), Encode(Over), tail);
    Associate(EncodeAll(rest), Encode(Over), tail);
    Associate(Encode(c), EncodeAll(rest), Encode(Over) + tail);
  }

  /** Stored commands move only bytes that exist if the commands do. */
  lemma {:induction false} InsideEncoded(cmds: seq<Command>, tail: seq<byte>, t: Target)
    requires Runnable(t, cmds)
    ensures MovesInside(EncodeAll(cmds) + Encode(Over) + tail, t)
    decreases |cmds|
  {
    if cmds == [] {
      assert EncodeAll(cmds) + Encode(Over) + tail == Encode(Over) + tail;
      ParseEncoded(Over, tail);
    } else {
      var c, rest := cmds[0], cmds[1..];
      assert [c] + rest == cmds;
      RunnableRest(t, c, rest);
      EncodeFirst(c, rest, tail);
      ParseEncoded(c, EncodeAll(rest) + Encode(Over) + tail);
      InsideEncoded(rest, tail, Execute(t, c));
    }
  }

  /** One step of a run. */
  lemma RunUnfold(s: seq<byte>, t: Target, c: Command, rest: seq<byte>)
    requires Parse(s) == Some(Parsed(c, rest)) && !c.Over? && MovesInside(s, t)
    ensures InsideMove(t.data, c) && MovesInside(rest, Execute(t, c))
    ensures RunPatch(s, t) == RunPatch(rest, Execute(t, c))
  {
  }

  // ----- The file being patched -----

  /** The file once the first `done` bytes have been moved. */
  function MovedDown(d: seq<byte>, from: nat, to: nat, done: nat): seq<byte>
    requires from + done <= |d|
  {
    WriteAt(d, to, d[from..from + done])
  }

  /** The file once all but the first `remain` of `size` bytes have been moved. */
  function MovedUp(d: seq<byte>, from: nat, to: nat, remain: nat, size: nat): seq<byte>
    requires remain <= size && from + size <= |d|
  {
    WriteAt(d, to + remain, d[from + remain..from + size])
  }

  lemma DownKeepsSize(d: seq<byte>, e: seq<byte>, from: nat, to: nat, done: nat)
    requires to < from && from + done <= |d| && e == MovedDown(d, from, to, done)
    ensures |e| == |d|
  {
  }

  lemma NextDown(d: seq<byte>, e: seq<byte>, chunk: seq<byte>, from: nat, to: nat, done: nat, n: nat)
    requires to < from && from + done + n <= |d| == |e| && 0 < n && e == MovedDown(d, from, to, done)
    requires chunk == e[from + done..from + done + n]
    ensures WriteAt(e, to + done, chunk) == MovedDown(d, from, to, done + n) && |chunk| == n
  {
    ForwardChunk(d, e, from, to, done, n);
  }

  /** An open file: its bytes and its position. */
  class Image {
    var data: seq<byte>
    var pos: nat

    constructor (data: seq<byte>)
      ensures this.data == data && this.pos == 0
    {
      this.data, this.pos := data, 0;
    }

    /** Seeks, filling the file up with zeros to the new position if it ends before it. */
    method SeekFilling(offset: nat)
      modifies this
      ensures pos == offset && data == if |old(data)| < offset then Resize(old(data), offset) else old(data)
    {
      if |data| < offset {
        data := data + Repeated(0, offset - |data|);
      }
      pos := offset;
    }

    method Write(bytes: seq<byte>)
      modifies this
      ensures data == WriteAt(old(data), old(pos), bytes) && pos == old(pos) + |bytes|
    {
      data := WriteAt(data, pos, bytes);
      pos := pos + |bytes|;
    }

    /** Writes a chunk at an offset. */
    method WriteChunk(offset: nat, chunk: seq<byte>, ghost result: seq<byte>)
      requires WriteAt(data, offset, chunk) == result
      modifies this
      ensures data == result && pos == offset + |chunk|
    {
      data := WriteAt(data, offset, chunk);
      pos := offset + |chunk|;
    }

    /** The next chunk of a downward move. */
    method ChunkDown(from: nat, to: nat, done: nat, n: nat, ghost d: seq<byte>)
      requires to < from && from + done + n <= |d| && 0 < n && data == MovedDown(d, from, to, done)
      modifies this
      ensures data == MovedDown(d, from, to, done + n) && pos == to + done + n
    {
      ghost var e := data;
      DownKeepsSize(d, e, from, to, done);
      var chunk := data[from + done..from + done + n];
      NextDown(d, e, chunk, from, to, done, n);
      WriteChunk(to + done, chunk, MovedDown(d, from, to, done + n));
    }

    /** Towards lower offsets the chunks go in order. */
    method MoveDown(from: nat, to: nat, size: nat)
      requires from + size <= |data| && to < from
      modifies this
      ensures data == WriteAt(old(data), to, old(data)[from..from + size])
      ensures pos == MovePosition(old(pos), from, to, size)
    {
      ghost var d := data;
      var remain: nat, done: nat := size, 0;
      while remain > 0
        invariant done + remain == size && data == MovedDown(d, from, to, done)
        invariant pos == if done == 0 then old(pos) else to + done
      {
        var n := if remain > MOVE_CHUNK then MOVE_CHUNK else remain;
        ChunkDown(from, to, done, n, d);
        remain, done := remain - n, done + n;
      }
    }

    /** The next chunk of an upward move. */
    method ChunkUp(from: nat, to: nat, remain: nat, n: nat, ghost d: seq<byte>, ghost size: nat)
      requires from < to && 0 < n && remain + n <= size && from + size <= |d|
      requires data == MovedUp(d, from, to, remain + n, size)
      modifies this
      ensures data == MovedUp(d, from, to, remain, size) && pos == to + remain + n
    {
      ghost var e := data;
      assert |e| >= |d|;
      var chunk := data[from + remain..from + remain + n];
      SeekFilling(to + remain);
      BackwardChunk(d, e, data, chunk, from, to, remain, n, size);
      WriteChunk(to + remain, chunk, MovedUp(d, from, to, remain, size));
    }

    /** Towards higher offsets the chunks go from the last to the first. */
    method MoveUp(from: nat, to: nat, size: nat)
      requires from + size <= |data| && from < to
      modifies this
      ensures data == WriteAt(old(data), to, old(data)[from..from + size])
      ensures pos == MovePosition(old(pos), from, to, size)
    {
      ghost var d := data;
      var remain: nat := size;
      while remain > 0
        invariant remain <= size && data == MovedUp(d, from, to, remain, size)
        invariant remain > 0 ==> (size - remain) % MOVE_CHUNK == 0
        invariant if remain > 0 || size == 0 then remain == size ==> pos == old(pos)
                  else pos == MovePosition(old(pos), from, to, size)
      {
        var n := if remain > MOVE_CHUNK then MOVE_CHUNK else remain;
        ChunkCount(size, remain, n);
        remain := remain - n;
        ChunkUp(from, to, remain, n, d, size);
      }
    }

    /** executeMove: no chunk is overwritten before it has been read. */
    method ExecuteMove(from: nat, to: nat, size: nat)
      requires from + size <= |data|
      modifies this
      ensures data == MoveBytes(old(data), from, to, size) && pos == MovePosition(old(pos), from, to, size)
    {
      if from != to {
        if from > to {
          MoveDown(from, to, size);
        } else {
          MoveUp(from, to, size);
        }
      } else {
        MoveNothing(data, from, size);
      }
    }

    /** executeSet, executeChangeSize, executeSeekWrite and executeMove. */
    method ExecuteCommand(c: Command)
      requires InsideMove(data, c)
      modifies this
      ensures Target(data, pos) == Execute(old(Target(data, pos)), c)
    {
      match c
      case Over =>
      case Check(offset, size, sha) =>
      case Move(from, to, size) =>
        ExecuteMove(from, to, size);
      case Set(start, size, value) =>
        pos := start;
        PadFile(size, value);
      case ChangeSize(size) =>
        data := Resize(data, size);
      case SeekWrite(seekSet, offset, bytes) =>
        pos := if seekSet then offset else pos + offset;
        Write(bytes);
    }

    /** PadFile: the same byte again and again, a chunk at a time. */
    method PadFile(size: nat, value: byte)
      modifies this
      ensures data == WriteAt(old(data), old(pos), Repeated(value, size)) && pos == old(pos) + size
    {
      ghost var d, at := data, pos;
      var remain: nat := size;
      assert Repeated(value, 0) == [];
      while remain > 0
        invariant remain <= size && pos == at + (size - remain)
        invariant data == WriteAt(d, at, Repeated(value, size - remain))
      {
        var n := if remain > MOVE_CHUNK then MOVE_CHUNK else remain;
        PadChunk(d, at, size - remain, n, value);
        Write(Repeated(value, n));
        remain := remain - n;
      }
    }

    /** One check. */
    method RunCheck(body: seq<byte>, at: nat, sha: seq<byte> -> seq<byte>, seen: bool)
      returns (more: bool, held: bool, at': nat)
      requires at <= |body|
      modifies this
      ensures data == old(data) && at' <= |body|
      ensures more ==>
        at < at' && RunChecks(body[at'..], data, sha, held, pos) == RunChecks(body[at..], data, sha, seen, old(pos))
      ensures !more ==> Checked(held, pos) == RunChecks(body[at..], data, sha, seen, old(pos))
    {
      more, held, at' := false, seen, at;
      var parsed := Parse(body[at..]);
      NotACheck(body[at..], data, sha, seen, pos);
      if parsed.Some? && parsed.value.command.Check? {
        var c := parsed.value.command;
        RestAt(body, at);
        at' := |body| - |parsed.value.rest|;
        ACheck(body[at..], c, body[at'..], data, sha, seen, pos);
        held := HashRange(c.offset, c.size, c.sha, sha);
        more := held;
      }
    }

    /** Hashes a range as far as the file has it. */
    method HashRange(offset: nat, size: nat, expected: seq<byte>, sha: seq<byte> -> seq<byte>) returns (held: bool)
      modifies this`pos
      ensures pos == offset + |Clip(data, offset, size)| && held == (sha(Clip(data, offset, size)) == expected)
    {
      var found := Clip(data, offset, size);
      pos := offset + |found|;
      held := sha(found) == expected;
    }

    /** ApplyPatchFile, the checks: true if there are any and all hold, in which case nothing is to be done. */
    method AlreadyHolds(body: seq<byte>, sha: seq<byte> -> seq<byte>) returns (held: bool)
      modifies this
      ensures data == old(data) && Checked(held, pos) == RunChecks(body, data, sha, false, old(pos))
    {
      held := false;
      var at, more := 0, true;
      assert body[0..] == body;
      while more
        invariant data == old(data) && at <= |body|
        invariant
          if more then RunChecks(body[at..], data, sha, held, pos) == RunChecks(body, data, sha, false, old(pos))
          else Checked(held, pos) == RunChecks(body, data, sha, false, old(pos))
        decreases more, |body| - at
      {
        more, held, at := RunCheck(body, at, sha, held);
      }
    }

    /** One turn of the command loop. */
    method RunCommand(body: seq<byte>, at: nat) returns (more: bool, ok: bool, at': nat)
      requires at <= |body| && MovesInside(body[at..], Target(data, pos))
      modifies this
      ensures at' <= |body|
      ensures more ==>
        && at < at' && MovesInside(body[at'..], Target(data, pos))
        && RunPatch(body[at'..], Target(data, pos)) == RunPatch(body[at..], old(Target(data, pos)))
      ensures !more ==> RunPatch(body[at..], old(Target(data, pos))) == if ok then Some(Target(data, pos)) else None
    {
      more, ok, at' := false, false, at;
      var parsed := Parse(body[at..]);
      if parsed.None? {
        return;
      }
      var c := parsed.value.command;
      if c.Over? {
        ok := true;
        return;
      }
      RestAt(body, at);
      more, at' := true, |body| - |parsed.value.rest|;
      StepCommand(body[at..], c, body[at'..]);
    }

    /** Executes the command that `s` begins with. */
    method StepCommand(ghost s: seq<byte>, c: Command, ghost rest: seq<byte>)
      requires Parse(s) == Some(Parsed(c, rest)) && !c.Over? && MovesInside(s, Target(data, pos))
      modifies this
      ensures MovesInside(rest, Target(data, pos))
      ensures RunPatch(rest, Target(data, pos)) == RunPatch(s, old(Target(data, pos)))
    {
      RunUnfold(s, Target(data, pos), c, rest);
      ExecuteCommand(c);
    }

    /** ApplyPatchFile, the command loop. */
    method RunCommands(body: seq<byte>) returns (ok: bool)
      requires MovesInside(body, Target(data, pos))
      modifies this
      ensures RunPatch(body, old(Target(data, pos))) == if ok then Some(Target(data, pos)) else None
    {
      var at, more := 0, true;
      ok := false;
      assert body[0..] == body;
      while more
        invariant at <= |body|
        invariant
          if more then
            && MovesInside(body[at..], Target(data, pos))
            && RunPatch(body[at..], Target(data, pos)) == RunPatch(body, old(Target(data, pos)))
          else RunPatch(body, old(Target(data, pos))) == if ok then Some(Target(data, pos)) else None
        decreases more, |body| - at
      {
        more, ok, at := RunCommand(body, at);
      }
    }

    /** ApplyPatchFile. */
    method ApplyPatch(patch: seq<byte>, sha: seq<byte> -> seq<byte>) returns (ok: bool)
      requires pos == 0
      requires
        var body := Body(patch);
        body.Some? ==> MovesInside(body.value, Target(data, RunChecks(body.value, data, sha, false, 0).pos))
      modifies this
      ensures
        match Applied(patch, old(data), sha)
        case Rejected => !ok && data == old(data)
        case AlreadyPatched => ok && data == old(data)
        case Patched(result) => ok && data == result
        case Broken => !ok
    {
      var body := Body(patch);
      if body.None? {
        return false;
      }
      var held := AlreadyHolds(body.value, sha);
      if held {
        return true;
      }
      ok := RunCommands(body.value);
    }
  }

  /** What a command leaves is the end of what there was. */
  lemma ParseRest(s: seq<byte>)
    ensures Parse(s).Some? ==> s[|s| - |Parse(s).value.rest|..] == Parse(s).value.rest
  {
  }

  lemma RestAt(body: seq<byte>, at: nat)
    requires at <= |body| && Parse(body[at..]).Some?
    ensures var r := Parse(body[at..]).value.rest; at < |body| - |r| && body[|body| - |r|..] == r
  {
    ParseRest(body[at..]);
    DropTwice(body, at, |body| - at - |Parse(body[at..]).value.rest|);
  }

  lemma DropTwice(s: seq<byte>, i: nat, j: nat)
    requires i + j <= |s|
    ensures s[i..][j..] == s[i + j..]
  {
  }

  lemma PadChunk(d: seq<byte>, at: nat, done: nat, n: nat, value: byte)
    requires 0 < n
    ensures WriteAt(WriteAt(d, at, Repeated(value, done)), at + done, Repeated(value, n))
      == WriteAt(d, at, Repeated(value, done + n))
  {
  }

  /** The chunks before the last are full, so the last one has what is left over. */
  lemma ChunkCount(size: nat, remain: nat, n: nat)
    requires 0 < n <= remain <= size && (size - remain) % MOVE_CHUNK == 0 && n == Min(remain, MOVE_CHUNK)
    ensures remain > n ==> (size - (remain - n)) % MOVE_CHUNK == 0
    ensures remain == n ==> (size - 1) % MOVE_CHUNK + 1 == n
  {
    var x: nat := size - remain;
    if remain > n {
      AddModulus(x, MOVE_CHUNK);
    } else {
      DivModUnique(size - 1, x / MOVE_CHUNK, n - 1, MOVE_CHUNK);
    }
  }

  lemma MoveNothing(d: seq<byte>, from: nat, size: nat)
    requires from + size <= |d|
    ensures WriteAt(d, from, d[from..from + size]) == d
  {
  }

  /** A chunk of a downward move: what it reads has not been written, and what it writes joins on. */
  lemma ForwardChunk(d: seq<byte>, e: seq<byte>, from: nat, to: nat, done: nat, n: nat)
    requires to < from && from + done + n <= |d| && 0 < n && e == WriteAt(d, to, d[from..from + done])
    ensures |e| == |d| && e[from + done..from + done + n] == d[from + done..from + done + n]
    ensures WriteAt(e, to + done, e[from + done..from + done + n]) == WriteAt(d, to, d[from..from + done + n])
  {
    AheadUnchanged(d, e, to, d[from..from + done], from + done, n);
    ChunksJoin(d, e, to, d[from..from + done], d[from + done..from + done + n]);
    SlicesJoin(d, from, from + done, from + done + n);
  }

  lemma AheadUnchanged(d: seq<byte>, e: seq<byte>, to: nat, x: seq<byte>, at: nat, n: nat)
    requires e == WriteAt(d, to, x) && to + |x| <= at && at + n <= |d|
    ensures |e| == |d| && e[at..at + n] == d[at..at + n]
  {
  }

  /** Writing one piece behind another is writing both at once. */
  lemma ChunksJoin(d: seq<byte>, e: seq<byte>, to: nat, x: seq<byte>, y: seq<byte>)
    requires e == WriteAt(d, to, x) && y != [] && to + |x| <= |d|
    ensures WriteAt(e, to + |x|, y) == WriteAt(d, to, x + y)
  {
  }

  /** A chunk of an upward move. */
  lemma BackwardChunk(
    d: seq<byte>, e: seq<byte>, f: seq<byte>, chunk: seq<byte>, from: nat, to: nat, remain: nat, n: nat, size: nat)
    requires from < to && 0 < n && remain + n <= size && from + size <= |d|
    requires e == MovedUp(d, from, to, remain + n, size)
    requires f == if |e| < to + remain then Resize(e, to + remain) else e
    requires from + remain + n <= |e| ==> chunk == e[from + remain..from + remain + n]
    ensures |e| >= |d| && WriteAt(f, to + remain, chunk) == MovedUp(d, from, to, remain, size)
  {
    assert chunk == d[from + remain..from + remain + n];
  }

  // ----- Whole patches -----

  /** The bytes of a range, as far as the file has them. */
  function Clip(data: seq<byte>, offset: nat, size: nat): seq<byte> {
    data[Min(offset, |data|)..Min(offset + size, |data|)]
  }

  /** Where the leading checks end: whether there were any and all held, and the position in the file. */
  datatype Checked = Checked(held: bool, pos: nat)

  function RunChecks(s: seq<byte>, data: seq<byte>, sha: seq<byte> -> seq<byte>, seen: bool, pos: nat): Checked
    decreases |s|
  {
    match Parse(s)
    case None => Checked(seen, pos)
    case Some(p) =>
      if !p.command.Check? then Checked(seen, pos)
      else
        var found := Clip(data, p.command.offset, p.command.size);
        if sha(found) != p.command.sha then Checked(false, p.command.offset + |found|)
        else RunChecks(p.rest, data, sha, true, p.command.offset + |found|)
  }

  /** The checks end at the first other command. */
  lemma NotACheck(s: seq<byte>, data: seq<byte>, sha: seq<byte> -> seq<byte>, seen: bool, pos: nat)
    ensures Parse(s).None? || !Parse(s).value.command.Check? ==>
      RunChecks(s, data, sha, seen, pos) == Checked(seen, pos)
  {
  }

  /** One check. */
  lemma ACheck(
    s: seq<byte>, c: Command, rest: seq<byte>, data: seq<byte>, sha: seq<byte> -> seq<byte>, seen: bool, pos: nat)
    requires Parse(s) == Some(Parsed(c, rest)) && c.Check?
    ensures
      var found := Clip(data, c.offset, c.size);
      RunChecks(s, data, sha, seen, pos) ==
        if sha(found) != c.sha then Checked(false, c.offset + |found|)
        else RunChecks(rest, data, sha, true, c.offset + |found|)
  {
  }

  /** What follows the header of a patch, if its header is found and its version is known. */
  function Body(patch: seq<byte>): Option<seq<byte>> {
    if |patch| < 8 then None
    else
      var n := FromLe(patch[|patch| - 8..]);
      if n < HEADER_SIZE || n > |patch| then None
      else
        var h := patch[|patch| - n..];
        if h[..4] != SIGNATURE || h[4] as int * 0x10000 + h[5] as int * 0x100 + h[6] as int > 0x10000 then None
        else Some(h[HEADER_SIZE..])
  }

  datatype Outcome = Rejected | AlreadyPatched | Patched(data: seq<byte>) | Broken

  function Applied(patch: seq<byte>, data: seq<byte>, sha: seq<byte> -> seq<byte>): Outcome {
    match Body(patch)
    case None => Rejected
    case Some(body) =>
      var checks := RunChecks(body, data, sha, false, 0);
      if checks.held then AlreadyPatched
      else
        match RunPatch(body, Target(data, checks.pos))
        case None => Broken
        case Some(t) => Patched(t.data)
  }

  /** The body of a written patch. */
  lemma BodyOfFile(cmds: seq<Command>)
    requires |EncodeAll(cmds)| < N64_LIMIT
    ensures exists tail :: Body(PatchFile(cmds)) == Some(EncodeAll(cmds) + Encode(Over) + tail)
  {
    var ext := HEADER_SIZE + |EncodeAll(cmds)| + 1;
    var file, tail := PatchFile(cmds), Le(ext + 8, 8);
    Capacities();
    LeRoundTrip(ext + 8, 8);
    assert file[|file| - 8..] == tail;
    assert file[|file| - (ext + 8)..] == file;
    FileHeader(cmds, file);
    assert Body(file) == Some(EncodeAll(cmds) + Encode(Over) + tail);
  }

  lemma FileHeader(cmds: seq<Command>, file: seq<byte>)
    requires file == PatchFile(cmds)
    ensures file[..4] == SIGNATURE && file[4] == 1 && file[5] == 0 && file[6] == 0
    ensures file[HEADER_SIZE..]
      == EncodeAll(cmds) + Encode(Over) + Le(HEADER_SIZE + |EncodeAll(cmds)| + 9, 8)
  {
    var ext := HEADER_SIZE + |EncodeAll(cmds)| + 1;
    var head, rest := Header(ext), EncodeAll(cmds) + Encode(Over) + Le(ext + 8, 8);
    Associate(head, EncodeAll(cmds), Encode(Over));
    Associate(head, EncodeAll(cmds) + Encode(Over), Le(ext + 8, 8));
    HeaderFields(ext);
    HeadThenRest(file, head, rest);
  }

  lemma HeadThenRest(file: seq<byte>, head: seq<byte>, rest: seq<byte>)
    requires file == head + rest && |head| == HEADER_SIZE
    ensures file[..4] == head[..4] && file[4] == head[4] && file[5] == head[5] && file[6] == head[6]
    ensures file[HEADER_SIZE..] == rest
  {
  }

  lemma HeaderFields(ext: nat)
    ensures var h := Header(ext); h[..4] == SIGNATURE && h[4] == 1 && h[5] == 0 && h[6] == 0
  {
    assert Header(ext) == SIGNATURE + ([1, 0, 0, 0] + Le(ext, 8));
  }

  /** Without checks at the front the patch is always applied. */
  lemma NoChecks(
    cmds: seq<Command>, tail: seq<byte>, data: seq<byte>, sha: seq<byte> -> seq<byte>, seen: bool, pos: nat)
    requires Commands(cmds) && (cmds != [] ==> !cmds[0].Check?)
    ensures RunChecks(EncodeAll(cmds) + Encode(Over) + tail, data, sha, seen, pos) == Checked(seen, pos)
  {
    if cmds == [] {
      assert EncodeAll(cmds) + Encode(Over) + tail == Encode(Over) + tail;
      ParseEncoded(Over, tail);
    } else {
      assert [cmds[0]] + cmds[1..] == cmds;
      EncodeFirst(cmds[0], cmds[1..], tail);
      ParseEncoded(cmds[0], EncodeAll(cmds[1..]) + Encode(Over) + tail);
    }
  }

  /** What applying the patch file of such commands does, and that it moves only bytes that exist. */
  lemma AppliedIs(cmds: seq<Command>, data: seq<byte>, sha: seq<byte> -> seq<byte>)
    returns (body: seq<byte>, tail: seq<byte>)
    requires |EncodeAll(cmds)| < N64_LIMIT && (cmds != [] ==> !cmds[0].Check?) && Runnable(Target(data, 0), cmds)
    ensures Body(PatchFile(cmds)) == Some(body) && body == EncodeAll(cmds) + Encode(Over) + tail
    ensures RunChecks(body, data, sha, false, 0) == Checked(false, 0) && MovesInside(body, Target(data, 0))
    ensures Applied(PatchFile(cmds), data, sha) == Patched(ExecuteAll(Target(data, 0), cmds).data)
  {
    BodyOfFile(cmds);
    tail :| Body(PatchFile(cmds)) == Some(EncodeAll(cmds) + Encode(Over) + tail);
    body := EncodeAll(cmds) + Encode(Over) + tail;
    NoChecks(cmds, tail, data, sha, false, 0);
    RunEncoded(cmds, tail, Target(data, 0));
    InsideEncoded(cmds, tail, Target(data, 0));
  }

  /** Commands that turn one file into another move nothing. */
  lemma TurnsRunnable(cmds: seq<Command>, oldFile: seq<byte>, newFile: seq<byte>)
    requires Turns(cmds, oldFile, newFile)
    ensures Runnable(Target(oldFile, 0), cmds) && (cmds != [] ==> !cmds[0].Check?)
  {
  }

  /** The round trip: whatever commands turn the old file into the new one, applying their patch file to
      the old file gives exactly the new one. */
  lemma RoundTrip(
    cmds: seq<Command>, oldFile: seq<byte>, newFile: seq<byte>, sha: seq<byte> -> seq<byte>)
    requires Turns(cmds, oldFile, newFile) && |EncodeAll(cmds)| < N64_LIMIT
    ensures Applied(PatchFile(cmds), oldFile, sha) == Patched(newFile)
  {
    TurnsRunnable(cmds, oldFile, newFile);
    var body, tail := AppliedIs(cmds, oldFile, sha);
  }

  /** Making the patch of any two files without a known structure and applying it to the old one gives the new one,
      as long as the length of the patch fits in the source's integers. */
  method CreateAndApply(oldFile: seq<byte>, newFile: seq<byte>, sha: seq<byte> -> seq<byte>)
    returns (patch: seq<byte>, ok: bool, patched: seq<byte>)
    requires |oldFile| < N64_LIMIT && |newFile| < N64_LIMIT
    ensures |patch| < N64_LIMIT ==> ok && patched == newFile
  {
    var d := new Differ(oldFile, newFile);
    ghost var cmds := d.CreatePatch();
    patch, ok, patched := d.patch, false, oldFile;
    if |patch| < N64_LIMIT {
      TurnsRunnable(cmds, oldFile, newFile);
      ghost var body, tail := AppliedIs(cmds, oldFile, sha);
      var image := new Image(oldFile);
      ok := image.ApplyPatch(patch, sha);
      patched := image.data;
    }
  }
}
