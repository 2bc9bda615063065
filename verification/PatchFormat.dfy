/** The commands of a patch file (src/patch.cpp): how they are stored, how they are read back, and what
    they do to the file being patched. */
module PatchFormat {
  import opened Bytes

  // ----- Integers of one, two, four and eight bytes -----

  function Le(x: nat, k: nat): (s: seq<byte>)
    ensures |s| == k
  {
    if k == 0 then [] else [x % 256] + Le(x / 256, k - 1)
  }

  function FromLe(s: seq<byte>): nat {
    if s == [] then 0 else s[0] as int + 256 * FromLe(s[1..])
  }

  function Capacity(k: nat): nat { if k == 0 then 1 else 256 * Capacity(k - 1) }

  lemma {:induction false} LeRoundTrip(x: nat, k: nat)
    requires x < Capacity(k)
    ensures FromLe(Le(x, k)) == x
  {
    if k > 0 {
      LeRoundTrip(x / 256, k - 1);
      assert Le(x, k)[1..] == Le(x / 256, k - 1);
    }
  }

  lemma Capacities()
    ensures Capacity(1) == 0x100 && Capacity(2) == 0x10000 && Capacity(4) == 0x1_0000_0000
    ensures Capacity(8) == 0x1_0000_0000_0000_0000
  {
    assert Capacity(3) == 0x100_0000;
    assert Capacity(6) == 0x1_0000_0000_0000;
  }

  // ----- Commands -----

  /** The limit of the source's signed 64-bit integers. */
  const N64_LIMIT: nat := 0x8000_0000_0000_0000

  datatype Command =
    | Over
    | Check(offset: nat, size: nat, sha: seq<byte>)
    | Move(from: nat, to: nat, size: nat)
    | Set(start: nat, size: nat, value: byte)
    | ChangeSize(size: nat)
    | SeekWrite(seekSet: bool, offset: nat, data: seq<byte>)

  predicate WellFormed(c: Command) {
    match c
    case Over => true
    case Check(offset, size, sha) => offset < N64_LIMIT && size < N64_LIMIT && |sha| == 32
    case Move(from, to, size) => from < N64_LIMIT && to < N64_LIMIT && size < N64_LIMIT
    case Set(start, size, value) => start < N64_LIMIT && size < N64_LIMIT
    case ChangeSize(size) => size < N64_LIMIT
    case SeekWrite(seekSet, offset, data) => offset < N64_LIMIT && 1 <= |data| <= 0x10000
  }

  /** How many bytes an offset takes, as a power of two. */
  function OffsetClass(offset: nat): (c: nat)
    ensures c <= 3
  {
    if offset < 0x100 then 0 else if offset < 0x10000 then 1 else if offset < 0x1_0000_0000 then 2 else 3
  }

  function SizeClass(size: nat): (c: nat)
    ensures c <= 1
  {
    if size < 0x100 then 0 else 1
  }

  function Width(c: nat): nat { if c == 0 then 1 else if c == 1 then 2 else if c == 2 then 4 else 8 }

  /** `w` bytes are enough for `x`. */
  predicate EnoughFor(w: int, x: int) {
    || (w == 1 && x < 0x100) || (w == 2 && x < 0x1_0000) || (w == 4 && x < 0x1_0000_0000)
    || (w == 8 && x < 0x1_0000_0000_0000_0000)
  }

  /** A write takes the fewest bytes that are enough for its offset, and the fewest for its size less one. */
  lemma Narrowest(seekSet: bool, offset: nat, data: seq<byte>, size: nat) returns (a: nat, b: nat)
    requires WellFormed(SeekWrite(seekSet, offset, data)) && |data| == size + 1
    ensures EnoughFor(a, offset) && forall w :: w < a ==> !EnoughFor(w, offset)
    ensures EnoughFor(b, size) && forall w :: w < b ==> !EnoughFor(w, size)
    ensures |Encode(SeekWrite(seekSet, offset, data))| == 1 + a + b + |data|
  {
    a, b := Width(OffsetClass(offset)), Width(SizeClass(size));
  }

  function SeekWriteCode(seekSet: bool, offsetClass: nat, sizeClass: nat): (b: byte)
    requires offsetClass <= 3 && sizeClass <= 1
    ensures 0x10 <= b <= 0x1F
  {
    0x10 + (if seekSet then 0 else 8) + 2 * offsetClass + sizeClass
  }

  function Code(c: Command): byte {
    match c
    case Over => 0
    case Check(_, _, _) => 1
    case Move(_, _, _) => 2
    case Set(_, _, _) => 3
    case ChangeSize(_) => 4
    case SeekWrite(seekSet, offset, data) =>
      SeekWriteCode(seekSet, OffsetClass(offset), SizeClass(Max(|data| - 1, 0)))
  }

  /** What follows the code: writePatch and writeSeekWrite. */
  function Operands(c: Command): seq<byte> {
    match c
    case Over => []
    case Check(offset, size, sha) => Le(offset, 8) + Le(size, 8) + sha
    case Move(from, to, size) => Le(from, 8) + Le(to, 8) + Le(size, 8)
    case Set(start, size, value) => Le(start, 8) + Le(size, 8) + [value]
    case ChangeSize(size) => Le(size, 8)
    case SeekWrite(seekSet, offset, data) =>
      Le(offset, Width(OffsetClass(offset)))
      + Le(Max(|data| - 1, 0), Width(SizeClass(Max(|data| - 1, 0)))) + data
  }

  function Encode(c: Command): (s: seq<byte>)
    ensures |s| >= 1
  {
    [Code(c)] + Operands(c)
  }

  function EncodeAll(cmds: seq<Command>): seq<byte> {
    if cmds == [] then [] else EncodeAll(cmds[..|cmds| - 1]) + Encode(cmds[|cmds| - 1])
  }

  datatype Parsed = Parsed(command: Command, rest: seq<byte>)

  /** Reads one command; none if the code is unknown or the file ends inside the command. */
  function Parse(s: seq<byte>): (r: Option<Parsed>)
    ensures r.Some? ==> |r.value.rest| < |s|
  {
    if s == [] then None else ParseOperands(s[0], s[1..])
  }

  function ParseOperands(code: byte, t: seq<byte>): (r: Option<Parsed>)
    ensures r.Some? ==> |r.value.rest| <= |t|
  {
    if code == 0 then Some(Parsed(Over, t))
    else if code == 1 then
      if |t| < 48 then None else Some(Parsed(Check(FromLe(t[..8]), FromLe(t[8..16]), t[16..48]), t[48..]))
    else if code == 2 then
      if |t| < 24 then None
      else Some(Parsed(Move(FromLe(t[..8]), FromLe(t[8..16]), FromLe(t[16..24])), t[24..]))
    else if code == 3 then
      if |t| < 17 then None else Some(Parsed(Set(FromLe(t[..8]), FromLe(t[8..16]), t[16]), t[17..]))
    else if code == 4 then
      if |t| < 8 then None else Some(Parsed(ChangeSize(FromLe(t[..8])), t[8..]))
    else if 0x10 <= code <= 0x1F then
      ParseSeekWrite(code / 8 % 2 == 0, Width(code / 2 % 4), Width(code % 2), t)
    else None
  }

  /** The operands of a seek-write command: an offset of `a` bytes, a size less one of `b`, and the data. */
  function ParseSeekWrite(seekSet: bool, a: nat, b: nat, t: seq<byte>): (r: Option<Parsed>)
    ensures r.Some? ==> |r.value.rest| <= |t|
  {
    if |t| < a + b then None
    else
      var size := FromLe(t[a..a + b]) + 1;
      if |t| - a - b < size then None
      else Some(Parsed(SeekWrite(seekSet, FromLe(t[..a]), t[a + b..a + b + size]), t[a + b + size..]))
  }

  lemma CodeFields(seekSet: bool, offsetClass: nat, sizeClass: nat)
    requires offsetClass <= 3 && sizeClass <= 1
    ensures var b := SeekWriteCode(seekSet, offsetClass, sizeClass);
      b / 2 % 4 == offsetClass && b % 2 == sizeClass && (b / 8 % 2 == 0) == seekSet
  {
  }

  lemma FourParts(a: seq<byte>, b: seq<byte>, c: seq<byte>, rest: seq<byte>)
    ensures
      var t, i, j := a + b + c + rest, |a| + |b|, |a| + |b| + |c|;
      t[..|a|] == a && t[|a|..i] == b && t[i..j] == c && t[j..] == rest
  {
  }

  /** Every command is read back as it was written, whatever follows it. */
  lemma ParseEncoded(c: Command, rest: seq<byte>)
    requires WellFormed(c)
    ensures Parse(Encode(c) + rest) == Some(Parsed(c, rest))
  {
    assert (Encode(c) + rest)[1..] == Operands(c) + rest;
    match c
    case Over =>
      assert Operands(c) + rest == rest;
    case Check(offset, size, sha) =>
      Capacities();
      LeRoundTrip(offset, 8);
      LeRoundTrip(size, 8);
      FourParts(Le(offset, 8), Le(size, 8), sha, rest);
    case Move(from, to, size) =>
      Capacities();
      LeRoundTrip(from, 8);
      LeRoundTrip(to, 8);
      LeRoundTrip(size, 8);
      FourParts(Le(from, 8), Le(to, 8), Le(size, 8), rest);
    case Set(start, size, value) =>
      Capacities();
      LeRoundTrip(start, 8);
      LeRoundTrip(size, 8);
      FourParts(Le(start, 8), Le(size, 8), [value], rest);
    case ChangeSize(size) =>
      Capacities();
      LeRoundTrip(size, 8);
      FourParts(Le(size, 8), [], [], rest);
    case SeekWrite(seekSet, offset, data) =>
      ParseEncodedWrite(seekSet, offset, data, |data| - 1, rest);
  }

  lemma ParseEncodedWrite(seekSet: bool, offset: nat, data: seq<byte>, size: nat, rest: seq<byte>)
    requires offset < N64_LIMIT && 1 <= |data| <= 0x10000 && size == |data| - 1
    ensures ParseOperands(Code(SeekWrite(seekSet, offset, data)), Operands(SeekWrite(seekSet, offset, data)) + rest)
      == Some(Parsed(SeekWrite(seekSet, offset, data), rest))
  {
    Capacities();
    var oc, sc := OffsetClass(offset), SizeClass(size);
    CodeFields(seekSet, oc, sc);
    LeRoundTrip(offset, Width(oc));
    LeRoundTrip(size, Width(sc));
    FourParts(Le(offset, Width(oc)), Le(size, Width(sc)), data, rest);
  }

  // ----- What commands do -----

  /** The file being patched and its position. */
  datatype Target = Target(data: seq<byte>, pos: nat)

  /** Writing at a position; a gap beyond the end of the file is filled with zeros. */
  function WriteAt(data: seq<byte>, pos: nat, bytes: seq<byte>): (r: seq<byte>)
    ensures bytes != [] ==> |r| == Max(|data|, pos + |bytes|)
    ensures forall k :: 0 <= k < |r| ==>
      r[k] == if pos <= k < pos + |bytes| then bytes[k - pos] else if k < |data| then data[k] else 0
  {
    if bytes == [] then data
    else
      seq(Max(|data|, pos + |bytes|), k requires 0 <= k < Max(|data|, pos + |bytes|) =>
        if pos <= k < pos + |bytes| then bytes[k - pos] else if k < |data| then data[k] else 0)
  }

  /** Sets the size: cuts the file or fills it up with zeros. */
  function Resize(data: seq<byte>, size: nat): (r: seq<byte>)
    ensures |r| == size
  {
    if size <= |data| then data[..size] else data + Repeated(0, size - |data|)
  }

  /** A move within the file, of bytes that exist. */
  function MoveBytes(data: seq<byte>, from: nat, to: nat, size: nat): seq<byte> {
    WriteAt(data, to, data[Min(from, |data|)..Min(from + size, |data|)])
  }

  /** A move goes through a buffer of this size. */
  const MOVE_CHUNK: nat := 0x100000

  /** Where a move leaves the position: behind the chunk it wrote last. */
  function MovePosition(pos: nat, from: nat, to: nat, size: nat): nat {
    if from == to || size == 0 then pos
    else if from > to then to + size
    else to + (size - 1) % MOVE_CHUNK + 1
  }

  function Execute(t: Target, c: Command): Target {
    match c
    case Over => t
    case Check(offset, size, sha) => t
    case Move(from, to, size) =>
      Target(MoveBytes(t.data, from, to, size), MovePosition(t.pos, from, to, size))
    case Set(start, size, value) => Target(WriteAt(t.data, start, Repeated(value, size)), start + size)
    case ChangeSize(size) => Target(Resize(t.data, size), t.pos)
    case SeekWrite(seekSet, offset, data) =>
      var at := if seekSet then offset else t.pos + offset;
      Target(WriteAt(t.data, at, data), at + |data|)
  }

  function ExecuteAll(t: Target, cmds: seq<Command>): Target {
    if cmds == [] then t else Execute(ExecuteAll(t, cmds[..|cmds| - 1]), cmds[|cmds| - 1])
  }

  lemma ExecuteSnoc(t: Target, cmds: seq<Command>, c: Command)
    ensures ExecuteAll(t, cmds + [c]) == Execute(ExecuteAll(t, cmds), c)
  {
    assert (cmds + [c])[..|cmds|] == cmds;
  }

  lemma EncodeSnoc(cmds: seq<Command>, c: Command)
    ensures EncodeAll(cmds + [c]) == EncodeAll(cmds) + Encode(c)
  {
    assert (cmds + [c])[..|cmds|] == cmds;
  }

  lemma {:induction false} ExecuteConcat(t: Target, a: seq<Command>, b: seq<Command>)
    ensures ExecuteAll(t, a + b) == ExecuteAll(ExecuteAll(t, a), b)
    decreases |b|
  {
    if b == [] {
      assert a + b == a;
    } else {
      ExecuteConcat(t, a, b[..|b| - 1]);
      ConcatSplit(a, b);
      ExecuteSnoc(t, a + b[..|b| - 1], b[|b| - 1]);
    }
  }

  lemma {:induction false} EncodeConcat(a: seq<Command>, b: seq<Command>)
    ensures EncodeAll(a + b) == EncodeAll(a) + EncodeAll(b)
    decreases |b|
  {
    if b == [] {
      assert a + b == a;
    } else {
      EncodeConcat(a, b[..|b| - 1]);
      ConcatSplit(a, b);
      EncodeSnoc(a + b[..|b| - 1], b[|b| - 1]);
      Associate(EncodeAll(a), EncodeAll(b[..|b| - 1]), Encode(b[|b| - 1]));
    }
  }

  lemma ConcatSplit(a: seq<Command>, b: seq<Command>)
    requires b != []
    ensures a + b == a + b[..|b| - 1] + [b[|b| - 1]]
  {
  }

  // ----- Commands that can be run -----

  ghost predicate Commands(cmds: seq<Command>) {
    forall i :: 0 <= i < |cmds| ==> WellFormed(cmds[i]) && !cmds[i].Over?
  }

  /** A move is only asked of bytes that exist. */
  predicate InsideMove(data: seq<byte>, c: Command) { c.Move? ==> c.from + c.size <= |data| }

  /** The commands can be stored, and each of them finds the bytes that it moves. */
  ghost predicate Runnable(t: Target, cmds: seq<Command>) {
    Commands(cmds) && forall i :: 0 <= i < |cmds| ==> InsideMove(ExecuteAll(t, cmds[..i]).data, cmds[i])
  }

  lemma RunnableSnoc(t: Target, cmds: seq<Command>, c: Command)
    requires Runnable(t, cmds) && WellFormed(c) && !c.Over? && InsideMove(ExecuteAll(t, cmds).data, c)
    ensures Runnable(t, cmds + [c])
  {
    var all := cmds + [c];
    forall i | 0 <= i < |all| ensures InsideMove(ExecuteAll(t, all[..i]).data, all[i]) {
      assert all[..i] == if i < |cmds| then cmds[..i] else cmds;
    }
  }

  /** Without moves there is nothing to ask for. */
  lemma RunnableWithoutMoves(t: Target, cmds: seq<Command>, more: seq<Command>)
    requires Runnable(t, cmds) && Commands(more) && forall i :: 0 <= i < |more| ==> !more[i].Move?
    ensures Runnable(t, cmds + more)
  {
    var all := cmds + more;
    forall i | 0 <= i < |all| ensures InsideMove(ExecuteAll(t, all[..i]).data, all[i]) {
      if i < |cmds| {
        assert all[..i] == cmds[..i];
      }
    }
  }

  lemma RunnableRest(t: Target, c: Command, rest: seq<Command>)
    requires Runnable(t, [c] + rest)
    ensures WellFormed(c) && !c.Over? && InsideMove(t.data, c) && Runnable(Execute(t, c), rest)
  {
    var all := [c] + rest;
    assert all[0] == c && all[..0] == [];
    forall i | 0 <= i < |rest| ensures InsideMove(ExecuteAll(Execute(t, c), rest[..i]).data, rest[i]) {
      assert all[..i + 1] == [c] + rest[..i] && all[i + 1] == rest[i];
      ExecuteFirst(t, c, rest[..i]);
    }
    forall i | 0 <= i < |rest| ensures WellFormed(rest[i]) && !rest[i].Over? {
      assert all[i + 1] == rest[i];
    }
  }

  lemma ExecuteFirst(t: Target, c: Command, rest: seq<Command>)
    ensures ExecuteAll(t, [c] + rest) == ExecuteAll(Execute(t, c), rest)
  {
    ExecuteConcat(t, [c], rest);
    ExecuteSnoc(t, [], c);
    assert [] + [c] == [c];
  }

  // ----- The file -----

  const SIGNATURE: seq<byte> := [0x33, 0x50, 0x53, 0]

  const HEADER_SIZE: nat := 16

  /** The header of the current version, 1.0.0. */
  function Header(extDataOffset: nat): (s: seq<byte>)
    ensures |s| == HEADER_SIZE
  {
    SIGNATURE + [1, 0, 0, 0] + Le(extDataOffset, 8)
  }

  /** A patch: the header, the commands, and at the very end the distance back to the header. */
  function PatchFile(cmds: seq<Command>): (s: seq<byte>)
    ensures |s| == HEADER_SIZE + |EncodeAll(cmds)| + 9
  {
    var ext := HEADER_SIZE + |EncodeAll(cmds)| + 1;
    Header(ext) + EncodeAll(cmds) + Encode(Over) + Le(ext + 8, 8)
  }

  /** A patch begins with "3PS", a zero, the version 1.0.0, and the distance to the last field; that field is its
      length, so that the header is found from the end as well. */
  lemma FileFormed(cmds: seq<Command>)
    requires |EncodeAll(cmds)| < N64_LIMIT
    ensures
      var c := PatchFile(cmds);
      && c[..8] == [0x33, 0x50, 0x53, 0, 1, 0, 0, 0] && FromLe(c[8..16]) == |c| - 8 && c[|c| - 9] == 0
      && FromLe(c[|c| - 8..]) == |c|
  {
    var ext := HEADER_SIZE + |EncodeAll(cmds)| + 1;
    Capacities();
    LeRoundTrip(ext, 8);
    LeRoundTrip(ext + 8, 8);
    Ends(SIGNATURE + [1, 0, 0, 0], Le(ext, 8), EncodeAll(cmds), 0, Le(ext + 8, 8), PatchFile(cmds));
  }

  lemma Ends(head: seq<byte>, ext: seq<byte>, body: seq<byte>, over: byte, last: seq<byte>, c: seq<byte>)
    requires |head| == |ext| == |last| == 8 && c == head + ext + body + [over] + last
    ensures c[..8] == head && c[8..16] == ext && c[|c| - 9] == over && c[|c| - 8..] == last
  {
  }
}
