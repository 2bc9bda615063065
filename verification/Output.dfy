/** Stores into an output buffer of limited capacity, shared by the compressors. */
module Output {
  import opened Bytes

  /** Stores a word, least significant byte first. */
  method StoreLe32(out: array<byte>, at: nat, x: nat, ghost capacity: nat)
    requires x < U32_LIMIT && at + 4 <= capacity <= out.Length
    modifies out
    ensures out[at..at + 4] == Le32(x)
    ensures out[..at] == old(out[..at])
    ensures out[..at + 4] == old(out[..at]) + Le32(x)
    ensures out[capacity..] == old(out[capacity..])
  {
    out[at] := x % 256;
    out[at + 1] := x / 256 % 256;
    out[at + 2] := x / 0x10000 % 256;
    out[at + 3] := x / 0x100_0000;
  }

  /** Stores a word, most significant byte first. */
  method StoreBe32(out: array<byte>, at: nat, x: nat, ghost capacity: nat)
    requires x < U32_LIMIT && at + 4 <= capacity <= out.Length
    modifies out
    ensures out[at..at + 4] == Be32(x)
    ensures out[..at] == old(out[..at])
    ensures out[..at + 4] == old(out[..at]) + Be32(x)
    ensures out[capacity..] == old(out[capacity..])
  {
    out[at] := x / 0x100_0000;
    out[at + 1] := x / 0x10000 % 256;
    out[at + 2] := x / 256 % 256;
    out[at + 3] := x % 256;
  }

  /** Pads with zero bytes up to the alignment, as far as there is room. */
  method PadOutput(out: array<byte>, start: nat, capacity: nat, align: nat) returns (ok: bool, d: nat)
    requires start <= capacity <= out.Length && align > 0
    modifies out
    ensures out[capacity..] == old(out[capacity..])
    ensures ok == (Align(start, align) <= capacity)
    ensures ok ==> d <= capacity && out[..d] == PadTo(old(out[..start]), align)
  {
    d, ok := start, true;
    AlignIsNext(start, align);
    while d % align != 0
      invariant start <= d <= Align(start, align) && d <= capacity
      invariant out[..d] == old(out[..start]) + Zeros(d - start)
      invariant out[capacity..] == old(out[capacity..])
      decreases Align(start, align) - d
    {
      if capacity - d < 1 {
        return false, d;
      }
      out[d] := 0;
      d := d + 1;
      assert out[..d] == out[..d - 1] + [0];
    }
  }

  lemma AlignIsNext(n: nat, a: nat)
    requires a > 0
    ensures forall d :: n <= d && d % a == 0 ==> Align(n, a) <= d
  {
    forall d | n <= d && d % a == 0
      ensures Align(n, a) <= d
    {
      NextAligned(n, a, d);
    }
  }

  lemma NextAligned(n: nat, a: nat, d: nat)
    requires a > 0 && n <= d && d % a == 0
    ensures Align(n, a) <= d
  {
    var x, y := Align(n, a) / a, d / a;
    assert Align(n, a) == x * a && d == y * a;
    if y < x {
      NextMultiple(y, x, a);
    }
  }
}
