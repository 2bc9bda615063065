/** The decoding loop of LZ77, LZ77Ex and Yaz0: flag bytes are read from the source, literals and
    matches are expanded into the destination buffer. */
module StreamReader {
  import opened Bytes
  import opened FlagGroups
  import opened TokenStream

  /** Reads the length and distance of a match, in the order and with the checks of the sources. */
  method ReadMatchItem(f: Format, c: seq<byte>, start: nat) returns (r: Read)
    requires start <= |c| && !f.Blz?
    ensures r == ReadMatchAt(f, c, start)
  {
    var s := start;
    if |c| - s < 1 {
      return Truncated;
    }
    var size: nat := c[s] as int / 16;
    if f.Yaz0? {
      if |c| - s < 2 {
        return Truncated;
      }
      var off := c[s] as int % 16 * 256 + c[s + 1] as int + 1;
      s := s + 2;
      if size == 0 {
        if |c| - s < 1 {
          return Truncated;
        }
        size := c[s] as int + 0x12;
        s := s + 1;
      } else {
        size := size + 2;
      }
      return ReadMatch(size, off, s);
    }
    if f.Lz? {
      size := size + 3;
    } else if size == 1 {
      if |c| - s < 3 {
        return Truncated;
      }
      size := c[s] as int % 16 * 4096 + c[s + 1] as int * 16 + c[s + 2] as int / 16 + (0xFF + 0xF + 3);
      s := s + 2;
    } else if size == 0 {
      if |c| - s < 2 {
        return Truncated;
      }
      size := c[s] as int % 16 * 16 + c[s + 1] as int / 16 + (0xF + 2);
      s := s + 1;
    } else {
      size := size + 1;
    }
    if |c| - s < 2 {
      return Truncated;
    }
    var off := c[s] as int % 16 * 256 + c[s + 1] as int + 1;
    return ReadMatch(size, off, s + 2);
  }

  /** Copies within the destination, one byte after another. */
  method CopyWithin(out: array<byte>, d: nat, off: nat, len: nat)
    requires 1 <= off <= d && d + len <= out.Length
    modifies out
    ensures out[..d + len] == Copy(old(out[..d]), off, len)
    ensures out[d + len..] == old(out[d + len..])
  {
    for j := 0 to len
      invariant Copy(out[..d + j], off, len - j) == Copy(old(out[..d]), off, len)
      invariant out[d + len..] == old(out[d + len..])
    {
      ghost var before := out[..d + j];
      out[d + j] := out[d + j - off];
      assert out[..d + j + 1] == before + [before[d + j - off]];
    }
  }

  /** One flag bit's worth of decoding. */
  method DecodeItem(f: Format, c: seq<byte>, s: nat, out: array<byte>, d: nat, n: nat, flag: byte, i: nat)
    returns (ok: bool, s': nat, d': nat)
    requires !f.Blz? && s <= |c| && d < n <= out.Length && i < 8
    modifies out
    ensures out[n..] == old(out[n..])
    ensures ok == Step(f, c, s, old(out[..d]), n, flag, i).Some?
    ensures ok ==> d < d' <= n && Step(f, c, s, old(out[..d]), n, flag, i) == Some((out[..d'], s'))
  {
    ok, s', d' := false, s, d;
    if BitSet(flag, i) == f.Yaz0? {
      if |c| - s >= 1 {
        out[d] := c[s];
        assert out[..d + 1] == old(out[..d]) + [c[s]];
        ok, s', d' := true, s + 1, d + 1;
      }
    } else {
      var r := ReadMatchItem(f, c, s);
      if r.ReadMatch? && r.len <= n - d && r.off <= d {
        CopyWithin(out, d, r.off, r.len);
        ok, s', d' := true, r.next, d + r.len;
        assert out[n..] == out[d'..][n - d'..];
      }
    }
  }

  /** Expands the stream at `c[start..]` into `out[..n]`. */
  method DecodeStream(f: Format, c: seq<byte>, start: nat, out: array<byte>, n: nat) returns (ok: bool)
    requires !f.Blz? && start <= |c| && n <= out.Length
    modifies out
    ensures out[n..] == old(out[n..])
    ensures ok == DecodeGroups(f, c, start, [], n).Some?
    ensures ok ==> DecodeGroups(f, c, start, [], n) == Some(out[..n])
  {
    var s: nat, d: nat := start, 0;
    ghost var result := DecodeGroups(f, c, start, [], n);
    while d < n
      invariant s <= |c| && d <= n
      invariant out[n..] == old(out[n..])
      invariant DecodeGroups(f, c, s, out[..d], n) == result
    {
      if |c| - s < 1 {
        return false;
      }
      var flag := c[s];
      s := s + 1;
      ok, s, d := DecodeGroup(f, c, s, out, d, n, flag);
      if !ok {
        return false;
      }
    }
    ok := true;
  }

  /** The eight items announced by a flag byte, or as many as still fit. */
  method DecodeGroup(f: Format, c: seq<byte>, s: nat, out: array<byte>, d: nat, n: nat, flag: byte)
    returns (ok: bool, s': nat, d': nat)
    requires !f.Blz? && s <= |c| && d < n <= out.Length
    modifies out
    ensures out[n..] == old(out[n..])
    ensures !ok ==> DecodeBits(f, c, s, old(out[..d]), n, flag, 0) == None
    ensures ok ==>
      && s' <= |c| && d < d' <= n
      && DecodeGroups(f, c, s', out[..d'], n) == DecodeBits(f, c, s, old(out[..d]), n, flag, 0)
  {
    ghost var result := DecodeBits(f, c, s, old(out[..d]), n, flag, 0);
    s', d', ok := s, d, true;
    var i := 0;
    while i < 8
      invariant 0 <= i < 8 && s' <= |c| && d <= d' < n
      invariant out[n..] == old(out[n..])
      invariant DecodeBits(f, c, s', out[..d'], n, flag, i) == result
      decreases 8 - i
    {
      ok, s', d' := DecodeItem(f, c, s', out, d', n, flag, i);
      if !ok || d' == n || i == 7 {
        return;
      }
      i := i + 1;
    }
  }
}
