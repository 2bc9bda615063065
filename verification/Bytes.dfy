/** Bytes, little-endian and big-endian words, and the rounding helper shared by every component. */
module Bytes {

  type byte = x: int | 0 <= x < 256

  const U32_LIMIT: nat := 0x1_0000_0000

  datatype Option<+T> = None | Some(value: T)

  function Min(a: int, b: int): int { if a < b then a else b }

  function Max(a: int, b: int): int { if a < b then b else a }

  /** Rounds `n` up to a multiple of `a` (src/utility.cpp, Align). */
  function Align(n: nat, a: nat): (r: nat)
    requires a > 0
    ensures n <= r < n + a
    ensures r % a == 0
  {
    AlignIsMultiple(n, a);
    (n + a - 1) / a * a
  }

  lemma AlignIsMultiple(n: nat, a: nat)
    requires a > 0
    ensures var r := (n + a - 1) / a * a; n <= r < n + a && r % a == 0
  {
    var q := (n + a - 1) / a;
    assert q * a + (n + a - 1) % a == n + a - 1;
    MultipleModZero(q, a);
  }

  lemma {:induction false} MultipleModZero(q: nat, a: nat)
    requires a > 0
    ensures (q * a) % a == 0
  {
    if q > 0 {
      MultipleModZero(q - 1, a);
      AddModulus((q - 1) * a, a);
      assert (q - 1) * a + a == q * a;
    }
  }

  lemma AlignMonotone(m: nat, n: nat, a: nat)
    requires a > 0 && m <= n
    ensures Align(m, a) <= Align(n, a)
  {
    AlignIsMultiple(m, a);
    AlignIsMultiple(n, a);
    var x, y := (m + a - 1) / a, (n + a - 1) / a;
    if y < x {
      NextMultiple(y, x, a);
    } else if x < y {
      NextMultiple(x, y, a);
    }
  }

  lemma RoundDown(x: nat, a: nat)
    requires a > 0
    ensures 0 <= x / a * a <= x < x / a * a + a
  {
    assert x == x / a * a + x % a;
  }

  lemma WrappedGroups(n: nat)
    requires n < U32_LIMIT
    ensures
      var exact, wrapped := (n + 7) / 8 * 9, (n + 7) % U32_LIMIT / 8 * 9 % U32_LIMIT;
      wrapped == exact || wrapped + U32_LIMIT <= exact
  {
  }

  lemma WrappedSum(x: nat)
    ensures x < U32_LIMIT ==> x % U32_LIMIT == x
    ensures x % U32_LIMIT <= x
    ensures x >= U32_LIMIT ==> x % U32_LIMIT <= x - U32_LIMIT
  {
  }

  lemma AddModulus(x: nat, a: nat)
    requires a > 0
    ensures (x + a) % a == x % a
  {
    var q, m := x / a, x % a;
    assert x + a == (q + 1) * a + m;
    DivModUnique(x + a, q + 1, m, a);
  }

  /** The quotient and remainder of a division are determined by the division identity. */
  lemma DivModUnique(x: nat, q: nat, m: nat, a: nat)
    requires a > 0 && x == q * a + m && m < a
    ensures x / a == q && x % a == m
  {
    var q', m' := x / a, x % a;
    if q' < q {
      NextMultiple(q', q, a);
    }
    if q' > q {
      NextMultiple(q, q', a);
    }
  }

  lemma {:induction false} NextMultiple(k: int, l: int, a: nat)
    requires k < l
    ensures k * a + a <= l * a
    decreases l - k
  {
    assert (l - 1) * a + a == l * a;
    if k < l - 1 {
      NextMultiple(k, l - 1, a);
    }
  }

  function Zeros(n: nat): (s: seq<byte>)
    ensures |s| == n && forall i :: 0 <= i < n ==> s[i] == 0
  {
    seq(n, _ => 0)
  }

  /** Appends zero bytes up to the next multiple of `align`. */
  function PadTo(s: seq<byte>, align: nat): (r: seq<byte>)
    requires align > 0
    ensures |r| == Align(|s|, align) && s <= r
  {
    s + Zeros(Align(|s|, align) - |s|)
  }

  /** Concatenation is associative. */
  lemma Associate<T>(x: seq<T>, y: seq<T>, z: seq<T>)
    ensures x + y + z == x + (y + z)
  {
  }

  lemma SlicesJoin<T>(s: seq<T>, i: nat, j: nat, k: nat)
    requires i <= j <= k <= |s|
    ensures s[i..j] + s[j..k] == s[i..k]
  {
  }

  lemma PrefixParts<T>(a: seq<T>, b: seq<T>, c: seq<T>)
    requires a + b <= c
    ensures c[..|a| + |b|] == a + b && c == a + c[|a|..] && c[|a|..|a| + |b|] == b
  {
    assert (a + b)[|a|..] == b;
  }

  lemma PartOfPart<T>(s: seq<T>, at: nat, n: nat, x: nat, k: nat)
    requires at + n <= |s| && x + k <= n
    ensures s[at..at + n][x..x + k] == s[at + x..at + x + k]
  {
    var a, b := s[at..at + n][x..x + k], s[at + x..at + x + k];
    assert |a| == |b| && forall i :: 0 <= i < k ==> a[i] == b[i];
  }

  lemma PartOfFront<T>(s: seq<T>, t: seq<T>, x: nat, k: nat)
    requires x + k <= |s|
    ensures (s + t)[x..x + k] == s[x..x + k]
  {
    var a, b := (s + t)[x..x + k], s[x..x + k];
    assert |a| == |b| && forall i :: 0 <= i < k ==> a[i] == b[i];
  }

  function Repeated(v: byte, n: nat): (s: seq<byte>)
    ensures |s| == n && forall i :: 0 <= i < n ==> s[i] == v
  {
    seq(n, _ => v)
  }

  /** The sequence read backwards. */
  function Rev(s: seq<byte>): (r: seq<byte>)
    ensures |r| == |s| && forall i :: 0 <= i < |s| ==> r[i] == s[|s| - 1 - i]
  {
    seq(|s|, i requires 0 <= i < |s| => s[|s| - 1 - i])
  }

  // ----- Shifts -----

  function Shl(x: nat, k: nat): nat { if k == 0 then x else 2 * Shl(x, k - 1) }

  function Shr(x: nat, k: nat): nat { if k == 0 then x else Shr(x / 2, k - 1) }

  lemma {:induction false} ShlAdd(a: nat, b: nat, k: nat)
    ensures Shl(a + b, k) == Shl(a, k) + Shl(b, k)
  {
    if k > 0 {
      ShlAdd(a, b, k - 1);
    }
  }

  lemma {:induction false} ShlMonotone(m: nat, n: nat)
    requires m <= n
    ensures Shl(1, m) <= Shl(1, n)
  {
    if m < n {
      ShlMonotone(m, n - 1);
    }
  }

  lemma {:induction false} ShlBelow(x: nat, a: nat, k: nat)
    requires x < Shl(1, a)
    ensures Shl(x, k) < Shl(1, a + k)
  {
    if k > 0 {
      ShlBelow(x, a, k - 1);
    }
  }

  lemma Powers()
    ensures Shl(1, 8) == 256 && Shl(1, 32) == U32_LIMIT
  {
    assert Shl(1, 8) == 256;
    assert Shl(1, 16) == 0x10000;
    assert Shl(1, 24) == 0x100_0000;
  }

  lemma {:induction false} ShlDouble(x: nat, k: nat)
    ensures Shl(2 * x, k) == Shl(x, k + 1)
  {
    if k > 0 {
      ShlDouble(x, k - 1);
    }
  }

  lemma {:induction false} ShrShl(x: nat, a: nat, b: nat)
    requires a <= b
    ensures Shr(Shl(x, a), b) == Shr(x, b - a)
  {
    if a > 0 {
      assert Shl(x, a) / 2 == Shl(x, a - 1);
      ShrShl(x, a - 1, b - 1);
    }
  }

  /** The number whose binary digits, most significant first, are `b`. */
  function Bits(b: seq<bool>): nat {
    if b == [] then 0 else 2 * Bits(b[..|b| - 1]) + if b[|b| - 1] then 1 else 0
  }

  lemma {:induction false} BitsPrefix(b: seq<bool>, i: nat)
    requires i <= |b|
    ensures Shr(Bits(b), |b| - i) == Bits(b[..i])
  {
    if i < |b| {
      var c := b[..|b| - 1];
      BitsPrefix(c, i);
      assert c[..i] == b[..i];
      assert Bits(b) / 2 == Bits(c);
    } else {
      assert b[..i] == b;
    }
  }

  /** The digits of a number, one by one. */
  lemma BitOfBits(b: seq<bool>, i: nat)
    requires i < |b|
    ensures Shr(Bits(b), |b| - 1 - i) % 2 == 1 <==> b[i]
  {
    BitsPrefix(b, i + 1);
    LastDigit(b[..i + 1]);
  }

  lemma LastDigit(c: seq<bool>)
    requires c != []
    ensures Bits(c) % 2 == 1 <==> c[|c| - 1]
  {
    Parity(Bits(c), Bits(c[..|c| - 1]), if c[|c| - 1] then 1 else 0);
  }

  lemma Parity(x: nat, y: nat, digit: nat)
    requires x == 2 * y + digit && digit < 2
    ensures x % 2 == digit
  {
  }

  lemma {:induction false} BitsBound(b: seq<bool>)
    ensures Bits(b) < Shl(1, |b|)
  {
    if b != [] {
      BitsBound(b[..|b| - 1]);
    }
  }

  /** A 32-bit word stored least significant byte first. */
  function Le32(x: nat): (s: seq<byte>)
    requires x < U32_LIMIT
    ensures |s| == 4
  {
    [x % 256, x / 256 % 256, x / 0x10000 % 256, x / 0x100_0000]
  }

  function FromLe32(s: seq<byte>): (x: nat)
    requires |s| == 4
    ensures x < U32_LIMIT
  {
    s[0] as int + s[1] as int * 256 + s[2] as int * 0x10000 + s[3] as int * 0x100_0000
  }

  lemma Le32RoundTrip(x: nat)
    requires x < U32_LIMIT
    ensures FromLe32(Le32(x)) == x
  {
    var q1 := x / 256;
    var q2 := q1 / 256;
    assert x / 0x10000 == q2 && x / 0x100_0000 == q2 / 256;
  }

  /** A 32-bit word stored most significant byte first. */
  function Be32(x: nat): (s: seq<byte>)
    requires x < U32_LIMIT
    ensures |s| == 4
  {
    [x / 0x100_0000, x / 0x10000 % 256, x / 256 % 256, x % 256]
  }

  function FromBe32(s: seq<byte>): (x: nat)
    requires |s| == 4
    ensures x < U32_LIMIT
  {
    s[0] as int * 0x100_0000 + s[1] as int * 0x10000 + s[2] as int * 256 + s[3] as int
  }

  lemma Be32RoundTrip(x: nat)
    requires x < U32_LIMIT
    ensures FromBe32(Be32(x)) == x
  {
    var q1 := x / 256;
    var q2 := q1 / 256;
    assert x / 0x10000 == q2 && x / 0x100_0000 == q2 / 256;
  }
}
