/** Byte strings, little-endian integers and in-place buffer writes shared by
    every encoder of the store. */
module Bytes {

  type byte = x: int | 0 <= x < 256

  type Digest = d: seq<byte> | |d| == 32 witness seq(32, _ => 0)

  const U32: nat := 0x1_0000_0000
  const U64: nat := 0x1_0000_0000_0000_0000

  datatype Option<+T> = None | Some(value: T)

  function Pow256(n: nat): (r: nat)
    ensures r > 0
  {
    if n == 0 then 1 else 256 * Pow256(n - 1)
  }

  lemma Pow256Values()
    ensures Pow256(2) == 0x1_0000
    ensures Pow256(4) == U32
    ensures Pow256(8) == U64
  {
    assert Pow256(1) == 256;
    assert Pow256(2) == 0x1_0000;
    assert Pow256(3) == 0x100_0000;
    assert Pow256(5) == 256 * Pow256(4);
    assert Pow256(6) == 256 * Pow256(5);
    assert Pow256(7) == 256 * Pow256(6);
  }

  /** The n low-order bytes of v, least significant first. */
  function Le(v: nat, n: nat): (s: seq<byte>)
    ensures |s| == n
  {
    if n == 0 then [] else [v % 256] + Le(v / 256, n - 1)
  }

  function FromLe(s: seq<byte>): nat
  {
    if s == [] then 0 else s[0] + 256 * FromLe(s[1..])
  }

  lemma {:induction false} DivModStep(v: nat, m: nat)
    requires m > 0
    ensures v % (256 * m) == v % 256 + 256 * ((v / 256) % m)
  {
    var q, r := v / 256, v % 256;
    var a, b := q / m, q % m;
    assert v == 256 * (a * m + b) + r;
    assert v == a * (256 * m) + (256 * b + r);
    assert 0 <= 256 * b + r < 256 * m by {
      assert b <= m - 1;
    }
    EuclidUnique(v, 256 * m, a, 256 * b + r);
  }

  lemma {:induction false} EuclidUnique(v: nat, d: nat, q: int, r: nat)
    requires d > 0 && r < d && v == q * d + r
    ensures v / d == q && v % d == r
  {
    var q' := v / d;
    var k := q - q';
    assert k * d == q * d - q' * d;
    if k >= 1 {
      MulAtLeast(k, d);
    } else if k <= -1 {
      MulAtLeast(-k, d);
    }
  }

  lemma MulAtLeast(k: nat, d: nat)
    requires k >= 1
    ensures k * d >= d
  {
    assert k * d == d + (k - 1) * d;
  }

  /** Reading back what was written gives the value truncated to n bytes. */
  lemma {:induction false} FromLeOfLe(v: nat, n: nat)
    ensures FromLe(Le(v, n)) == v % Pow256(n)
  {
    if n > 0 {
      FromLeOfLe(v / 256, n - 1);
      DivModStep(v, Pow256(n - 1));
      assert Le(v, n)[1..] == Le(v / 256, n - 1);
    }
  }

  /** Every byte string is the encoding of the number it denotes. */
  lemma {:induction false} LeOfFromLe(s: seq<byte>)
    ensures FromLe(s) < Pow256(|s|)
    ensures Le(FromLe(s), |s|) == s
  {
    if s != [] {
      LeOfFromLe(s[1..]);
      assert s == [s[0]] + s[1..];
    }
  }

  lemma Le32RoundTrip(v: nat)
    ensures FromLe(Le(v, 4)) == v % U32
    ensures v < U32 ==> FromLe(Le(v, 4)) == v
  {
    FromLeOfLe(v, 4);
    Pow256Values();
  }

  lemma Le64RoundTrip(v: nat)
    ensures FromLe(Le(v, 8)) == v % U64
    ensures v < U64 ==> FromLe(Le(v, 8)) == v
  {
    FromLeOfLe(v, 8);
    Pow256Values();
  }

  /** memchr: the offset of the first c, |s| when absent. */
  function Memchr(s: seq<byte>, c: byte): (n: nat)
    ensures n <= |s|
    ensures n < |s| ==> s[n] == c
    ensures forall i :: 0 <= i < n ==> s[i] != c
  {
    if s == [] || s[0] == c then 0 else 1 + Memchr(s[1..], c)
  }

  lemma MemchrAfter(a: seq<byte>, c: byte, b: seq<byte>)
    requires c !in a
    ensures Memchr(a + [c] + b, c) == |a|
  {
    var s := a + [c] + b;
    assert s[|a|] == c;
    forall i | 0 <= i < |a|
      ensures s[i] != c
    {
      assert s[i] == a[i] && a[i] in a;
    }
  }

  /** A zeroed buffer. */
  function Nuls(n: nat): (s: seq<byte>)
    ensures |s| == n
  {
    seq(n, _ => 0)
  }

  /** The bytes of s with those at pos replaced by b. */
  function Splice(s: seq<byte>, pos: nat, b: seq<byte>): (r: seq<byte>)
    requires pos + |b| <= |s|
    ensures |r| == |s|
  {
    s[..pos] + b + s[pos + |b|..]
  }

  lemma SpliceSplice(s: seq<byte>, pos: nat, a: seq<byte>, b: seq<byte>)
    requires pos + |a| + |b| <= |s|
    ensures Splice(Splice(s, pos, a), pos + |a|, b) == Splice(s, pos, a + b)
  {
  }

  lemma SubSlice(s: seq<byte>, a: nat, b: nat, c: nat, d: nat)
    requires a <= b <= |s| && c <= d <= b - a
    ensures s[a..b][c..d] == s[a + c..a + d]
  {
    var x, y := s[a..b][c..d], s[a + c..a + d];
    assert |x| == |y| && forall i :: 0 <= i < |x| ==> x[i] == y[i];
  }

  lemma SpliceOne(s: seq<byte>, pos: nat, c: byte)
    requires pos < |s|
    ensures Splice(s, pos, [c]) == s[pos := c]
  {
  }

  lemma SpliceNothing(s: seq<byte>, pos: nat, b: seq<byte>)
    requires pos <= |s| && b == []
    ensures Splice(s, pos, b) == s
  {
  }

  /** memcpy into a buffer. */
  method Blit(buf: array<byte>, pos: nat, b: seq<byte>)
    requires pos + |b| <= buf.Length
    modifies buf
    ensures buf[..] == Splice(old(buf[..]), pos, b)
  {
    forall i | 0 <= i < |b| {
      buf[pos + i] := b[i];
    }
  }

  /** Writing b just after a finished prefix p extends the prefix. */
  lemma SpliceExtends(s: seq<byte>, p: seq<byte>, b: seq<byte>)
    requires |p| + |b| <= |s| && s[..|p|] == p
    ensures Splice(s, |p|, b)[..|p| + |b|] == p + b
  {
    assert Splice(s, |p|, b)[..|p| + |b|] == s[..|p|] + b;
  }

  lemma Le4Bytes(v: nat)
    ensures Le(v, 4) == [v % 256, v / 256 % 256, v / 0x1_0000 % 256, v / 0x100_0000 % 256]
  {
    var a := v / 256;
    var b := a / 256;
    var c := b / 256;
    assert b == v / 0x1_0000 && c == v / 0x100_0000;
    assert Le(c, 1) == [c % 256] + Le(c / 256, 0);
    assert Le(b, 2) == [b % 256] + Le(c, 1);
    assert Le(a, 3) == [a % 256] + Le(b, 2);
    assert Le(v, 4) == [v % 256] + Le(a, 3);
  }

  method StoreLe32(buf: array<byte>, pos: nat, v: nat)
    requires pos + 4 <= buf.Length
    modifies buf
    ensures buf[..] == Splice(old(buf[..]), pos, Le(v, 4))
  {
    Le4Bytes(v);
    buf[pos] := v % 256;
    buf[pos + 1] := v / 256 % 256;
    buf[pos + 2] := v / 0x1_0000 % 256;
    buf[pos + 3] := v / 0x100_0000 % 256;
  }

  lemma {:induction false} LeByte(v: nat, n: nat)
    requires n > 0
    ensures Le(v, n) == Le(v, n - 1) + [v / Pow256(n - 1) % 256]
  {
    if n > 1 {
      LeByte(v / 256, n - 1);
      assert v / 256 / Pow256(n - 2) == v / Pow256(n - 1) by { DivDiv(v, Pow256(n - 2)); }
      assert Le(v, n) == [v % 256] + Le(v / 256, n - 1);
      assert Le(v, n - 1) == [v % 256] + Le(v / 256, n - 2);
    }
  }

  lemma {:induction false} DivDiv(v: nat, m: nat)
    requires m > 0
    ensures v / 256 / m == v / (256 * m)
  {
    var q, r := v / 256, v % 256;
    var a, b := q / m, q % m;
    assert v == a * (256 * m) + (256 * b + r) by {
      assert v == 256 * (a * m + b) + r;
    }
    assert b <= m - 1;
    EuclidUnique(v, 256 * m, a, 256 * b + r);
  }

  method StoreLe64(buf: array<byte>, pos: nat, v: nat)
    requires pos + 8 <= buf.Length
    modifies buf
    ensures buf[..] == Splice(old(buf[..]), pos, Le(v, 8))
  {
    hide Le, Splice, Pow256;
    ghost var s := buf[..];
    SpliceNothing(s, pos, Le(v, 0));
    for i := 0 to 8
      invariant buf[..] == Splice(s, pos, Le(v, i))
    {
      LeByte(v, i + 1);
      ghost var before := buf[..];
      var c: byte := v / Pow256(i) % 256;
      SpliceSplice(s, pos, Le(v, i), [c]);
      buf[pos + i] := c;
      SpliceOne(before, pos + i, c);
    }
  }
}
