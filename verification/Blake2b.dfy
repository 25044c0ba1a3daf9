/** Streaming BLAKE2b, unkeyed (cas.c: blake2b_init, blake2b_update,
    blake2b_final, blake2b_compress), against section 3 of RFC 7693. */
module Blake2b {
  import opened Bytes
  import opened Pack

  const BLOCKLEN: nat := 128
  const U128: nat := U64 * U64
  const ALL_ONES: bv64 := 0xFFFF_FFFF_FFFF_FFFF

  const IV: seq<bv64> := [
    0x6a09e667f3bcc908, 0xbb67ae8584caa73b, 0x3c6ef372fe94f82b, 0xa54ff53a5f1d36f1,
    0x510e527fade682d1, 0x9b05688c2b3e6c1f, 0x1f83d9abfb41bd6b, 0x5be0cd19137e2179]

  /** The message schedule of section 2.7: round r uses row r modulo 10. */
  const SIGMA: seq<seq<nat>> := [
    [0, 1, 2, 3, 4, 5, 6, 7, 8, 9, 10, 11, 12, 13, 14, 15],
    [14, 10, 4, 8, 9, 15, 13, 6, 1, 12, 0, 2, 11, 7, 5, 3],
    [11, 8, 12, 0, 5, 2, 15, 13, 10, 14, 3, 6, 7, 1, 9, 4],
    [7, 9, 3, 1, 13, 12, 11, 14, 2, 6, 5, 10, 4, 0, 15, 8],
    [9, 0, 5, 7, 2, 4, 10, 15, 14, 1, 11, 12, 6, 8, 3, 13],
    [2, 12, 6, 10, 0, 11, 8, 3, 4, 13, 7, 5, 15, 14, 1, 9],
    [12, 5, 1, 15, 14, 13, 4, 10, 0, 7, 6, 3, 9, 2, 8, 11],
    [13, 11, 7, 14, 12, 1, 3, 9, 5, 0, 15, 4, 8, 6, 2, 10],
    [6, 15, 14, 9, 11, 3, 0, 8, 12, 2, 13, 7, 1, 4, 10, 5],
    [10, 2, 8, 4, 7, 6, 1, 5, 15, 11, 9, 14, 3, 12, 13, 0]]

  /** The table the code indexes with the round: rows 10 and 11 repeat 0 and 1. */
  const TABLE: seq<seq<nat>> := SIGMA + [SIGMA[0], SIGMA[1]]

  /** k followed by the bits of iv as its fraction is the square root of p, cut
      after 64 bits. */
  predicate IsRoot(p: nat, k: nat, iv: bv64)
  {
    var w := k * 0x1_0000_0000_0000_0000 + iv as int;
    w * w <= p * 0x1_0000_0000_0000_0000_0000_0000_0000_0000 < (w + 1) * (w + 1)
  }

  /** The initial values are the fractions of the square roots of the first eight
      primes, as section 2.6 defines them. */
  lemma InitialValues()
    ensures |IV| == 8
    ensures IsRoot(2, 1, IV[0]) && IsRoot(3, 1, IV[1]) && IsRoot(5, 2, IV[2]) && IsRoot(7, 2, IV[3])
    ensures IsRoot(11, 3, IV[4]) && IsRoot(13, 3, IV[5]) && IsRoot(17, 4, IV[6]) && IsRoot(19, 4, IV[7])
  {
    hide SIGMA, TABLE;
  }

  /** The first n entries of a row, read as hexadecimal digits. */
  function Spelled(s: seq<nat>, n: nat): nat
    requires n <= |s|
  {
    if n == 0 then 0 else 16 * Spelled(s, n - 1) + s[n - 1]
  }

  predicate Spells(s: seq<nat>, number: nat) { |s| == 16 && Spelled(s, 16) == number }

  lemma FourDigits(s: seq<nat>, n: nat)
    requires n + 4 <= |s|
    ensures Spelled(s, n + 4) == 0x1_0000 * Spelled(s, n) + 0x1000 * s[n] + 0x100 * s[n + 1] + 0x10 * s[n + 2] + s[n + 3]
    ensures n == 0 ==> Spelled(s, n) == 0
  {
    hide SIGMA, TABLE, IV;
    assert Spelled(s, n + 2) == 0x100 * Spelled(s, n) + 0x10 * s[n] + s[n + 1];
  }

  lemma RowDigits(s: seq<nat>)
    requires |s| == 16
    ensures Spelled(s, 16) == 0x1_0000_0000_0000 * (0x1000 * s[0] + 0x100 * s[1] + 0x10 * s[2] + s[3])
                              + 0x1_0000_0000 * (0x1000 * s[4] + 0x100 * s[5] + 0x10 * s[6] + s[7])
                              + 0x1_0000 * (0x1000 * s[8] + 0x100 * s[9] + 0x10 * s[10] + s[11])
                              + (0x1000 * s[12] + 0x100 * s[13] + 0x10 * s[14] + s[15])
  {
    hide *;
    FourDigits(s, 0);
    FourDigits(s, 4);
    FourDigits(s, 8);
    FourDigits(s, 12);
  }

  /** The rows of section 2.7, each as a number of sixteen hexadecimal digits. */
  lemma ScheduleRows()
    ensures |SIGMA| == 10
    ensures Spells(SIGMA[0], 0x0123456789ABCDEF) && Spells(SIGMA[1], 0xEA489FD61C02B753)
    ensures Spells(SIGMA[2], 0xB8C052FDAE367194) && Spells(SIGMA[3], 0x7931DCBE265A40F8)
    ensures Spells(SIGMA[4], 0x905724AFE1BC683D) && Spells(SIGMA[5], 0x2C6A0B834D75FE19)
    ensures Spells(SIGMA[6], 0xC51FED4A0763928B) && Spells(SIGMA[7], 0xDB7EC13950F4862A)
    ensures Spells(SIGMA[8], 0x6FE9B308C2D714A5) && Spells(SIGMA[9], 0xA2847615FB9E3CD0)
  {
    hide IV, TABLE, Spelled;
    RowDigits(SIGMA[0]);
    RowDigits(SIGMA[1]);
    RowDigits(SIGMA[2]);
    RowDigits(SIGMA[3]);
    RowDigits(SIGMA[4]);
    RowDigits(SIGMA[5]);
    RowDigits(SIGMA[6]);
    RowDigits(SIGMA[7]);
    RowDigits(SIGMA[8]);
    RowDigits(SIGMA[9]);
  }

  predicate Schedule(s: seq<nat>) { |s| == 16 && forall i :: 0 <= i < 16 ==> s[i] < 16 }

  lemma TableIsSchedule(r: nat)
    requires r < 12
    ensures |TABLE| == 12 && TABLE[r] == SIGMA[r % 10] && Schedule(TABLE[r])
  {
  }

  // ------------------------------------------------------------------
  // The compression function, section 3.2
  // ------------------------------------------------------------------

  type Work = v: seq<bv64> | |v| == 16 witness seq(16, _ => 0)

  type Chain = h: seq<bv64> | |h| == 8 witness seq(8, _ => 0)

  function Rotr(x: bv64, n: nat): bv64
    requires 0 < n < 64
  {
    (x >> n) | (x << (64 - n))
  }

  function Add(x: bv64, y: bv64): bv64 { x + y }

  function Xor(x: bv64, y: bv64): bv64 { x ^ y }

  /** The mixing function G of section 3.1. */
  function G(v: Work, a: nat, b: nat, c: nat, d: nat, x: bv64, y: bv64): Work
    requires a < 16 && b < 16 && c < 16 && d < 16
  {
    hide Add, Xor, Rotr;
    var v1 := v[a := Add(Add(v[a], v[b]), x)];
    var v2 := v1[d := Rotr(Xor(v1[d], v1[a]), 32)];
    var v3 := v2[c := Add(v2[c], v2[d])];
    var v4 := v3[b := Rotr(Xor(v3[b], v3[c]), 24)];
    var v5 := v4[a := Add(Add(v4[a], v4[b]), y)];
    var v6 := v5[d := Rotr(Xor(v5[d], v5[a]), 16)];
    var v7 := v6[c := Add(v6[c], v6[d])];
    v7[b := Rotr(Xor(v7[b], v7[c]), 63)]
  }

  /** The eight mixings of one round: columns, then diagonals. */
  function Round(v: Work, m: Work, s: seq<nat>): Work
    requires Schedule(s)
  {
    hide G;
    var c0 := G(v, 0, 4, 8, 12, m[s[0]], m[s[1]]);
    var c1 := G(c0, 1, 5, 9, 13, m[s[2]], m[s[3]]);
    var c2 := G(c1, 2, 6, 10, 14, m[s[4]], m[s[5]]);
    var c3 := G(c2, 3, 7, 11, 15, m[s[6]], m[s[7]]);
    var d0 := G(c3, 0, 5, 10, 15, m[s[8]], m[s[9]]);
    var d1 := G(d0, 1, 6, 11, 12, m[s[10]], m[s[11]]);
    var d2 := G(d1, 2, 7, 8, 13, m[s[12]], m[s[13]]);
    G(d2, 3, 4, 9, 14, m[s[14]], m[s[15]])
  }

  function Rounds(v: Work, m: Work, n: nat): Work
  {
    if n == 0 then v
    else
      TableIsSchedule((n - 1) % 10);
      Round(Rounds(v, m, n - 1), m, SIGMA[(n - 1) % 10])
  }

  type Block = b: seq<byte> | |b| == 128 witness seq(128, _ => 0)

  function Load64(s: seq<byte>): bv64
    requires |s| == 8
  {
    LeOfFromLe(s);
    Pow256Values();
    Word(FromLe(s))
  }

  /** The sixteen little-endian words of a block. */
  function Words(b: Block): Work
  {
    seq(16, i requires 0 <= i < 16 => Load64(b[8 * i..8 * i + 8]))
  }

  /** The initial work vector: chain value and IV, offset counter and final flag
      mixed into the last four words. */
  function WorkVector(h: Chain, t: nat, last: bool): Work
    requires t < U128
  {
    Mixed(h + IV, Low(t), High(t), if last then ALL_ONES else 0, 0)
  }

  function Mixed(v: Work, t0: bv64, t1: bv64, f0: bv64, f1: bv64): Work
  {
    hide Xor;
    v[12 := Xor(v[12], t0)][13 := Xor(v[13], t1)][14 := Xor(v[14], f0)][15 := Xor(v[15], f1)]
  }

  function Word(n: nat): bv64
    requires n < U64
  {
    n as bv64
  }

  function Low(t: nat): bv64
  {
    hide Word;
    Word(t % U64)
  }

  function High(t: nat): bv64
    requires t < U128
  {
    hide Word;
    Word(t / U64)
  }

  /** F(h, m, t, f) */
  function F(h: Chain, b: Block, t: nat, last: bool): Chain
    requires t < U128
  {
    hide WorkVector, Words, Rounds, Xor;
    Fold(h, Rounds(WorkVector(h, t, last), Words(b), 12))
  }

  function Fold(h: Chain, v: Work): Chain
  {
    hide Xor;
    seq(8, i requires 0 <= i < 8 => Xor(h[i], Xor(v[i], v[i + 8])))
  }

  // ------------------------------------------------------------------
  // The hash, section 3.3
  // ------------------------------------------------------------------

  function ParameterBlock(outlen: nat): Chain
    requires outlen <= 64
  {
    IV[0 := Xor(IV[0], Xor(0x0101_0000, Word(outlen)))]
  }

  /** The parameter block of section 2.5 holds the digest length, no key and one
      level; every other word is zero. */
  lemma ParametersFor(outlen: nat)
    requires outlen <= 64
    ensures var h := ParameterBlock(outlen);
            h[0] ^ IV[0] == 0x0101_0000 ^ (outlen as bv64) && forall i :: 0 < i < 8 ==> h[i] == IV[i]
  {
    hide SIGMA, TABLE;
  }

  /** Word i of a block is its bytes 8i to 8i + 7, the first least significant. */
  lemma WordAt(b: Block, i: nat)
    requires i < 16
    ensures FromLe(b[8 * i..8 * i + 8]) < U64 && Words(b)[i] == Word(FromLe(b[8 * i..8 * i + 8]))
  {
    hide SIGMA, TABLE, IV, Word, FromLe;
    LeOfFromLe(b[8 * i..8 * i + 8]);
    Pow256Values();
  }

  /** The chain value after the first k blocks, none of them final. */
  function AfterBlocks(h: Chain, msg: seq<byte>, k: nat): Chain
    requires BLOCKLEN * k <= |msg|
  {
    hide F;
    if k == 0 then h
    else F(AfterBlocks(h, msg, k - 1), msg[BLOCKLEN * (k - 1)..BLOCKLEN * k], BLOCKLEN * k % U128, false)
  }

  function Pad(s: seq<byte>): Block
    requires |s| <= 128
  {
    s + Nuls(128 - |s|)
  }

  /** dd - 1: how many blocks come before the last one.  The last block holds 1
      to 128 bytes, or none when the message is empty. */
  function FullBlocks(n: nat): (k: nat)
    ensures BLOCKLEN * k <= n <= BLOCKLEN * k + 128
  {
    if n == 0 then 0 else (n - 1) / BLOCKLEN
  }

  function Finished(msg: seq<byte>, outlen: nat): Chain
    requires outlen <= 64
  {
    var k := FullBlocks(|msg|);
    F(AfterBlocks(ParameterBlock(outlen), msg, k), Pad(msg[BLOCKLEN * k..]), |msg| % U128, true)
  }

  function Output(h: seq<bv64>): (s: seq<byte>)
    ensures |s| == 8 * |h|
  {
    if h == [] then [] else Output(h[..|h| - 1]) + Le(h[|h| - 1] as int, 8)
  }

  /** BLAKE2b of a message, without a key. */
  function Digest2b(msg: seq<byte>, outlen: nat): (d: seq<byte>)
    requires outlen <= 64
    ensures |d| == outlen
  {
    Output(Finished(msg, outlen))[..outlen]
  }

  // ------------------------------------------------------------------
  // The code
  // ------------------------------------------------------------------

  /** blake2b_g */
  method Mix(v: array<bv64>, a: nat, b: nat, c: nat, d: nat, x: bv64, y: bv64)
    requires v.Length == 16 && a < 16 && b < 16 && c < 16 && d < 16
    modifies v
    ensures v[..] == G(old(v[..]), a, b, c, d, x, y)
  {
    hide Add, Xor, Rotr;
    v[a] := Add(Add(v[a], v[b]), x);
    v[d] := Rotr(Xor(v[d], v[a]), 32);
    v[c] := Add(v[c], v[d]);
    v[b] := Rotr(Xor(v[b], v[c]), 24);
    v[a] := Add(Add(v[a], v[b]), y);
    v[d] := Rotr(Xor(v[d], v[a]), 16);
    v[c] := Add(v[c], v[d]);
    v[b] := Rotr(Xor(v[b], v[c]), 63);
  }

  /** blake2b_compress on the chain words; t0, t1 are the counter's words and f0
      the flag word. */
  method Compress(h: array<bv64>, t0: nat, t1: nat, f0: bv64, block: Block)
    requires h.Length == 8 && t0 < U64 && t1 < U64 && (f0 == 0 || f0 == ALL_ONES)
    modifies h
    ensures h[..] == F(old(h[..]), block, t1 * U64 + t0, f0 == ALL_ONES)
  {
    hide *;
    ghost var h0, t, last := h[..], t1 * U64 + t0, f0 == ALL_ONES;
    CounterWords(t0, t1);
    var m: Work := Words(block);
    var v := NewWork(h, t0, t1, f0);
    RoundsStart(v[..], m);
    for i := 0 to 12
      invariant h[..] == h0
      invariant v[..] == Rounds(WorkVector(h0, t, last), m, i)
    {
      TableIsSchedule(i);
      RoundsStep(WorkVector(h0, t, last), m, i);
      RunRound(v, m, TABLE[i]);
    }
    FIs(h0, block, t, last);
    FoldInto(h, v);
  }

  /** The work vector as the code sets it up. */
  method NewWork(h: array<bv64>, t0: nat, t1: nat, f0: bv64) returns (v: array<bv64>)
    requires h.Length == 8 && t0 < U64 && t1 < U64 && (f0 == 0 || f0 == ALL_ONES)
    ensures v.Length == 16 && fresh(v)
    ensures t1 * U64 + t0 < U128 && v[..] == WorkVector(h[..], t1 * U64 + t0, f0 == ALL_ONES)
  {
    hide Xor, Low, High, Word;
    CounterWords(t0, t1);
    var iv := IV;
    assert |iv| == 8;
    hide IV;
    v := new bv64[16];
    for i := 0 to 8
      invariant v[..i] == h[..i] && v[8..8 + i] == iv[..i]
    {
      v[i] := h[i];
      v[i + 8] := iv[i];
    }
    ghost var base := v[..];
    assert base == v[..8] + v[8..16];
    assert base == h[..] + iv;
    v[12] := Xor(v[12], Word(t0));
    v[13] := Xor(v[13], Word(t1));
    v[14] := Xor(v[14], f0);
    v[15] := Xor(v[15], 0);
    assert v[..] == Mixed(base, Word(t0), Word(t1), f0, 0);
  }

  method FoldInto(h: array<bv64>, v: array<bv64>)
    requires h.Length == 8 && v.Length == 16 && h != v
    modifies h
    ensures h[..] == Fold(old(h[..]), v[..])
  {
    hide Xor;
    for i := 0 to 8
      invariant forall k :: 0 <= k < i ==> h[k] == Xor(old(h[k]), Xor(v[k], v[k + 8]))
      invariant forall k :: i <= k < 8 ==> h[k] == old(h[k])
    {
      h[i] := Xor(h[i], Xor(v[i], v[i + 8]));
    }
  }

  lemma RoundsStart(v: Work, m: Work)
    ensures Rounds(v, m, 0) == v
  {
  }

  lemma RoundsStep(v: Work, m: Work, i: nat)
    requires i < 12 && Schedule(TABLE[i])
    ensures Rounds(v, m, i + 1) == Round(Rounds(v, m, i), m, TABLE[i])
  {
    hide Round;
    TableIsSchedule(i);
  }

  lemma FIs(h: Chain, b: Block, t: nat, last: bool)
    requires t < U128
    ensures F(h, b, t, last) == Fold(h, Rounds(WorkVector(h, t, last), Words(b), 12))
  {
  }

  method RunRound(v: array<bv64>, m: Work, s: seq<nat>)
    requires v.Length == 16 && Schedule(s)
    modifies v
    ensures v[..] == Round(old(v[..]), m, s)
  {
    hide G;
    Mix(v, 0, 4, 8, 12, m[s[0]], m[s[1]]);
    Mix(v, 1, 5, 9, 13, m[s[2]], m[s[3]]);
    Mix(v, 2, 6, 10, 14, m[s[4]], m[s[5]]);
    Mix(v, 3, 7, 11, 15, m[s[6]], m[s[7]]);
    Mix(v, 0, 5, 10, 15, m[s[8]], m[s[9]]);
    Mix(v, 1, 6, 11, 12, m[s[10]], m[s[11]]);
    Mix(v, 2, 7, 8, 13, m[s[12]], m[s[13]]);
    Mix(v, 3, 4, 9, 14, m[s[14]], m[s[15]]);
  }

  lemma CounterWords(t0: nat, t1: nat)
    requires t0 < U64 && t1 < U64
    ensures t1 * U64 + t0 < U128
    ensures Low(t1 * U64 + t0) == Word(t0) && High(t1 * U64 + t0) == Word(t1)
  {
    hide Word;
  }

  // ------------------------------------------------------------------
  // Streaming
  // ------------------------------------------------------------------

  lemma {:induction false} AfterBlocksExtend(h: Chain, a: seq<byte>, b: seq<byte>, k: nat)
    requires BLOCKLEN * k <= |a|
    ensures AfterBlocks(h, a + b, k) == AfterBlocks(h, a, k)
    decreases k
  {
    hide F;
    if k > 0 {
      AfterBlocksExtend(h, a, b, k - 1);
      assert (a + b)[BLOCKLEN * (k - 1)..BLOCKLEN * k] == a[BLOCKLEN * (k - 1)..BLOCKLEN * k];
    }
  }

  lemma AfterBlocksStep(h: Chain, msg: seq<byte>, k: nat, block: Block)
    requires BLOCKLEN * (k + 1) <= |msg| && block == msg[BLOCKLEN * k..BLOCKLEN * (k + 1)]
    ensures AfterBlocks(h, msg, k + 1) == F(AfterBlocks(h, msg, k), block, BLOCKLEN * (k + 1) % U128, false)
  {
    hide F;
  }

  lemma ModAdd(n: nat, d: nat, m: nat)
    requires m > 0
    ensures (n + d) % m == (n % m + d) % m
  {
    var q, r := n / m, n % m;
    var a, b := (r + d) / m, (r + d) % m;
    assert n + d == (q + a) * m + b;
    RemainderIs(n + d, m, q + a, b);
  }

  /** Counting d bytes in two words. */
  lemma Bumped(n: nat, t0: nat, t1: nat, d: nat)
    requires t0 < U64 && t1 < U64 && t1 * U64 + t0 == n % U128 && d <= BLOCKLEN
    ensures var u0 := (t0 + d) % U64; var u1 := (t1 + (if u0 < d then 1 else 0)) % U64;
            u1 * U64 + u0 == (n + d) % U128
  {
    ModAdd(n, d, U128);
    if t0 + d < U64 {
      LowWord(t0 + d, 0);
      LowWord(t1, 0);
      RemainderIs(n % U128 + d, U128, 0, t1 * U64 + (t0 + d));
    } else {
      LowWord(t0 + d, 1);
      if t1 + 1 < U64 {
        LowWord(t1 + 1, 0);
        RemainderIs(n % U128 + d, U128, 0, (t1 + 1) * U64 + (t0 + d - U64));
      } else {
        LowWord(t1 + 1, 1);
        RemainderIs(n % U128 + d, U128, 1, t0 + d - U64);
      }
    }
  }

  lemma LowWord(x: nat, carry: nat)
    requires carry * U64 <= x < carry * U64 + U64
    ensures x % U64 == x - carry * U64
  {
    RemainderIs(x, U64, carry, x - carry * U64);
  }

  lemma RemainderIs(n: nat, d: nat, q: nat, r: nat)
    requires r < d && n == q * d + r
    ensures n % d == r
  {
    EuclidUnique(n, d, q, r);
  }

  /** Bytes i to j of what is fed, when the buffer holds its tail. */
  lemma TailThenData(fed: seq<byte>, data: seq<byte>, buffered: seq<byte>, from: nat, n: nat)
    requires from + |buffered| == |fed| && buffered == fed[from..] && n <= |data|
    ensures buffered + data[..n] == (fed + data)[from..|fed| + n]
  {
  }

  /** The chain value and the counter account for exactly the first k blocks. */
  ghost predicate Accounts(chain: seq<bv64>, t0: nat, t1: nat, outlen: nat, msg: seq<byte>, k: nat)
    requires outlen <= 64 && BLOCKLEN * k <= |msg|
  {
    t0 < U64 && t1 < U64 && t1 * U64 + t0 == BLOCKLEN * k % U128
    && chain == AfterBlocks(ParameterBlock(outlen), msg, k)
  }

  lemma MoreMessage(chain: seq<bv64>, t0: nat, t1: nat, outlen: nat, msg: seq<byte>, k: nat, data: seq<byte>)
    requires outlen <= 64 && BLOCKLEN * k <= |msg| && Accounts(chain, t0, t1, outlen, msg, k)
    ensures Accounts(chain, t0, t1, outlen, msg + data, k)
  {
    hide F, ParameterBlock;
    AfterBlocksExtend(ParameterBlock(outlen), msg, data, k);
  }

  lemma ThreeParts(fed: seq<byte>, data: seq<byte>, i: nat, j: nat)
    requires i <= j <= |data|
    ensures fed + data[..i] + data[i..j] + data[j..] == fed + data
  {
  }

  class Hasher {
    const h: array<bv64>
    const buf: array<byte>
    const outlen: nat
    var t0: nat
    var t1: nat
    var f0: bv64
    var buflen: nat

    /** Everything fed so far, and how many of its blocks are compressed. */
    ghost var fed: seq<byte>
    ghost var blocks: nat

    ghost predicate Shaped()
      reads this, h, buf
    {
      h.Length == 8 && buf.Length == 128 && outlen <= 64 && f0 == 0
    }

    /** The buffer holds the tail of the message; what precedes it is compressed. */
    ghost predicate Buffered()
      reads this, h, buf
    {
      && Shaped() && buflen <= 128
      && |fed| == BLOCKLEN * blocks + buflen
      && buf[..buflen] == fed[BLOCKLEN * blocks..]
      && Accounts(h[..], t0, t1, outlen, fed, blocks)
    }

    /** Between updates it is never empty once anything was fed. */
    ghost predicate Valid()
      reads this, h, buf
    {
      Buffered() && (fed != [] ==> buflen > 0)
    }

    /** blake2b_init */
    constructor (outlen: nat)
      requires outlen <= 64
      ensures Valid() && fed == [] && this.outlen == outlen && fresh(h) && fresh(buf)
    {
      hide F, ParameterBlock;
      var p := ParameterBlock(outlen);
      h := new bv64[8](i requires 0 <= i < 8 => p[i]);
      buf := new byte[128](_ => 0);
      this.outlen := outlen;
      t0, t1, f0, buflen, fed, blocks := 0, 0, 0, 0, [], 0;
      new;
      assert h[..] == p;
    }

    /** The 128-bit counter moves on by d bytes. */
    method Count(d: nat, ghost n: nat)
      requires t0 < U64 && t1 < U64 && t1 * U64 + t0 == n % U128 && d <= BLOCKLEN
      modifies this`t0, this`t1
      ensures t0 < U64 && t1 < U64 && t1 * U64 + t0 == (n + d) % U128
    {
      Bumped(n, t0, t1, d);
      t0 := (t0 + d) % U64;
      t1 := (t1 + (if t0 < d then 1 else 0)) % U64;
    }

    /** Count one block of the message and compress it. */
    method Absorb(block: Block, ghost msg: seq<byte>, ghost k: nat)
      requires Shaped() && BLOCKLEN * (k + 1) <= |msg| && block == msg[BLOCKLEN * k..BLOCKLEN * (k + 1)]
      requires Accounts(h[..], t0, t1, outlen, msg, k)
      modifies this`t0, this`t1, h
      ensures Shaped() && Accounts(h[..], t0, t1, outlen, msg, k + 1)
    {
      hide F, AfterBlocks, ParameterBlock;
      AfterBlocksStep(ParameterBlock(outlen), msg, k, block);
      Count(BLOCKLEN, BLOCKLEN * k);
      Compress(h, t0, t1, f0, block);
    }

    /** memcpy to the end of what is buffered. */
    method FillBuffer(b: seq<byte>)
      requires buf.Length == 128 && buflen + |b| <= 128
      modifies buf
      ensures buf[..buflen + |b|] == old(buf[..buflen]) + b
    {
      Blit(buf, buflen, b);
      assert buf[..buflen + |b|] == buf[..][..buflen + |b|];
    }

    /** Fill the buffer up from the start of the data and compress it. */
    method CompleteBuffer(data: seq<byte>)
      requires Valid() && buflen + |data| == BLOCKLEN
      modifies this, h, buf
      ensures Buffered() && buflen == 0 && fed == old(fed) + data
    {
      hide F, AfterBlocks, ParameterBlock, Accounts;
      MoreMessage(h[..], t0, t1, outlen, fed, blocks, data);
      TailThenData(fed, data, buf[..buflen], BLOCKLEN * blocks, |data|);
      FillBuffer(data);
      assert buf[..] == buf[..buflen + |data|];
      assert data[..|data|] == data;
      fed := fed + data;
      Absorb(buf[..], fed, blocks);
      blocks := blocks + 1;
      buflen := 0;
    }

    /** Compress whole blocks straight from the data while more follows. */
    method WholeBlocks(data: seq<byte>, start: nat) returns (p: nat)
      requires Buffered() && buflen == 0 && start < |data|
      modifies this, h
      ensures Buffered() && buflen == 0 && start <= p < |data| <= p + BLOCKLEN
      ensures fed == old(fed) + data[start..p]
    {
      hide F, AfterBlocks, ParameterBlock, Accounts;
      p := start;
      assert fed + data[start..start] == fed;
      while |data| - p > BLOCKLEN
        invariant Shaped() && buflen == 0 && start <= p < |data|
        invariant fed == old(fed) + data[start..p] && |fed| == BLOCKLEN * blocks
        invariant Accounts(h[..], t0, t1, outlen, fed, blocks)
      {
        var block: Block := data[p..p + BLOCKLEN];
        MoreMessage(h[..], t0, t1, outlen, fed, blocks, block);
        assert data[start..p + BLOCKLEN] == data[start..p] + block;
        ghost var msg := fed + block;
        assert block == msg[BLOCKLEN * blocks..BLOCKLEN * (blocks + 1)];
        fed := msg;
        Absorb(block, msg, blocks);
        p := p + BLOCKLEN;
        blocks := blocks + 1;
        assert fed == old(fed) + data[start..p];
      }
    }

    /** Buffer what is left. */
    method Keep(data: seq<byte>)
      requires Buffered() && data != [] && buflen + |data| <= BLOCKLEN
      modifies this, buf
      ensures Valid() && fed == old(fed) + data
    {
      hide F, AfterBlocks, ParameterBlock, Accounts;
      MoreMessage(h[..], t0, t1, outlen, fed, blocks, data);
      TailThenData(fed, data, buf[..buflen], BLOCKLEN * blocks, |data|);
      assert data[..|data|] == data;
      FillBuffer(data);
      buflen := buflen + |data|;
      fed := fed + data;
    }

    lemma Bounded()
      requires Buffered()
      ensures buflen <= 128 && buf.Length == 128
    {
      hide F, AfterBlocks, ParameterBlock, Accounts;
    }

    /** blake2b_update */
    method Update(data: seq<byte>)
      requires Valid()
      modifies this, h, buf
      ensures Valid() && fed == old(fed) + data
    {
      hide Buffered;
      if |data| == 0 {
        assert fed + data == fed;
        return;
      }
      Bounded();
      ghost var before := fed;
      var fill := BLOCKLEN - buflen;
      if |data| <= fill {
        Keep(data);
        return;
      }
      CompleteBuffer(data[..fill]);
      var p := WholeBlocks(data, fill);
      Keep(data[p..]);
      ThreeParts(before, data, fill, p);
    }

    /** blake2b_final */
    method Final() returns (out: seq<byte>)
      requires Valid()
      modifies this, h, buf
      ensures out == Digest2b(old(fed), outlen)
    {
      hide F, AfterBlocks, ParameterBlock, Output, Digest2b, FullBlocks;
      LastBlock(|fed|, blocks, buflen);
      Count(buflen, BLOCKLEN * blocks);
      f0 := ALL_ONES;
      PadBuffer();
      FinishedIs(fed, outlen, blocks);
      Compress(h, t0, t1, f0, buf[..]);
      out := Output(h[..])[..outlen];
    }

    method PadBuffer()
      requires buf.Length == 128 && buflen <= 128
      modifies buf
      ensures buf[..] == Pad(old(buf[..buflen]))
    {
      FillBuffer(Nuls(BLOCKLEN - buflen));
      assert buf[..] == buf[..BLOCKLEN];
    }
  }

  /** With 1 to 128 bytes buffered, or none of an empty message, the buffer is
      the last block. */
  lemma LastBlock(n: nat, k: nat, buffered: nat)
    requires n == BLOCKLEN * k + buffered && buffered <= 128 && (n > 0 ==> buffered > 0)
    ensures FullBlocks(n) == k
  {
  }

  lemma FinishedIs(msg: seq<byte>, outlen: nat, k: nat)
    requires outlen <= 64 && FullBlocks(|msg|) == k
    ensures Digest2b(msg, outlen)
            == Output(F(AfterBlocks(ParameterBlock(outlen), msg, k), Pad(msg[BLOCKLEN * k..]), |msg| % U128, true))[..outlen]
  {
    hide F, AfterBlocks, ParameterBlock, Output, FullBlocks;
  }

  function Flatten(chunks: seq<seq<byte>>): seq<byte>
  {
    if chunks == [] then [] else Flatten(chunks[..|chunks| - 1]) + chunks[|chunks| - 1]
  }

  /** However a message is split into updates, the digest is that of the whole. */
  method HashChunks(chunks: seq<seq<byte>>, outlen: nat) returns (out: seq<byte>)
    requires outlen <= 64
    ensures out == Digest2b(Flatten(chunks), outlen)
  {
    hide Digest2b;
    var s := new Hasher(outlen);
    for i := 0 to |chunks|
      invariant s.Valid() && s.outlen == outlen && fresh(s) && fresh(s.h) && fresh(s.buf)
      invariant s.fed == Flatten(chunks[..i])
    {
      assert chunks[..i + 1][..i] == chunks[..i];
      s.Update(chunks[i]);
    }
    assert chunks[..|chunks|] == chunks;
    out := s.Final();
  }

  /** cas_digest_object: the digest of the header text and the plaintext, or
      nothing at all when the header text does not fit its buffer. */
  method DigestObject(kind: seq<byte>, data: seq<byte>) returns (out: Option<Digest>)
    ensures out == if |HeaderText(kind, |data|)| <= HEADER_LIMIT then Some(Digest2b(HeaderText(kind, |data|) + data, 32)) else None
  {
    hide Digest2b, HeaderText;
    if |HeaderText(kind, |data|)| > HEADER_LIMIT {
      return None;
    }
    var s := new Hasher(32);
    s.Update(HeaderText(kind, |data|));
    s.Update(data);
    var digest := s.Final();
    assert [] + HeaderText(kind, |data|) == HeaderText(kind, |data|);
    out := Some(digest);
  }

  /** With a type the store accepts that only happens from 10^14 bytes on. */
  lemma HeaderFits(kind: seq<byte>, len: nat)
    requires ValidKind(kind) && len < 100_0000_0000_0000
    ensures |HeaderText(kind, len)| <= HEADER_LIMIT
  {
    assert Pow10(5) == 10_0000;
    assert Pow10(10) == 100_0000_0000;
    assert Pow10(14) == 100_0000_0000_0000;
    hide Pow10;
    DigitsAreFew(len, 14);
  }
}
