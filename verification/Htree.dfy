/** The hash-table form of a directory (cas-tree.c: htree_build,
    htree_parse_dir, htree_lookup_entry): its layout, the builder that writes it
    in place, and the two ways of reading it. */
module Htree {
  import opened Bytes
  import opened Entries
  import opened TreeText

  const NBUCKETS: nat := 256
  const HEADER_LEN: nat := 2048
  const FOOTER_LEN: nat := 8
  const DATA_LEN: nat := 56
  const MAGIC: seq<byte> := [0x48, 0x54, 0x76, 0x31]

  // ------------------------------------------------------------------
  // Hashes
  // ------------------------------------------------------------------

  function DjbStep(h: bv32, c: byte): bv32 { (h * 33) ^ (c as bv32) }

  function DjbFrom(h: bv32, key: seq<byte>): bv32
    decreases |key|
  {
    if key == [] then h else DjbFrom(DjbStep(h, key[0]), key[1..])
  }

  function Djb(key: seq<byte>): (h: nat)
    ensures h < U32
  {
    DjbFrom(5381, key) as nat
  }

  lemma DjbSteps()
    ensures DjbStep(5381, 0x61) == 177604 && DjbStep(177604, 0x62) == 5860902 && DjbStep(5860902, 0x63) == 193409669
  {
  }

  lemma DjbNext(h: bv32, c: byte, rest: seq<byte>)
    ensures DjbFrom(h, [c] + rest) == DjbFrom(DjbStep(h, c), rest)
    ensures DjbFrom(h, []) == h
  {
    hide DjbStep;
    assert ([c] + rest)[1..] == rest;
  }

  /** The hash starts at 5381 and each byte comes after a multiplication by 33:
      the hashes of nothing, of "a" and of "abc". */
  lemma DjbAnswers(s: seq<byte>)
    requires s == [0x61, 0x62, 0x63]
    ensures Djb([]) == 5381 && Djb(s[..1]) == 177604 && Djb(s) == 193409669
  {
    DjbSteps();
    DjbNext(5381, 0x61, [0x62, 0x63]);
    DjbNext(177604, 0x62, [0x63]);
    DjbNext(5860902, 0x63, []);
    DjbNext(5381, 0x61, []);
    hide DjbStep, DjbFrom;
    assert [0x61] + [0x62, 0x63] == s && [0x62] + [0x63] == [0x62, 0x63] && [0x63] + [] == [0x63] && [0x61] + [] == s[..1];
  }

  /** djb_hash */
  method DjbHash(key: seq<byte>) returns (h: nat)
    ensures h == Djb(key)
  {
    hide DjbStep;
    var v: bv32 := 5381;
    assert key[0..] == key;
    for i := 0 to |key|
      invariant DjbFrom(v, key[i..]) == DjbFrom(5381, key)
    {
      assert key[i..][1..] == key[i + 1..];
      v := DjbStep(v, key[i]);
    }
    h := v as nat;
  }

  function AdlerUpTo(s: seq<byte>, n: nat): (r: (nat, nat))
    requires n <= |s|
    ensures r.0 < 65521 && r.1 < 65521
  {
    if n == 0 then (1, 0)
    else
      var p := AdlerUpTo(s, n - 1);
      var a := (p.0 + s[n - 1]) % 65521;
      (a, (p.1 + a) % 65521)
  }

  /** One more than the sum of the first n bytes. */
  function SumUpTo(s: seq<byte>, n: nat): nat
    requires n <= |s|
  {
    if n == 0 then 1 else SumUpTo(s, n - 1) + s[n - 1]
  }

  /** The sum of those sums. */
  function SumOfSums(s: seq<byte>, n: nat): nat
    requires n <= |s|
  {
    if n == 0 then 0 else SumOfSums(s, n - 1) + SumUpTo(s, n)
  }

  lemma ModPlus(x: nat, y: nat, m: nat)
    requires m > 0
    ensures (x % m + y) % m == (x + y) % m
  {
    var q, r := x / m, x % m;
    var a, b := (r + y) / m, (r + y) % m;
    assert x + y == (q + a) * m + b;
    EuclidUnique(x + y, m, q + a, b);
  }

  /** The two halves of the checksum of section 8.2 of RFC 1950: sums modulo the
      largest prime below 65536. */
  lemma {:induction false} AdlerSums(s: seq<byte>, n: nat)
    requires n <= |s|
    ensures AdlerUpTo(s, n) == (SumUpTo(s, n) % 65521, SumOfSums(s, n) % 65521)
    decreases n
  {
    if n > 0 {
      AdlerSums(s, n - 1);
      AdlerNext(s, n);
      hide *;
      SumsNext(SumUpTo(s, n - 1), SumOfSums(s, n - 1), s[n - 1]);
    }
  }

  lemma AdlerNext(s: seq<byte>, n: nat)
    requires 0 < n <= |s|
    ensures var p := AdlerUpTo(s, n - 1); var a := (p.0 + s[n - 1]) % 65521;
            AdlerUpTo(s, n) == (a, (p.1 + a) % 65521)
    ensures SumUpTo(s, n) == SumUpTo(s, n - 1) + s[n - 1] && SumOfSums(s, n) == SumOfSums(s, n - 1) + SumUpTo(s, n)
  {
  }

  lemma SumsNext(a: nat, b: nat, c: nat)
    ensures (a % 65521 + c) % 65521 == (a + c) % 65521
    ensures (b % 65521 + (a + c) % 65521) % 65521 == (b + (a + c)) % 65521
  {
    ModPlus(a, c, 65521);
    ModPlus(b, (a + c) % 65521, 65521);
    ModPlus(a + c, b, 65521);
  }

  /** The checksum has the sum of sums above the sum. */
  lemma AdlerIs(s: seq<byte>)
    ensures Adler(s) == 0x1_0000 * (SumOfSums(s, |s|) % 65521) + SumUpTo(s, |s|) % 65521
  {
    hide AdlerUpTo, SumUpTo, SumOfSums;
    AdlerSums(s, |s|);
  }

  function Adler(s: seq<byte>): (r: nat)
    ensures r < U32
  {
    AdlerUpTo(s, |s|).1 * 0x1_0000 + AdlerUpTo(s, |s|).0
  }

  /** adler32 of the first n bytes of a buffer */
  method Adler32(buf: array<byte>, n: nat) returns (r: nat)
    requires n <= buf.Length
    ensures r == Adler(buf[..n])
  {
    var a: nat, b: nat := 1, 0;
    for i := 0 to n
      invariant (a, b) == AdlerUpTo(buf[..n], i)
    {
      a := (a + buf[i]) % 65521;
      b := (b + a) % 65521;
    }
    r := b * 0x1_0000 + a;
  }

  // ------------------------------------------------------------------
  // Records
  // ------------------------------------------------------------------

  function Unsigned32(z: int): (v: nat)
    ensures v < U32
  {
    z % U32
  }

  function Signed32(v: nat): Int32
    requires v < U32
  {
    if v < 0x8000_0000 then v else v - U32
  }

  function Unsigned64(z: int): (v: nat)
    ensures v < U64
  {
    z % U64
  }

  function Signed64(v: nat): Int64
    requires v < U64
  {
    if v < 0x8000_0000_0000_0000 then v else v - U64
  }

  function Data(e: Entry): (d: seq<byte>)
    requires IsHash(e.hash)
    ensures |d| == DATA_LEN
  {
    Le(e.mode, 4) + Le(Unsigned32(e.uid), 4) + Le(Unsigned32(e.gid), 4)
    + Le(Unsigned64(e.mtimeS), 8) + Le(Unsigned32(e.mtimeNs), 4) + HexDecode(e.hash)
  }

  function Record(e: Entry): (r: seq<byte>)
    requires IsHash(e.hash)
    ensures |r| == 8 + |e.name| + DATA_LEN
  {
    Le(|e.name|, 4) + Le(DATA_LEN, 4) + e.name + Data(e)
  }

  predicate Hashed(dir: seq<Entry>) { forall i :: 0 <= i < |dir| ==> IsHash(dir[i].hash) }

  function Records(dir: seq<Entry>, n: nat): seq<byte>
    requires Hashed(dir) && n <= |dir|
  {
    if n == 0 then [] else Records(dir, n - 1) + Record(dir[n - 1])
  }

  /** Offset of record i. */
  function RecordAt(dir: seq<Entry>, i: nat): (p: nat)
    requires Hashed(dir) && i <= |dir|
    ensures p >= HEADER_LEN
  {
    HEADER_LEN + |Records(dir, i)|
  }

  // ------------------------------------------------------------------
  // Slot tables
  // ------------------------------------------------------------------

  /** A slot is empty when its offset is zero. */
  datatype Slot = Slot(hash: nat, off: nat)

  function Bucket(e: Entry): (b: nat)
    ensures b < NBUCKETS
  {
    Djb(e.name) % NBUCKETS
  }

  function CountIn(dir: seq<Entry>, b: nat, n: nat): (c: nat)
    requires n <= |dir|
    ensures c <= n
  {
    if n == 0 then 0 else CountIn(dir, b, n - 1) + (if Bucket(dir[n - 1]) == b then 1 else 0)
  }

  function SlotCount(dir: seq<Entry>, b: nat): nat { 2 * CountIn(dir, b, |dir|) }

  lemma {:induction false} CountInMonotone(dir: seq<Entry>, b: nat, m: nat, n: nat)
    requires m <= n <= |dir|
    ensures CountIn(dir, b, m) <= CountIn(dir, b, n)
    decreases n
  {
    hide Bucket;
    if m < n {
      CountInMonotone(dir, b, m, n - 1);
    }
  }

  /** Position k steps after slot s, wrapping round n slots. */
  function Step(s: nat, k: nat, n: nat): (j: nat)
    requires s < n && k <= n
    ensures j < n || (j == n && k == n)
  {
    if s + k < n then s + k else s + k - n
  }

  lemma ModIsStep(s: nat, k: nat, n: nat)
    requires s < n && k < n
    ensures (s + k) % n == Step(s, k, n)
  {
    if s + k < n {
      EuclidUnique(s + k, n, 0, s + k);
    } else {
      EuclidUnique(s + k, n, 1, s + k - n);
    }
  }

  function Home(h: nat, n: nat): (s: nat)
    requires n > 0
    ensures s < n
  {
    h / 256 % n
  }

  function Used(t: seq<Slot>): (c: nat)
    ensures c <= |t|
  {
    if t == [] then 0 else (if t[0].off != 0 then 1 else 0) + Used(t[1..])
  }

  lemma {:induction false} UsedUpdate(t: seq<Slot>, j: nat, s: Slot)
    requires j < |t|
    ensures Used(t[j := s]) <= Used(t) + 1
  {
    if j == 0 {
      assert t[j := s][1..] == t[1..];
    } else {
      UsedUpdate(t[1..], j - 1, s);
      assert t[j := s][1..] == t[1..][j - 1 := s];
    }
  }

  lemma {:induction false} SomeFree(t: seq<Slot>) returns (j: nat)
    requires Used(t) < |t|
    ensures j < |t| && t[j].off == 0
  {
    if t[0].off == 0 {
      j := 0;
    } else {
      var i := SomeFree(t[1..]);
      j := i + 1;
    }
  }

  /** Some slot at least k steps after s is free. */
  predicate FreeAhead(t: seq<Slot>, s: nat, k: nat)
    requires s < |t|
  {
    exists m :: k <= m < |t| && t[Step(s, m, |t|)].off == 0
  }

  lemma SomeFreeAhead(t: seq<Slot>, s: nat)
    requires s < |t| && Used(t) < |t|
    ensures FreeAhead(t, s, 0)
  {
    var j := SomeFree(t);
    var m := if j >= s then j - s else j - s + |t|;
    assert Step(s, m, |t|) == j;
  }

  /** Number of steps from s to the first free slot, at least k. */
  function Distance(t: seq<Slot>, s: nat, k: nat): (m: nat)
    requires s < |t| && FreeAhead(t, s, k)
    ensures k <= m < |t| && t[Step(s, m, |t|)].off == 0
    ensures forall i :: k <= i < m ==> t[Step(s, i, |t|)].off != 0
    decreases |t| - k
  {
    if k < |t| && t[Step(s, k, |t|)].off == 0 then k else Distance(t, s, k + 1)
  }

  function EmptyTable(n: nat): (t: seq<Slot>)
    ensures |t| == n
  {
    seq(n, _ => Slot(0, 0))
  }

  lemma {:induction false} EmptyUsed(n: nat)
    ensures Used(EmptyTable(n)) == 0
  {
    if n > 0 {
      assert EmptyTable(n)[1..] == EmptyTable(n - 1);
      EmptyUsed(n - 1);
    }
  }

  /** The slot written for entry i; its offset is truncated to 32 bits. */
  function SlotFor(dir: seq<Entry>, i: nat): (s: Slot)
    requires Hashed(dir) && i < |dir|
    ensures s.hash < U32 && s.off < U32
  {
    Slot(Djb(dir[i].name), RecordAt(dir, i) % U32)
  }

  lemma TableHasRoom(dir: seq<Entry>, b: nat, n: nat)
    requires n < |dir| && Bucket(dir[n]) == b
    ensures CountIn(dir, b, n) < CountIn(dir, b, n + 1) <= CountIn(dir, b, |dir|)
    ensures CountIn(dir, b, n) < SlotCount(dir, b)
  {
    CountInMonotone(dir, b, n + 1, |dir|);
  }

  /** Place a slot at the first free position from its home on. */
  function Insert(t: seq<Slot>, s: Slot): (r: seq<Slot>)
    requires |t| > 0 && FreeAhead(t, Home(s.hash, |t|), 0)
    ensures |r| == |t|
  {
    var home := Home(s.hash, |t|);
    t[Step(home, Distance(t, home, 0), |t|) := s]
  }

  lemma RoomForInsert(t: seq<Slot>, s: Slot)
    requires Used(t) < |t|
    ensures FreeAhead(t, Home(s.hash, |t|), 0)
    ensures Used(Insert(t, s)) <= Used(t) + 1
  {
    hide Home;
    var home := Home(s.hash, |t|);
    SomeFreeAhead(t, home);
    UsedUpdate(t, Step(home, Distance(t, home, 0), |t|), s);
  }

  /** Bucket b's table once the first n entries have been considered.  A table
      has twice as many slots as entries, so a free slot is always found. */
  function Table(dir: seq<Entry>, b: nat, n: nat): (t: seq<Slot>)
    requires Hashed(dir) && n <= |dir|
    ensures |t| == SlotCount(dir, b)
    ensures Used(t) <= CountIn(dir, b, n)
  {
    hide Bucket, Insert, SlotFor, Used, FreeAhead;
    if n == 0 then
      EmptyUsed(SlotCount(dir, b));
      EmptyTable(SlotCount(dir, b))
    else
      var t := Table(dir, b, n - 1);
      if Bucket(dir[n - 1]) != b then t
      else
        TableHasRoom(dir, b, n - 1);
        RoomForInsert(t, SlotFor(dir, n - 1));
        Insert(t, SlotFor(dir, n - 1))
  }

  function SlotBytes(s: Slot): (r: seq<byte>)
    ensures |r| == 8
  {
    Le(s.hash, 4) + Le(s.off, 4)
  }

  function TableBytes(t: seq<Slot>): (r: seq<byte>)
    ensures |r| == 8 * |t|
  {
    if t == [] then [] else TableBytes(t[..|t| - 1]) + SlotBytes(t[|t| - 1])
  }

  lemma {:induction false} TableBytesAt(t: seq<Slot>, j: nat)
    requires j < |t|
    ensures TableBytes(t)[8 * j..8 * j + 8] == SlotBytes(t[j])
  {
    hide SlotBytes;
    var n := |t| - 1;
    if j < n {
      TableBytesAt(t[..n], j);
      assert TableBytes(t)[8 * j..8 * j + 8] == TableBytes(t[..n])[8 * j..8 * j + 8];
    }
  }

  lemma {:induction false} TableBytesUpdate(t: seq<Slot>, j: nat, s: Slot)
    requires j < |t|
    ensures TableBytes(t[j := s]) == Splice(TableBytes(t), 8 * j, SlotBytes(s))
  {
    hide SlotBytes;
    var n := |t| - 1;
    if j < n {
      TableBytesUpdate(t[..n], j, s);
      assert t[j := s][..n] == t[..n][j := s];
    } else {
      assert t[j := s][..n] == t[..n];
    }
  }

  lemma {:induction false} EmptyTableBytes(n: nat)
    ensures TableBytes(EmptyTable(n)) == Nuls(8 * n)
  {
    if n > 0 {
      assert EmptyTable(n)[..n - 1] == EmptyTable(n - 1);
      EmptyTableBytes(n - 1);
      Le4Bytes(0);
    }
  }

  function Tables(dir: seq<Entry>, b: nat): (r: seq<byte>)
    requires Hashed(dir)
  {
    if b == 0 then [] else Tables(dir, b - 1) + TableBytes(Table(dir, b - 1, |dir|))
  }

  function TableAt(dir: seq<Entry>, b: nat): (p: nat)
    requires Hashed(dir)
  {
    RecordAt(dir, |dir|) + |Tables(dir, b)|
  }

  // ------------------------------------------------------------------
  // The whole object
  // ------------------------------------------------------------------

  function HeaderEntry(dir: seq<Entry>, b: nat): (r: seq<byte>)
    requires Hashed(dir)
    ensures |r| == 8
  {
    Le(TableAt(dir, b), 4) + Le(SlotCount(dir, b), 4)
  }

  function Header(dir: seq<Entry>, b: nat): (r: seq<byte>)
    requires Hashed(dir)
    ensures |r| == 8 * b
  {
    if b == 0 then [] else Header(dir, b - 1) + HeaderEntry(dir, b - 1)
  }

  function Body(dir: seq<Entry>): (r: seq<byte>)
    requires Hashed(dir)
    ensures |r| == TableAt(dir, NBUCKETS)
  {
    Header(dir, NBUCKETS) + Records(dir, |dir|) + Tables(dir, NBUCKETS)
  }

  /** The one htree encoding of a directory. */
  function Encode(dir: seq<Entry>): (r: seq<byte>)
    requires Hashed(dir)
    ensures |r| == TableAt(dir, NBUCKETS) + FOOTER_LEN
  {
    Body(dir) + Le(Adler(Body(dir)), 4) + MAGIC
  }

  // ------------------------------------------------------------------
  // htree_build
  // ------------------------------------------------------------------

  /** A zeroed buffer of the given size holding a header prefix, the records
      and a prefix of the tables. */
  function Image(hdr: seq<byte>, recs: seq<byte>, tabs: seq<byte>, total: nat): (r: seq<byte>)
    requires |hdr| <= HEADER_LEN && HEADER_LEN + |recs| + |tabs| <= total
    ensures |r| == total
  {
    hdr + Nuls(HEADER_LEN - |hdr|) + recs + tabs + Nuls(total - HEADER_LEN - |recs| - |tabs|)
  }

  lemma ImageHeader(hdr: seq<byte>, recs: seq<byte>, tabs: seq<byte>, total: nat, x: seq<byte>)
    requires |hdr| + |x| <= HEADER_LEN && HEADER_LEN + |recs| + |tabs| <= total
    ensures Splice(Image(hdr, recs, tabs, total), |hdr|, x) == Image(hdr + x, recs, tabs, total)
  {
  }

  lemma ImageRecord(recs: seq<byte>, total: nat, x: seq<byte>)
    requires HEADER_LEN + |recs| + |x| <= total
    ensures Splice(Image([], recs, [], total), HEADER_LEN + |recs|, x) == Image([], recs + x, [], total)
  {
  }

  lemma ImageTable(hdr: seq<byte>, recs: seq<byte>, done: seq<byte>, table: seq<byte>, total: nat, p: nat, x: seq<byte>)
    requires |hdr| <= HEADER_LEN && HEADER_LEN + |recs| + |done| + |table| <= total && p + |x| <= |table|
    ensures Splice(Image(hdr, recs, done + table, total), HEADER_LEN + |recs| + |done| + p, x)
            == Image(hdr, recs, done + Splice(table, p, x), total)
    ensures Image(hdr, recs, done + table, total)[HEADER_LEN + |recs| + |done| + p..HEADER_LEN + |recs| + |done| + p + |x|]
            == table[p..p + |x|]
  {
    var q := HEADER_LEN + |recs| + |done|;
    var img := Image(hdr, recs, done + table, total);
    assert img[q..q + |table|] == table;
    assert img[q + p..q + p + |x|] == img[q..q + |table|][p..p + |x|];
  }

  lemma ImageGrow(hdr: seq<byte>, recs: seq<byte>, done: seq<byte>, n: nat, total: nat)
    requires |hdr| <= HEADER_LEN && HEADER_LEN + |recs| + |done| + n <= total
    ensures Image(hdr, recs, done, total) == Image(hdr, recs, done + Nuls(n), total)
  {
  }

  /** The stores that write one record, field by field. */
  method WriteRecord(buf: array<byte>, pos: nat, e: Entry) returns (next: nat)
    requires IsHash(e.hash) && pos + |Record(e)| <= buf.Length
    modifies buf
    ensures next == pos + |Record(e)|
    ensures buf[..] == Splice(old(buf[..]), pos, Record(e))
  {
    hide Le, Splice, HexDecode, Unsigned32, Unsigned64;
    ghost var s := buf[..];
    ghost var a0 := Le(|e.name|, 4);
    ghost var a1 := a0 + Le(DATA_LEN, 4);
    ghost var a2 := a1 + e.name;
    ghost var a3 := a2 + Le(e.mode, 4);
    ghost var a4 := a3 + Le(Unsigned32(e.uid), 4);
    ghost var a5 := a4 + Le(Unsigned32(e.gid), 4);
    ghost var a6 := a5 + Le(Unsigned64(e.mtimeS), 8);
    ghost var a7 := a6 + Le(Unsigned32(e.mtimeNs), 4);
    ghost var a8 := a7 + HexDecode(e.hash);
    assert a8 == Record(e);
    StoreLe32(buf, pos, |e.name|);
    SpliceSplice(s, pos, a0, Le(DATA_LEN, 4));
    StoreLe32(buf, pos + 4, DATA_LEN);
    next := pos + 8;
    SpliceSplice(s, pos, a1, e.name);
    Blit(buf, next, e.name);
    next := next + |e.name|;
    SpliceSplice(s, pos, a2, Le(e.mode, 4));
    StoreLe32(buf, next, e.mode);
    next := next + 4;
    SpliceSplice(s, pos, a3, Le(Unsigned32(e.uid), 4));
    StoreLe32(buf, next, Unsigned32(e.uid));
    next := next + 4;
    SpliceSplice(s, pos, a4, Le(Unsigned32(e.gid), 4));
    StoreLe32(buf, next, Unsigned32(e.gid));
    next := next + 4;
    SpliceSplice(s, pos, a5, Le(Unsigned64(e.mtimeS), 8));
    StoreLe64(buf, next, Unsigned64(e.mtimeS));
    next := next + 8;
    SpliceSplice(s, pos, a6, Le(Unsigned32(e.mtimeNs), 4));
    StoreLe32(buf, next, Unsigned32(e.mtimeNs));
    next := next + 4;
    SpliceSplice(s, pos, a7, HexDecode(e.hash));
    Blit(buf, next, HexDecode(e.hash));
    next := next + 32;
  }

  method LoadLe32(buf: array<byte>, pos: nat) returns (v: nat)
    requires pos + 4 <= buf.Length
    ensures v == FromLe(buf[pos..pos + 4])
  {
    v := FromLe(buf[pos..pos + 4]);
  }

  lemma {:induction false} RecordsMonotone(dir: seq<Entry>, i: nat, n: nat)
    requires Hashed(dir) && i <= n <= |dir|
    ensures |Records(dir, i)| <= |Records(dir, n)|
    decreases n
  {
    hide Record;
    if i < n {
      RecordsMonotone(dir, i, n - 1);
    }
  }

  lemma {:induction false} TablesMonotone(dir: seq<Entry>, b: nat, n: nat)
    requires Hashed(dir) && b <= n
    ensures |Tables(dir, b)| <= |Tables(dir, n)|
    ensures b < n ==> |Tables(dir, b)| + 8 * SlotCount(dir, b) <= |Tables(dir, n)|
    decreases n
  {
    hide Table, SlotCount, TableBytes;
    if b < n {
      TablesMonotone(dir, b, n - 1);
    }
  }

  /** First pass of htree_build: hash every name and count each bucket. */
  method HashNames(dir: seq<Entry>, hashes: array<nat>, bucketOf: array<nat>, bucketCount: array<nat>)
      returns (recordsLen: nat)
    requires Hashed(dir) && hashes.Length == bucketOf.Length == |dir| && bucketCount.Length == NBUCKETS
    requires hashes != bucketOf && hashes != bucketCount && bucketOf != bucketCount
    requires forall b :: 0 <= b < NBUCKETS ==> bucketCount[b] == 0
    modifies hashes, bucketOf, bucketCount
    ensures forall i :: 0 <= i < |dir| ==> hashes[i] == Djb(dir[i].name) && bucketOf[i] == Bucket(dir[i])
    ensures forall b :: 0 <= b < NBUCKETS ==> bucketCount[b] == CountIn(dir, b, |dir|)
    ensures recordsLen == |Records(dir, |dir|)|
  {
    hide Djb;
    recordsLen := 0;
    for i := 0 to |dir|
      invariant forall k :: 0 <= k < i ==> hashes[k] == Djb(dir[k].name) && bucketOf[k] == Bucket(dir[k])
      invariant forall b :: 0 <= b < NBUCKETS ==> bucketCount[b] == CountIn(dir, b, i)
      invariant recordsLen == |Records(dir, i)|
    {
      var h := DjbHash(dir[i].name);
      var b := h % NBUCKETS;
      hashes[i] := h;
      bucketOf[i] := b;
      bucketCount[b] := bucketCount[b] + 1;
      recordsLen := recordsLen + 8 + |dir[i].name| + DATA_LEN;
    }
  }

  /** Second pass: the records, remembering where each one starts. */
  method WriteRecords(dir: seq<Entry>, buf: array<byte>, offsets: array<nat>) returns (pos: nat)
    requires Hashed(dir) && offsets.Length == |dir|
    requires RecordAt(dir, |dir|) <= buf.Length
    requires buf[..] == Image([], [], [], buf.Length)
    modifies buf, offsets
    ensures pos == RecordAt(dir, |dir|)
    ensures forall i :: 0 <= i < |dir| ==> offsets[i] == RecordAt(dir, i) % U32
    ensures buf[..] == Image([], Records(dir, |dir|), [], buf.Length)
  {
    hide Image, Splice, Record;
    pos := HEADER_LEN;
    for i := 0 to |dir|
      invariant pos == RecordAt(dir, i) <= buf.Length
      invariant forall k :: 0 <= k < i ==> offsets[k] == RecordAt(dir, k) % U32
      invariant buf[..] == Image([], Records(dir, i), [], buf.Length)
    {
      RecordsMonotone(dir, i + 1, |dir|);
      offsets[i] := pos % U32;
      ImageRecord(Records(dir, i), buf.Length, Record(dir[i]));
      pos := WriteRecord(buf, pos, dir[i]);
    }
  }

  lemma SlotOffsetBytes(hdr: seq<byte>, recs: seq<byte>, done: seq<byte>, t: seq<Slot>, total: nat, slot: nat)
    requires |hdr| <= HEADER_LEN && HEADER_LEN + |recs| + |done| + 8 * |t| <= total
    requires slot < |t| && t[slot].off < U32
    ensures var spos := HEADER_LEN + |recs| + |done| + slot * 8;
            FromLe(Image(hdr, recs, done + TableBytes(t), total)[spos + 4..spos + 8]) == t[slot].off
  {
    hide Image, Splice, FromLe, TableBytes, SlotBytes;
    var spos := HEADER_LEN + |recs| + |done| + slot * 8;
    var img := Image(hdr, recs, done + TableBytes(t), total);
    TableBytesAt(t, slot);
    ImageTable(hdr, recs, done, TableBytes(t), total, 8 * slot, SlotBytes(t[slot]));
    SubSlice(img, spos, spos + 8, 4, 8);
    SlotBytesOffset(t[slot]);
  }

  lemma SlotBytesOffset(s: Slot)
    requires s.off < U32
    ensures FromLe(SlotBytes(s)[4..8]) == s.off
    ensures s.hash < U32 ==> FromLe(SlotBytes(s)[0..4]) == s.hash
  {
    hide Le, FromLe;
    assert SlotBytes(s)[4..8] == Le(s.off, 4) && SlotBytes(s)[0..4] == Le(s.hash, 4);
    Le32RoundTrip(s.off);
    Le32RoundTrip(s.hash);
  }

  /** Writing slot s at an index is the table update at that index. */
  method WriteSlot(buf: array<byte>, spos: nat, ghost hdr: seq<byte>, ghost recs: seq<byte>,
                   ghost done: seq<byte>, ghost t: seq<Slot>, ghost slot: nat, s: Slot)
    requires |hdr| <= HEADER_LEN && HEADER_LEN + |recs| + |done| + 8 * |t| <= buf.Length
    requires slot < |t| && spos == HEADER_LEN + |recs| + |done| + 8 * slot
    requires buf[..] == Image(hdr, recs, done + TableBytes(t), buf.Length)
    modifies buf
    ensures buf[..] == Image(hdr, recs, done + TableBytes(t[slot := s]), buf.Length)
  {
    hide Image, Splice, Le, TableBytes;
    ghost var before := buf[..];
    ImageTable(hdr, recs, done, TableBytes(t), buf.Length, 8 * slot, SlotBytes(s));
    SpliceSplice(before, spos, Le(s.hash, 4), Le(s.off, 4));
    StoreLe32(buf, spos, s.hash);
    StoreLe32(buf, spos + 4, s.off);
    TableBytesUpdate(t, slot, s);
  }

  /** The probe loop of htree_build: walk from the home slot to the first
      empty one and claim it. */
  method PlaceSlot(buf: array<byte>, tablePos: nat, ghost hdr: seq<byte>, ghost recs: seq<byte>,
                   ghost done: seq<byte>, ghost t: seq<Slot>, nslots: nat, s: Slot)
    requires |t| == nslots >= 2 && Used(t) < nslots
    requires forall j :: 0 <= j < |t| ==> t[j].off < U32
    requires |hdr| <= HEADER_LEN && tablePos == HEADER_LEN + |recs| + |done|
    requires tablePos + 8 * nslots <= buf.Length
    requires buf[..] == Image(hdr, recs, done + TableBytes(t), buf.Length)
    modifies buf
    ensures FreeAhead(t, Home(s.hash, nslots), 0)
    ensures buf[..] == Image(hdr, recs, done + TableBytes(Insert(t, s)), buf.Length)
  {
    hide Image, Splice, Used, TableBytes;
    RoomForInsert(t, s);
    ghost var home := Home(s.hash, nslots);
    ghost var m := Distance(t, home, 0);
    var slot := s.hash / 256 % nslots;
    ghost var k := 0;
    while true
      invariant 0 <= k <= m && slot == Step(home, k, nslots)
      invariant buf[..] == Image(hdr, recs, done + TableBytes(t), buf.Length)
      decreases m - k
    {
      var spos := tablePos + slot * 8;
      SlotOffsetBytes(hdr, recs, done, t, buf.Length, slot);
      assert buf[..][spos + 4..spos + 8] == buf[spos + 4..spos + 8];
      var sp := LoadLe32(buf, spos + 4);
      if sp == 0 {
        break;
      }
      ModIsStep(slot, 1, nslots);
      slot := (slot + 1) % nslots;
      k := k + 1;
    }
    WriteSlot(buf, tablePos + slot * 8, hdr, recs, done, t, slot, s);
  }

  lemma {:induction false} TableOffsets(dir: seq<Entry>, b: nat, n: nat)
    requires Hashed(dir) && n <= |dir|
    ensures forall j :: 0 <= j < |Table(dir, b, n)| ==> Table(dir, b, n)[j].off < U32
  {
    hide Bucket, Distance, FreeAhead, Home, RecordAt, Djb;
    if n > 0 {
      TableOffsets(dir, b, n - 1);
    }
  }

  lemma TableStep(dir: seq<Entry>, b: nat, i: nat)
    requires Hashed(dir) && i < |dir| && Bucket(dir[i]) == b
    ensures Used(Table(dir, b, i)) < |Table(dir, b, i)| && |Table(dir, b, i)| >= 2
    ensures FreeAhead(Table(dir, b, i), Home(Djb(dir[i].name), |Table(dir, b, i)|), 0)
    ensures Table(dir, b, i + 1) == Insert(Table(dir, b, i), SlotFor(dir, i))
  {
    hide Bucket, Insert, Used, FreeAhead;
    TableHasRoom(dir, b, i);
    RoomForInsert(Table(dir, b, i), SlotFor(dir, i));
  }

  /** The body of the table loop for one bucket. */
  method FillBucket(dir: seq<Entry>, b: nat, buf: array<byte>, tablePos: nat, nslots: nat,
                    hashes: array<nat>, bucketOf: array<nat>, offsets: array<nat>, ghost hdr: seq<byte>)
    requires Hashed(dir) && b < NBUCKETS && |hdr| <= HEADER_LEN
    requires hashes.Length == bucketOf.Length == offsets.Length == |dir|
    requires forall i :: 0 <= i < |dir| ==> hashes[i] == Djb(dir[i].name) && bucketOf[i] == Bucket(dir[i])
    requires forall i :: 0 <= i < |dir| ==> offsets[i] == RecordAt(dir, i) % U32
    requires tablePos == TableAt(dir, b) && nslots == SlotCount(dir, b)
    requires tablePos + 8 * nslots <= buf.Length
    requires buf[..] == Image(hdr, Records(dir, |dir|), Tables(dir, b), buf.Length)
    modifies buf
    ensures buf[..] == Image(hdr, Records(dir, |dir|), Tables(dir, b + 1), buf.Length)
  {
    hide Image, Splice, Used, TableBytes, Djb, Bucket, FreeAhead, Insert, SlotCount, Record;
    ImageGrow(hdr, Records(dir, |dir|), Tables(dir, b), 8 * nslots, buf.Length);
    EmptyTableBytes(nslots);
    for i := 0 to |dir|
      invariant buf[..] == Image(hdr, Records(dir, |dir|), Tables(dir, b) + TableBytes(Table(dir, b, i)), buf.Length)
    {
      if bucketOf[i] != b {
        continue;
      }
      TableStep(dir, b, i);
      TableOffsets(dir, b, i);
      PlaceSlot(buf, tablePos, hdr, Records(dir, |dir|), Tables(dir, b), Table(dir, b, i), nslots,
                Slot(hashes[i], offsets[i]));
    }
  }

  /** The table loop of htree_build: for each bucket its header entry, then
      its table. */
  method WriteTables(dir: seq<Entry>, buf: array<byte>, recordsEnd: nat, nslots: array<nat>,
                     hashes: array<nat>, bucketOf: array<nat>, offsets: array<nat>) returns (tablePos: nat)
    requires Hashed(dir) && recordsEnd == RecordAt(dir, |dir|) && nslots.Length == NBUCKETS
    requires hashes.Length == bucketOf.Length == offsets.Length == |dir|
    requires forall i :: 0 <= i < |dir| ==> hashes[i] == Djb(dir[i].name) && bucketOf[i] == Bucket(dir[i])
    requires forall i :: 0 <= i < |dir| ==> offsets[i] == RecordAt(dir, i) % U32
    requires forall b :: 0 <= b < NBUCKETS ==> nslots[b] == SlotCount(dir, b)
    requires recordsEnd + |Tables(dir, NBUCKETS)| <= buf.Length
    requires buf[..] == Image([], Records(dir, |dir|), [], buf.Length)
    modifies buf
    ensures tablePos == TableAt(dir, NBUCKETS)
    ensures buf[..] == Image(Header(dir, NBUCKETS), Records(dir, |dir|), Tables(dir, NBUCKETS), buf.Length)
  {
    hide Image, Splice, Records, Tables, Djb, SlotCount, Header, HeaderEntry, Le, Bucket;
    tablePos := recordsEnd;
    NoTables(dir);
    for b := 0 to NBUCKETS
      invariant tablePos == TableAt(dir, b) <= TableAt(dir, NBUCKETS)
      invariant buf[..] == Image(Header(dir, b), Records(dir, |dir|), Tables(dir, b), buf.Length)
    {
      TablesMonotone(dir, b, NBUCKETS);
      TablesMonotone(dir, b + 1, NBUCKETS);
      ghost var before := buf[..];
      ImageHeader(Header(dir, b), Records(dir, |dir|), Tables(dir, b), buf.Length, HeaderEntry(dir, b));
      HeaderStep(dir, b);
      SpliceSplice(before, b * 8, Le(TableAt(dir, b), 4), Le(SlotCount(dir, b), 4));
      StoreLe32(buf, b * 8, tablePos);
      StoreLe32(buf, b * 8 + 4, nslots[b]);
      FillBucket(dir, b, buf, tablePos, nslots[b], hashes, bucketOf, offsets, Header(dir, b + 1));
      tablePos := tablePos + nslots[b] * 8;
      TablesStep(dir, b);
    }
  }

  /** htree_build: size everything, write the records, then for each bucket its
      header entry and its table, then the footer. */
  method Build(dir: seq<Entry>) returns (bin: seq<byte>)
    requires Hashed(dir)
    ensures bin == Encode(dir)
  {
    hide Image, Splice, Records, Tables, Djb, CountIn, Header, HeaderEntry, Le, Adler;
    var bucketCount := new nat[NBUCKETS](_ => 0);
    var nslots := new nat[NBUCKETS](_ => 0);
    var hashes, bucketOf, offsets := new nat[|dir|], new nat[|dir|], new nat[|dir|];
    var recordsLen := HashNames(dir, hashes, bucketOf, bucketCount);

    var tablesLen := TotalTables(dir, bucketCount, nslots);
    var total := HEADER_LEN + recordsLen + tablesLen + FOOTER_LEN;
    var buf := new byte[total](_ => 0);
    ZeroImage(buf[..], total);
    var tablePos := WriteRecords(dir, buf, offsets);

    tablePos := WriteTables(dir, buf, tablePos, nslots, hashes, bucketOf, offsets);

    FullImage(dir, buf[..], total);
    assert buf[..][..tablePos] == buf[..tablePos];
    var checksum := Adler32(buf, tablePos);
    ghost var before := buf[..];
    SpliceSplice(before, tablePos, Le(checksum, 4), MAGIC);
    StoreLe32(buf, tablePos, checksum);
    Blit(buf, tablePos + 4, MAGIC);
    FooterSplice(before, Body(dir), Le(checksum, 4) + MAGIC);
    bin := buf[..];
  }

  method TotalTables(dir: seq<Entry>, bucketCount: array<nat>, nslots: array<nat>) returns (len: nat)
    requires Hashed(dir) && bucketCount.Length == nslots.Length == NBUCKETS && bucketCount != nslots
    requires forall b :: 0 <= b < NBUCKETS ==> bucketCount[b] == CountIn(dir, b, |dir|)
    modifies nslots
    ensures forall b :: 0 <= b < NBUCKETS ==> nslots[b] == SlotCount(dir, b)
    ensures len == |Tables(dir, NBUCKETS)|
  {
    hide CountIn, Table, TableBytes;
    len := 0;
    for b := 0 to NBUCKETS
      invariant forall c :: 0 <= c < b ==> nslots[c] == SlotCount(dir, c)
      invariant len == |Tables(dir, b)|
    {
      nslots[b] := bucketCount[b] * 2;
      len := len + nslots[b] * 8;
    }
  }

  lemma ZeroImage(s: seq<byte>, total: nat)
    requires |s| == total >= HEADER_LEN && forall i :: 0 <= i < total ==> s[i] == 0
    ensures s == Image([], [], [], total)
  {
  }

  lemma NoTables(dir: seq<Entry>)
    requires Hashed(dir)
    ensures Tables(dir, 0) == [] && Header(dir, 0) == []
  {
  }

  lemma HeaderStep(dir: seq<Entry>, b: nat)
    requires Hashed(dir)
    ensures Header(dir, b + 1) == Header(dir, b) + HeaderEntry(dir, b)
    ensures HeaderEntry(dir, b) == Le(TableAt(dir, b), 4) + Le(SlotCount(dir, b), 4)
  {
  }

  lemma TablesStep(dir: seq<Entry>, b: nat)
    requires Hashed(dir)
    ensures Tables(dir, b + 1) == Tables(dir, b) + TableBytes(Table(dir, b, |dir|))
    ensures TableAt(dir, b + 1) == TableAt(dir, b) + 8 * SlotCount(dir, b)
  {
    hide Table, TableBytes, Records;
  }

  lemma FullImage(dir: seq<Entry>, s: seq<byte>, total: nat)
    requires Hashed(dir) && total == TableAt(dir, NBUCKETS) + FOOTER_LEN
    requires s == Image(Header(dir, NBUCKETS), Records(dir, |dir|), Tables(dir, NBUCKETS), total)
    ensures s[..|Body(dir)|] == Body(dir) && |s| == total
  {
    hide Header, Records, Tables;
  }

  lemma FooterSplice(s: seq<byte>, body: seq<byte>, foot: seq<byte>)
    requires |s| == |body| + |foot| && s[..|body|] == body
    ensures Splice(s, |body|, foot) == body + foot
  {
  }
}
