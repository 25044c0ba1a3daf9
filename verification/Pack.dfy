/** Stored objects at byte level: the loose file, the packfile, and how either is
    read (cas-pack.c; cas.c: cas_open_object, cas_open_loose_raw;
    cas-codec.c: cas_codec_region_decode). */
module Pack {
  import opened Bytes
  import opened Names
  import opened TreeText

  const BLOCK: nat := 64
  const TYPE_MAX: nat := 16
  const HEADER_LIMIT: nat := 32
  const LOOSE_MAX: nat := 0x4000_0000
  const MAX_PLAINTEXT: nat := 0x640_0000
  const MAX_RATIO: nat := 256
  const CODEC_NONE: byte := 0x25

  const MAGIC_V1: seq<byte> := [0xCB, 0x4F, 0x42, 0x4A, 0xAA, 0x01, 0x00, 0x00]
  const MAGIC_V2: seq<byte> := [0xCB, 0x4F, 0x42, 0x4A, 0xAA, 0x02, 0x00, 0x00]
  const FOOTER_MAGIC: seq<byte> := [0xCB, 0x50, 0x4B, 0x46, 0xAA, 0x01, 0x00, 0x00]

  /** The codec table: what a tag's encoder and decoder answer. */
  datatype Codec = Codec(encode: (byte, seq<byte>) -> Option<seq<byte>>,
                         decode: (byte, seq<byte>, nat) -> Option<seq<byte>>)

  /** An encoded payload decodes to what was encoded. */
  ghost predicate Faithful(c: Codec)
  {
    forall tag, d :: c.encode(tag, d).Some? ==> c.decode(tag, c.encode(tag, d).value, |d|) == Some(d)
  }

  // ------------------------------------------------------------------
  // Headers
  // ------------------------------------------------------------------

  function ParseLength(s: seq<byte>, acc: nat): Option<nat>
  {
    if s == [] then Some(acc)
    else if !IsDigit(s[0], 10) then None
    else
      var next := (acc * 10 + (s[0] - 0x30)) % U64;
      if next < acc then None else ParseLength(s[1..], next)
  }

  /** parse_header: type and plaintext length. */
  function ParseHeader(h: seq<byte>): (r: Option<(seq<byte>, nat)>)
  {
    var area := if |h| < HEADER_LIMIT then h else h[..HEADER_LIMIT];
    var nul := Memchr(area, 0);
    if nul == |area| then None else
    var sp := Memchr(h[..nul], SPACE);
    if sp == nul || sp == 0 || sp > TYPE_MAX || sp + 1 >= nul then None else
    var len := ParseLength(h[sp + 1..nul], 0);
    if len.None? then None else Some((h[..sp], len.value))
  }

  function HeaderText(kind: seq<byte>, len: nat): seq<byte> { kind + [SPACE] + Digits(len, 10) + [0] }

  /** The 56-byte header field. */
  function Header(kind: seq<byte>, len: nat): (h: seq<byte>)
    requires |HeaderText(kind, len)| <= 56
    ensures |h| == 56
  {
    HeaderText(kind, len) + Nuls(56 - |HeaderText(kind, len)|)
  }

  predicate ValidKind(kind: seq<byte>) { 0 < |kind| <= TYPE_MAX && SPACE !in kind && 0 !in kind }

  lemma {:induction false} ParseLengthFolds(ds: seq<byte>, acc: nat, whole: nat)
    requires forall i :: 0 <= i < |ds| ==> IsDigit(ds[i], 10)
    requires FoldFrom(acc, ds) == whole && whole < U64
    ensures ParseLength(ds, acc) == Some(whole)
    decreases |ds|
  {
    if ds != [] {
      var next := acc * 10 + (ds[0] as int - 0x30);
      FoldFromGrows(next, ds[1..]);
      ParseLengthFolds(ds[1..], next, whole);
    }
  }

  function FoldFrom(acc: nat, ds: seq<byte>): nat
    requires forall i :: 0 <= i < |ds| ==> IsDigit(ds[i], 10)
    decreases |ds|
  {
    if ds == [] then acc else
    assert IsDigit(ds[0], 10);
    FoldFrom(acc * 10 + (ds[0] as int - 0x30), ds[1..])
  }

  lemma {:induction false} FoldFromGrows(acc: nat, ds: seq<byte>)
    requires forall i :: 0 <= i < |ds| ==> IsDigit(ds[i], 10)
    ensures FoldFrom(acc, ds) >= acc
    decreases |ds|
  {
    if ds != [] {
      FoldFromGrows(acc * 10 + (ds[0] as int - 0x30), ds[1..]);
    }
  }

  lemma {:induction false} FoldFromLast(acc: nat, ds: seq<byte>, c: byte)
    requires forall i :: 0 <= i < |ds| ==> IsDigit(ds[i], 10)
    requires IsDigit(c, 10)
    ensures FoldFrom(acc, ds + [c]) == FoldFrom(acc, ds) * 10 + (c as int - 0x30)
    decreases |ds|
  {
    if ds == [] {
      assert ds + [c] == [c] && [c][1..] == [];
    } else {
      assert (ds + [c])[1..] == ds[1..] + [c];
      FoldFromLast(acc * 10 + (ds[0] as int - 0x30), ds[1..], c);
    }
  }

  lemma {:induction false} FoldFromDigits(n: nat)
    ensures forall i :: 0 <= i < |Digits(n, 10)| ==> IsDigit(Digits(n, 10)[i], 10)
    ensures FoldFrom(0, Digits(n, 10)) == n
  {
    if n >= 10 {
      FoldFromDigits(n / 10);
      FoldFromLast(0, Digits(n / 10, 10), 0x30 + n % 10);
    } else {
      assert Digits(n, 10)[1..] == [];
    }
  }

  /** The header a store writes parses back, as long as the parser's first 32
      bytes hold it. */
  lemma HeaderRoundTrip(kind: seq<byte>, len: nat)
    requires ValidKind(kind) && len < U64 && |HeaderText(kind, len)| <= HEADER_LIMIT
    ensures ParseHeader(Header(kind, len)) == Some((kind, len))
  {
    FoldFromDigits(len);
    ParseLengthFolds(Digits(len, 10), 0, len);
    hide Digits, ParseLength, FoldFrom;
    var d := Digits(len, 10);
    var h := Header(kind, len);
    var body := kind + [SPACE] + d;
    assert 0 !in body;
    var area := h[..HEADER_LIMIT];
    assert area == body + [0] + Nuls(HEADER_LIMIT - |body| - 1);
    MemchrAfter(body, 0, Nuls(HEADER_LIMIT - |body| - 1));
    assert h[..|body|] == kind + [SPACE] + d;
    MemchrAfter(kind, SPACE, d);
    assert h[|kind| + 1..|body|] == d;
    assert h[..|kind|] == kind;
  }

  // ------------------------------------------------------------------
  // Decoding a stored region
  // ------------------------------------------------------------------

  /** A stored object: its data region and its 64-byte trailer. */
  datatype Raw = Raw(region: seq<byte>, trailer: seq<byte>)

  datatype Fetched = Fetched(kind: seq<byte>, data: seq<byte>) | NotThere | Bad

  predicate Inflatable(payload: nat, plain: nat)
  {
    payload > 0 && plain <= MAX_PLAINTEXT && plain / payload <= MAX_RATIO
  }

  /** cas_codec_region_decode */
  function RegionDecode(c: Codec, region: seq<byte>, framed: bool, plain: nat): Option<seq<byte>>
  {
    if !framed then if |region| != plain then None else Some(region)
    else if region == [] then None
    else if region[0] == CODEC_NONE then if |region| - 1 != plain then None else Some(region[1..])
    else if plain == 0 then Some([])
    else if !Inflatable(|region| - 1, plain) then None
    else
      var d := c.decode(region[0], region[1..], plain);
      if d.Some? && |d.value| == plain then d else None
  }

  function MagicOf(t: seq<byte>): seq<byte>
    requires |t| == BLOCK
  {
    t[..8]
  }

  /** What a reader makes of a region and its trailer. */
  function Decode(c: Codec, r: Raw): Fetched
    requires |r.trailer| == BLOCK
  {
    if MagicOf(r.trailer) != MAGIC_V1 && MagicOf(r.trailer) != MAGIC_V2 then Bad else
    var h := ParseHeader(r.trailer[8..]);
    if h.None? then Bad else
    var d := RegionDecode(c, r.region, MagicOf(r.trailer) == MAGIC_V2, h.value.1);
    if d.None? then Bad else Fetched(h.value.0, d.value)
  }

  /** cas_open_loose_raw on a file's bytes */
  function LooseRaw(file: seq<byte>): (r: Option<Raw>)
    ensures r.Some? ==> |r.value.trailer| == BLOCK && r.value.region + r.value.trailer == file
  {
    if |file| < BLOCK || |file| > LOOSE_MAX then None else
    var t := file[|file| - BLOCK..];
    if MagicOf(t) != MAGIC_V1 && MagicOf(t) != MAGIC_V2 then None
    else Some(Raw(file[..|file| - BLOCK], t))
  }

  function ReadLoose(c: Codec, file: seq<byte>): Fetched
  {
    var r := LooseRaw(file);
    if r.None? then Bad else Decode(c, r.value)
  }

  /** The file cas_put_object writes. */
  function LooseFile(kind: seq<byte>, data: seq<byte>): seq<byte>
    requires |HeaderText(kind, |data|)| <= 56
  {
    data + MAGIC_V1 + Header(kind, |data|)
  }

  lemma {:induction false} DigitsAreFew(n: nat, k: nat)
    requires n < Pow10(k) && k > 0
    ensures |Digits(n, 10)| <= k
  {
    if n >= 10 {
      assert k > 1 by { assert Pow10(1) == 10 * Pow10(0); }
      DigitsAreFew(n / 10, k - 1);
    }
  }

  function Pow10(k: nat): nat { if k == 0 then 1 else 10 * Pow10(k - 1) }

  lemma Pow10Values()
    ensures Pow10(10) == 100_0000_0000
    ensures Pow10(20) > U64
  {
    assert Pow10(5) == 10_0000;
    assert Pow10(15) == 1000_000_000_000_000;
  }

  /** A stored object reads back exactly when its file is no longer than the
      reader accepts; the writer has no such limit. */
  lemma PutReadsBack(c: Codec, kind: seq<byte>, data: seq<byte>)
    requires ValidKind(kind) && |data| < U64
    ensures |HeaderText(kind, |data|)| <= 56
    ensures ReadLoose(c, LooseFile(kind, data)) == Fetched(kind, data) <==> |data| + BLOCK <= LOOSE_MAX
  {
    hide Digits, Pow10, ParseHeader;
    Pow10Values();
    DigitsAreFew(|data|, 20);
    var file := LooseFile(kind, data);
    if |data| + BLOCK <= LOOSE_MAX {
      DigitsAreFew(|data|, 10);
      HeaderRoundTrip(kind, |data|);
      hide Header;
      var t := file[|file| - BLOCK..];
      assert t == MAGIC_V1 + Header(kind, |data|);
      assert file[..|file| - BLOCK] == data;
      assert t[8..] == Header(kind, |data|) && t[..8] == MAGIC_V1;
    }
  }

  // ------------------------------------------------------------------
  // The packfile
  // ------------------------------------------------------------------

  /** One object of a packfile, in index order, with the plaintext length its
      header gives. */
  datatype Item = Item(hash: Digest, raw: Raw, plain: nat)

  function Bodies(items: seq<Item>): seq<byte>
  {
    if items == [] then []
    else
      var x := items[|items| - 1].raw;
      Bodies(items[..|items| - 1]) + x.region + x.trailer
  }

  /** Where the trailer of item i starts. */
  function OffsetOf(items: seq<Item>, i: nat): nat
    requires i < |items|
  {
    |Bodies(items[..i])| + |items[i].raw.region|
  }

  /** stored_size: zero when it equals the plaintext length. */
  function StoredSize(x: Item): nat { if |x.raw.region| == x.plain then 0 else |x.raw.region| }

  function IndexEntry(hash: Digest, offset: nat, stored: nat): (e: seq<byte>)
    ensures |e| == BLOCK
  {
    hash + Le(offset, 8) + Le(stored, 8) + Nuls(16)
  }

  function Index(items: seq<Item>): (s: seq<byte>)
    ensures |s| == BLOCK * |items|
  {
    if items == [] then []
    else
      var n := |items| - 1;
      Index(items[..n]) + IndexEntry(items[n].hash, OffsetOf(items, n), StoredSize(items[n]))
  }

  type Checksum = seq<byte> -> Digest

  function Footer(check: Checksum, index: seq<byte>, count: nat): (f: seq<byte>)
    ensures |f| == BLOCK
  {
    FOOTER_MAGIC + Le(count, 8) + check(index + FOOTER_MAGIC + Le(count, 8)) + Nuls(16)
  }

  function PackFile(check: Checksum, items: seq<Item>): seq<byte>
  {
    Bodies(items) + Index(items) + Footer(check, Index(items), |items|)
  }

  /** cas_pack_open: the number of entries. */
  function OpenPack(check: Checksum, file: seq<byte>): (r: Option<nat>)
    ensures r.Some? ==> BLOCK * r.value + BLOCK <= |file|
  {
    if |file| < BLOCK then None else
    var ft := file[|file| - BLOCK..];
    if ft[..8] != FOOTER_MAGIC then None else
    var count := FromLe(ft[8..16]);
    if BLOCK * count + BLOCK > |file| then None else
    var index := file[IndexStart(file, count)..|file| - BLOCK];
    if check(index + ft[..16]) != ft[16..48] then None else Some(count)
  }

  function IndexStart(file: seq<byte>, count: nat): nat
    requires BLOCK * count + BLOCK <= |file|
  {
    |file| - BLOCK - BLOCK * count
  }

  function EntryAt(file: seq<byte>, count: nat, i: nat): (e: seq<byte>)
    requires BLOCK * count + BLOCK <= |file| && i < count
    ensures |e| == BLOCK
  {
    var p := IndexStart(file, count) + BLOCK * i;
    file[p..p + BLOCK]
  }

  function HashAt(file: seq<byte>, count: nat, i: nat): (h: seq<byte>)
    requires BLOCK * count + BLOCK <= |file| && i < count
    ensures |h| == 32
  {
    EntryAt(file, count, i)[..32]
  }

  /** The binary search over [lo, hi). */
  function FindBetween(file: seq<byte>, count: nat, hash: Digest, lo: nat, hi: nat): (r: Option<nat>)
    requires BLOCK * count + BLOCK <= |file| && lo <= hi <= count
    ensures r.Some? ==> r.value < count && HashAt(file, count, r.value) == hash
    decreases hi - lo
  {
    if lo == hi then None else
    var mid := lo + (hi - lo) / 2;
    var c := MemCmp(HashAt(file, count, mid), hash);
    MemCmpIsLess(HashAt(file, count, mid), hash);
    if c < 0 then FindBetween(file, count, hash, mid + 1, hi)
    else if c > 0 then FindBetween(file, count, hash, lo, mid)
    else Some(mid)
  }

  lemma MemCmpIsLess(a: seq<byte>, b: seq<byte>)
    requires |a| == |b|
    ensures MemCmp(a, b) < 0 <==> Less(a, b)
    ensures MemCmp(a, b) > 0 <==> Less(b, a)
    ensures MemCmp(a, b) == 0 <==> a == b
  {
    hide MemCmp, Less;
    assert a[..|a|] == a && b[..|a|] == b;
    assert NameCmp(a, b) == MemCmp(a, b);
    NameCmpIsLess(a, b);
  }

  /** find_entry */
  method FindEntry(file: seq<byte>, count: nat, hash: Digest) returns (r: Option<nat>)
    requires BLOCK * count + BLOCK <= |file|
    ensures r == FindBetween(file, count, hash, 0, count)
  {
    hide MemCmp, HashAt;
    var lo, hi := 0, count;
    while lo < hi
      invariant 0 <= lo <= hi <= count
      invariant FindBetween(file, count, hash, 0, count) == FindBetween(file, count, hash, lo, hi)
    {
      var mid := lo + (hi - lo) / 2;
      var c := MemCmp(HashAt(file, count, mid), hash);
      if c < 0 {
        lo := mid + 1;
      } else if c > 0 {
        hi := mid;
      } else {
        return Some(mid);
      }
    }
    return None;
  }

  predicate AscendingIndex(file: seq<byte>, count: nat)
    requires BLOCK * count + BLOCK <= |file|
  {
    forall i, j :: 0 <= i < j < count ==> Less(HashAt(file, count, i), HashAt(file, count, j))
  }

  /** In a strictly ascending index the search finds a hash wherever it is. */
  lemma {:induction false} SearchFinds(file: seq<byte>, count: nat, i: nat, lo: nat, hi: nat)
    requires BLOCK * count + BLOCK <= |file| && AscendingIndex(file, count)
    requires lo <= i < hi <= count && |HashAt(file, count, i)| == 32
    ensures FindBetween(file, count, HashAt(file, count, i), lo, hi) == Some(i)
    decreases hi - lo
  {
    hide MemCmp, HashAt, Less;
    var mid := lo + (hi - lo) / 2;
    var h := HashAt(file, count, i);
    MemCmpIsLess(HashAt(file, count, mid), h);
    if mid < i {
      assert Less(HashAt(file, count, mid), h);
      SearchFinds(file, count, i, mid + 1, hi);
    } else if mid > i {
      assert Less(h, HashAt(file, count, mid));
      SearchFinds(file, count, i, lo, mid);
    }
  }

  /** pack_raw_region */
  function RawAt(file: seq<byte>, count: nat, hash: Digest): (r: Option<Raw>)
    requires BLOCK * count + BLOCK <= |file|
    ensures r.Some? ==> |r.value.trailer| == BLOCK
  {
    var i := FindBetween(file, count, hash, 0, count);
    if i.None? then None else RawOfEntry(file, EntryAt(file, count, i.value))
  }

  function RawOfEntry(file: seq<byte>, e: seq<byte>): (r: Option<Raw>)
    requires |e| == BLOCK
    ensures r.Some? ==> |r.value.trailer| == BLOCK
  {
    var off := FromLe(e[32..40]);
    if off + BLOCK > |file| then None else
    var trailer := file[off..off + BLOCK];
    var h := ParseHeader(trailer[8..]);
    if h.None? then None else
    var stored := FromLe(e[40..48]);
    var size := if stored != 0 then stored else h.value.1;
    if size > off then None else Some(Raw(file[off - size..off], trailer))
  }

  /** cas_pack_lookup: a decode of the same region, a bad trailer refused. */
  function Lookup(c: Codec, file: seq<byte>, count: nat, hash: Digest): Fetched
    requires BLOCK * count + BLOCK <= |file|
  {
    if FindBetween(file, count, hash, 0, count).None? then NotThere else
    var r := RawAt(file, count, hash);
    if r.None? then Bad else Decode(c, r.value)
  }

  // ------------------------------------------------------------------
  // Reading back what was packed
  // ------------------------------------------------------------------

  /** The header's length is the item's, and an empty region is an empty object. */
  predicate WellStored(x: Item)
  {
    && |x.raw.trailer| == BLOCK
    && (var h := ParseHeader(x.raw.trailer[8..]); h.Some? && h.value.1 == x.plain)
    && (x.raw.region == [] ==> x.plain == 0)
  }

  predicate AscendingItems(items: seq<Item>)
  {
    forall i, j :: 0 <= i < j < |items| ==> Less(items[i].hash, items[j].hash)
  }

  /** The body of the last item. */
  lemma LastBody(items: seq<Item>)
    requires items != [] && |items[|items| - 1].raw.trailer| == BLOCK
    ensures var n := |items| - 1; var off := OffsetOf(items, n); var b := Bodies(items); var x := items[n].raw;
            && |x.region| <= off && off + BLOCK == |b|
            && b[off - |x.region|..off] == x.region && b[off..off + BLOCK] == x.trailer
  {
    var n := |items| - 1;
    var b, x := Bodies(items[..n]), items[n].raw;
    hide Bodies;
    assert Bodies(items) == b + x.region + x.trailer by { BodiesStep(items); }
  }

  lemma BodiesStep(items: seq<Item>)
    requires items != []
    ensures var n := |items| - 1; Bodies(items) == Bodies(items[..n]) + items[n].raw.region + items[n].raw.trailer
  {
  }

  lemma {:induction false} BodyAt(items: seq<Item>, i: nat)
    requires i < |items| && |items[i].raw.trailer| == BLOCK
    ensures var off := OffsetOf(items, i); var b := Bodies(items); var x := items[i].raw;
            && |x.region| <= off && off + BLOCK <= |b|
            && b[off - |x.region|..off] == x.region && b[off..off + BLOCK] == x.trailer
    decreases |items|
  {
    hide Bodies;
    var n := |items| - 1;
    if i < n {
      var init, x := items[..n], items[n].raw;
      BodyAt(init, i);
      BodiesStep(items);
      assert init[..i] == items[..i];
      var off := OffsetOf(items, i);
      assert Bodies(init) + (x.region + x.trailer) == Bodies(items);
      SlicePrefix(Bodies(init), x.region + x.trailer, off - |items[i].raw.region|, off);
      SlicePrefix(Bodies(init), x.region + x.trailer, off, off + BLOCK);
    } else {
      LastBody(items);
    }
  }

  lemma SlicePrefix(a: seq<byte>, b: seq<byte>, i: nat, j: nat)
    requires i <= j <= |a|
    ensures (a + b)[i..j] == a[i..j]
  {
  }

  lemma SliceSuffix(a: seq<byte>, b: seq<byte>, i: nat, j: nat)
    requires i <= j <= |b|
    ensures (a + b)[|a| + i..|a| + j] == b[i..j]
  {
  }

  lemma {:induction false} IndexAt(items: seq<Item>, i: nat)
    requires i < |items|
    ensures Index(items)[BLOCK * i..BLOCK * i + BLOCK]
            == IndexEntry(items[i].hash, OffsetOf(items, i), StoredSize(items[i]))
    decreases |items|
  {
    hide IndexEntry;
    var n := |items| - 1;
    var init := items[..n];
    var last := IndexEntry(items[n].hash, OffsetOf(items, n), StoredSize(items[n]));
    assert Index(items) == Index(init) + last;
    if i < n {
      IndexAt(init, i);
      assert init[..i] == items[..i];
      assert OffsetOf(init, i) == OffsetOf(items, i);
      SlicePrefix(Index(init), last, BLOCK * i, BLOCK * i + BLOCK);
    }
  }

  lemma IndexEntryFields(hash: Digest, offset: nat, stored: nat)
    requires offset < U64 && stored < U64
    ensures var e := IndexEntry(hash, offset, stored);
            e[..32] == hash && FromLe(e[32..40]) == offset && FromLe(e[40..48]) == stored
  {
    Le64RoundTrip(offset);
    Le64RoundTrip(stored);
    hide Le, FromLe;
    var e := IndexEntry(hash, offset, stored);
    assert e[32..40] == Le(offset, 8) && e[40..48] == Le(stored, 8);
  }

  lemma FooterFields(check: Checksum, index: seq<byte>, count: nat)
    requires count < U64
    ensures var f := Footer(check, index, count);
            && f[..8] == FOOTER_MAGIC && FromLe(f[8..16]) == count
            && f[16..48] == check(index + f[..16])
  {
    Le64RoundTrip(count);
    hide Le, FromLe;
    var f := Footer(check, index, count);
    assert f[8..16] == Le(count, 8);
    assert f[..16] == FOOTER_MAGIC + Le(count, 8);
    assert index + f[..16] == index + FOOTER_MAGIC + Le(count, 8);
  }

  /** A written packfile opens with as many entries as objects. */
  lemma PackOpens(check: Checksum, items: seq<Item>)
    requires |items| < U64
    ensures OpenPack(check, PackFile(check, items)) == Some(|items|)
    ensures IndexStart(PackFile(check, items), |items|) == |Bodies(items)|
  {
    hide Bodies, Index, Footer, FromLe;
    var b, i, f := Bodies(items), Index(items), Footer(check, Index(items), |items|);
    var file := PackFile(check, items);
    FooterFields(check, i, |items|);
    assert file == b + i + f;
    assert file[|file| - BLOCK..] == f;
    assert file[|b|..|file| - BLOCK] == i;
  }

  /** A block of the middle one of three parts. */
  lemma SliceMiddle(b: seq<byte>, x: seq<byte>, f: seq<byte>, i: nat, j: nat)
    requires i <= j <= |x|
    ensures (b + x + f)[|b| + i..|b| + j] == x[i..j]
  {
    SlicePrefix(b + x, f, |b| + i, |b| + j);
    SliceSuffix(b, x, i, j);
  }

  lemma PackedEntry(check: Checksum, items: seq<Item>, i: nat)
    requires i < |items| < U64
    ensures var file := PackFile(check, items);
            && BLOCK * |items| + BLOCK <= |file|
            && EntryAt(file, |items|, i) == IndexEntry(items[i].hash, OffsetOf(items, i), StoredSize(items[i]))
  {
    hide Bodies, Index, Footer, IndexEntry, OffsetOf, StoredSize, OpenPack;
    PackOpens(check, items);
    IndexAt(items, i);
    var b, x, f := Bodies(items), Index(items), Footer(check, Index(items), |items|);
    SliceMiddle(b, x, f, BLOCK * i, BLOCK * i + BLOCK);
  }

  lemma {:induction false} BodiesGrow(items: seq<Item>, i: nat)
    requires i < |items|
    ensures OffsetOf(items, i) <= |Bodies(items)|
    decreases |items|
  {
    var n := |items| - 1;
    if i < n {
      BodiesGrow(items[..n], i);
      assert items[..n][..i] == items[..i];
    }
  }

  lemma PackedHash(check: Checksum, items: seq<Item>, i: nat)
    requires i < |items| && |PackFile(check, items)| < U64
    ensures BLOCK * |items| + BLOCK <= |PackFile(check, items)|
    ensures HashAt(PackFile(check, items), |items|, i) == items[i].hash
    ensures OffsetOf(items, i) < U64 && StoredSize(items[i]) < U64
  {
    BodiesGrow(items, i);
    hide Bodies, Index, IndexEntry;
    PackedEntry(check, items, i);
    IndexEntryFields(items[i].hash, OffsetOf(items, i), StoredSize(items[i]));
  }

  /** Its index is strictly ascending when its objects are. */
  lemma PackedIndexAscends(check: Checksum, items: seq<Item>)
    requires AscendingItems(items) && |PackFile(check, items)| < U64
    ensures BLOCK * |items| + BLOCK <= |PackFile(check, items)|
    ensures AscendingIndex(PackFile(check, items), |items|)
  {
    hide PackFile, HashAt, Less;
    if items == [] {
      PackOpens(check, items);
    } else {
      PackedHash(check, items, 0);
    }
    forall i, j | 0 <= i < j < |items|
      ensures Less(HashAt(PackFile(check, items), |items|, i), HashAt(PackFile(check, items), |items|, j))
    {
      PackedHash(check, items, i);
      PackedHash(check, items, j);
    }
  }

  lemma PackedRegion(check: Checksum, items: seq<Item>, i: nat)
    requires i < |items| && |PackFile(check, items)| < U64 && WellStored(items[i])
    ensures BLOCK * |items| + BLOCK <= |PackFile(check, items)|
    ensures RawOfEntry(PackFile(check, items), EntryAt(PackFile(check, items), |items|, i)) == Some(items[i].raw)
  {
    hide Bodies, Index, IndexEntry, Footer, ParseHeader, FromLe;
    PackedHash(check, items, i);
    PackedEntry(check, items, i);
    IndexEntryFields(items[i].hash, OffsetOf(items, i), StoredSize(items[i]));
    BodyAt(items, i);
    var x, off := items[i].raw, OffsetOf(items, i);
    var b := Bodies(items);
    var tail := Index(items) + Footer(check, Index(items), |items|);
    assert PackFile(check, items) == b + tail;
    SlicePrefix(b, tail, off - |x.region|, off);
    SlicePrefix(b, tail, off, off + BLOCK);
  }

  /** Binary search in a written packfile finds exactly the packed hashes, each
      well-stored one with its region and trailer. */
  lemma PackedIsFound(check: Checksum, items: seq<Item>, hash: Digest)
    requires AscendingItems(items) && |PackFile(check, items)| < U64
    ensures BLOCK * |items| + BLOCK <= |PackFile(check, items)|
    ensures var file := PackFile(check, items);
            && (FindBetween(file, |items|, hash, 0, |items|).Some? <==> exists i :: 0 <= i < |items| && items[i].hash == hash)
            && forall i :: 0 <= i < |items| && items[i].hash == hash && WellStored(items[i]) ==>
                 RawAt(file, |items|, hash) == Some(items[i].raw)
  {
    hide PackFile, HashAt, Less, MemCmp, RawOfEntry, WellStored, FindBetween;
    PackedIndexAscends(check, items);
    var file := PackFile(check, items);
    forall i | 0 <= i < |items| && items[i].hash == hash
      ensures FindBetween(file, |items|, hash, 0, |items|) == Some(i)
      ensures WellStored(items[i]) ==> RawAt(file, |items|, hash) == Some(items[i].raw)
    {
      PackedHash(check, items, i);
      SearchFinds(file, |items|, i, 0, |items|);
      if WellStored(items[i]) {
        PackedRegion(check, items, i);
      }
    }
    var r := FindBetween(file, |items|, hash, 0, |items|);
    if r.Some? {
      PackedHash(check, items, r.value);
    }
  }

  /** Opening a file as a pack and looking an address up in it. */
  function ReadPack(c: Codec, check: Checksum, file: seq<byte>, hash: Digest): Fetched
  {
    var n := OpenPack(check, file);
    if n.None? then NotThere else Lookup(c, file, n.value, hash)
  }

  /** A packed address is found, and if it was well stored decodes exactly what
      was packed there, whatever the others are. */
  lemma PackedLookup(c: Codec, check: Checksum, items: seq<Item>, i: nat)
    requires AscendingItems(items) && |PackFile(check, items)| < U64 && i < |items|
    ensures ReadPack(c, check, PackFile(check, items), items[i].hash) != NotThere
    ensures WellStored(items[i]) ==> ReadPack(c, check, PackFile(check, items), items[i].hash) == Decode(c, items[i].raw)
  {
    hide PackFile, RawAt, FindBetween, OpenPack, IndexStart, ParseHeader, RegionDecode;
    CountIsSmall(check, items);
    PackOpens(check, items);
    PackedIsFound(check, items, items[i].hash);
  }

  /** Any other address is not found. */
  lemma UnpackedLookup(c: Codec, check: Checksum, items: seq<Item>, hash: Digest)
    requires AscendingItems(items) && |PackFile(check, items)| < U64
    requires forall k :: 0 <= k < |items| ==> items[k].hash != hash
    ensures ReadPack(c, check, PackFile(check, items), hash) == NotThere
  {
    hide PackFile, RawAt, FindBetween, OpenPack, Decode, IndexStart, WellStored;
    CountIsSmall(check, items);
    PackOpens(check, items);
    PackedIsFound(check, items, hash);
  }

  lemma CountIsSmall(check: Checksum, items: seq<Item>)
    requires |PackFile(check, items)| < U64
    ensures |items| < U64
  {
    hide Bodies, Footer;
    assert |Index(items)| == BLOCK * |items|;
  }
}
