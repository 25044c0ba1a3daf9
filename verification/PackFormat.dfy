/** What a loose file and a packfile look like to another reader of the format,
    in numbers, and when the store's own reader accepts what it finds there
    (cas.c, cas-pack.c, cas-codec.c). */
module PackFormat {
  import opened Bytes
  import opened TreeText
  import opened Pack
  import opened Packer

  // ------------------------------------------------------------------
  // Headers and loose files
  // ------------------------------------------------------------------

  /** "blob 86400", ended by a NUL. */
  lemma HeaderAnswer()
    ensures HeaderText([0x62, 0x6C, 0x6F, 0x62], 86400)
            == [0x62, 0x6C, 0x6F, 0x62] + [0x20] + [0x38, 0x36, 0x34, 0x30, 0x30] + [0x00]
  {
    NumberAnswers();
    hide Digits;
  }

  /** The types a header can hold. */
  lemma KindIff(kind: seq<byte>)
    ensures ValidKind(kind) <==> 1 <= |kind| <= 16 && 0x20 !in kind && 0 !in kind
  {
  }

  /** A loose file is the object's bytes and 64 more: eight of magic and the
      header, filled up with NULs. */
  lemma LooseFormat(kind: seq<byte>, data: seq<byte>)
    requires |HeaderText(kind, |data|)| <= 56
    ensures var f := LooseFile(kind, data); var n := |data|; var t := |HeaderText(kind, n)|;
            && |f| == n + 64 && f[..n] == data
            && f[n..n + 8] == [0xCB, 0x4F, 0x42, 0x4A, 0xAA, 0x01, 0x00, 0x00]
            && f[n + 8..n + 8 + t] == HeaderText(kind, n)
            && forall i :: n + 8 + t <= i < n + 64 ==> f[i] == 0
  {
    hide HeaderText;
  }

  /** It reads back exactly when it has at most 2^30 bytes. */
  lemma LooseLimit(c: Codec, kind: seq<byte>, data: seq<byte>)
    requires ValidKind(kind) && |data| < U64
    ensures |HeaderText(kind, |data|)| <= 56
    ensures ReadLoose(c, LooseFile(kind, data)) == Fetched(kind, data) <==> |data| + 64 <= 1073741824
  {
    PutReadsBack(c, kind, data);
    hide HeaderText, ReadLoose, LooseFile;
  }

  /** What a header is taken for: a type of 1 to 16 bytes without spaces, a space
      and a number, before a NUL among the first 32 bytes. */
  lemma ParsedHeader(h: seq<byte>)
    requires ParseHeader(h).Some?
    ensures var k := ParseHeader(h).value.0; var n := Memchr(h, 0);
            && 1 <= |k| <= 16 && |k| + 1 < n < |h| && n < 32
            && h[..|k|] == k && h[|k|] == 0x20 && 0x20 !in k
            && ParseLength(h[|k| + 1..n], 0) == Some(ParseHeader(h).value.1)
  {
    hide ParseLength, Memchr;
    NulInArea(h);
    var nul := Memchr(h, 0);
    if nul < |h| && nul < 32 && Memchr(h[..nul], SPACE) < nul {
      NoSpaceBefore(h, nul, Memchr(h[..nul], SPACE));
    }
  }

  lemma NulInArea(h: seq<byte>)
    ensures var area := if |h| < HEADER_LIMIT then h else h[..HEADER_LIMIT]; var nul := Memchr(area, 0);
            nul < |area| ==> nul == Memchr(h, 0) && nul < |h| && nul < 32
  {
    hide Memchr;
    var area := if |h| < HEADER_LIMIT then h else h[..HEADER_LIMIT];
    var nul := Memchr(area, 0);
    if nul < |area| {
      FirstNul(h, nul);
    }
  }

  lemma NoSpaceBefore(h: seq<byte>, nul: nat, sp: nat)
    requires sp < nul <= |h| && sp == Memchr(h[..nul], SPACE)
    ensures h[sp] == 0x20 && 0x20 !in h[..sp]
  {
    hide Memchr;
    assert h[..nul][sp] == h[sp];
    assert forall i :: 0 <= i < sp ==> h[..sp][i] == h[..nul][i];
  }

  lemma FirstNul(h: seq<byte>, n: nat)
    requires n < |h| && h[n] == 0 && forall i :: 0 <= i < n ==> h[i] != 0
    ensures Memchr(h, 0) == n
  {
    var m := Memchr(h, 0);
    assert m < |h| ==> h[m] == 0;
  }

  // ------------------------------------------------------------------
  // Regions
  // ------------------------------------------------------------------

  /** When a stored region gives an object of the length its header says.  Without
      a codec tag, and behind the tag that says there is none, it is the bytes
      themselves; behind any other the payload may be at most 256 times shorter
      than the object, and the object at most 100 MiB. */
  lemma RegionIff(c: Codec, region: seq<byte>, plain: nat)
    ensures RegionDecode(c, region, false, plain) == if |region| == plain then Some(region) else None
    ensures region == [] ==> RegionDecode(c, region, true, plain) == None
    ensures region != [] && region[0] == 0x25 ==>
              RegionDecode(c, region, true, plain) == if |region| == plain + 1 then Some(region[1..]) else None
    ensures region != [] && region[0] != 0x25 && plain == 0 ==> RegionDecode(c, region, true, plain) == Some([])
    ensures region != [] && region[0] != 0x25 && plain > 0 ==>
              var d := c.decode(region[0], region[1..], plain);
              RegionDecode(c, region, true, plain)
              == if |region| > 1 && plain <= 104857600 && plain / (|region| - 1) <= 256 && d.Some? && |d.value| == plain
                 then d else None
  {
  }

  /** The two kinds of trailer: bare, and with a codec tag before the region. */
  lemma DecodeIff(c: Codec, r: Raw)
    requires |r.trailer| == 64
    ensures var m := r.trailer[..8]; var h := ParseHeader(r.trailer[8..]);
            var bare := m == [0xCB, 0x4F, 0x42, 0x4A, 0xAA, 0x01, 0x00, 0x00];
            var tagged := m == [0xCB, 0x4F, 0x42, 0x4A, 0xAA, 0x02, 0x00, 0x00];
            Decode(c, r) == if (bare || tagged) && h.Some? && RegionDecode(c, r.region, tagged, h.value.1).Some?
                            then Fetched(h.value.0, RegionDecode(c, r.region, tagged, h.value.1).value) else Bad
  {
    hide ParseHeader, RegionDecode;
  }

  /** Packing compresses a bare region exactly when the policy names a codec whose
      result, tag included, saves more than an eighth; then the tag comes before
      the result and the trailer changes its magic only. */
  lemma EmitIff(c: Codec, policy: seq<byte> -> byte, raw: Raw)
    requires |raw.trailer| == 64
    ensures var n := |raw.region|; var p := c.encode(policy(raw.region), raw.region);
            Emit(c, policy, raw)
            == if raw.trailer[..8] != [0xCB, 0x4F, 0x42, 0x4A, 0xAA, 0x02, 0x00, 0x00] && n > 0
                  && policy(raw.region) != 0x25 && p.Some? && |p.value| + 1 < n - n / 8
               then Raw([policy(raw.region)] + p.value, [0xCB, 0x4F, 0x42, 0x4A, 0xAA, 0x02, 0x00, 0x00] + raw.trailer[8..])
               else raw
  {
  }

  // ------------------------------------------------------------------
  // Packfiles
  // ------------------------------------------------------------------

  /** A packfile ends in its index, 64 bytes for each object, and 64 bytes of
      footer: magic, how many objects, and the checksum of the index and of those
      16 bytes. */
  lemma FooterFormat(check: Checksum, items: seq<Item>)
    requires |items| < U64
    ensures var f := PackFile(check, items); var n := |f|;
            && n == |Bodies(items)| + 64 * |items| + 64
            && f[n - 64..n - 56] == [0xCB, 0x50, 0x4B, 0x46, 0xAA, 0x01, 0x00, 0x00]
            && FromLe(f[n - 56..n - 48]) == |items|
            && f[n - 48..n - 16] == check(f[|Bodies(items)|..n - 48])
            && forall i :: n - 16 <= i < n ==> f[i] == 0
  {
    var x, n := Index(items), |items|;
    FooterFields(check, x, n);
    FooterZeros(check, x, n);
    var b, t := Bodies(items), Footer(check, x, n);
    ThreeParts(b, x, t);
    assert PackFile(check, items) == b + x + t;
    hide *;
  }

  lemma ThreeParts(b: seq<byte>, x: seq<byte>, t: seq<byte>)
    requires |t| == 64
    ensures var f := b + x + t; var n := |f|;
            && f[n - 64..n - 56] == t[..8] && f[n - 56..n - 48] == t[8..16] && f[n - 48..n - 16] == t[16..48]
            && f[|b|..n - 48] == x + t[..16]
            && forall i :: n - 16 <= i < n ==> f[i] == t[i - (n - 64)]
  {
  }

  /** Which files open as packfiles, and with how many entries. */
  lemma OpensIff(check: Checksum, f: seq<byte>, count: nat)
    ensures OpenPack(check, f) == Some(count) <==>
              var n := |f|;
              && n >= 64 && 64 * count + 64 <= n
              && f[n - 64..n - 56] == [0xCB, 0x50, 0x4B, 0x46, 0xAA, 0x01, 0x00, 0x00]
              && FromLe(f[n - 56..n - 48]) == count
              && f[n - 48..n - 16] == check(f[n - 64 - 64 * count..n - 64] + f[n - 64..n - 48])
  {
    hide FromLe;
    if |f| >= 64 {
      var n := |f|;
      SubSlice(f, n - 64, n, 0, 8);
      SubSlice(f, n - 64, n, 8, 16);
      SubSlice(f, n - 64, n, 0, 16);
      SubSlice(f, n - 64, n, 16, 48);
      assert f[n - 64..] == f[n - 64..n];
    }
  }

  lemma FooterZeros(check: Checksum, index: seq<byte>, count: nat)
    ensures forall i :: 48 <= i < 64 ==> Footer(check, index, count)[i] == 0
  {
    hide Le;
  }

  /** Index entry i: the address, the offset of the object's trailer, the stored
      size when it is not the object's own, zeros. */
  lemma IndexFormat(check: Checksum, items: seq<Item>, i: nat)
    requires i < |items| && |PackFile(check, items)| < U64
    ensures |PackFile(check, items)| == |Bodies(items)| + 64 * |items| + 64
    ensures var p := |Bodies(items)| + 64 * i; var e := PackFile(check, items)[p..p + 64]; var x := items[i];
            && e[..32] == x.hash
            && FromLe(e[32..40]) == |Bodies(items[..i])| + |x.raw.region|
            && FromLe(e[40..48]) == (if |x.raw.region| == x.plain then 0 else |x.raw.region|)
            && forall j :: 48 <= j < 64 ==> e[j] == 0
  {
    EntryLies(check, items, i);
    PackedHash(check, items, i);
    IndexEntryFields(items[i].hash, OffsetOf(items, i), StoredSize(items[i]));
    EntryZeros(items[i].hash, OffsetOf(items, i), StoredSize(items[i]));
    hide Bodies, FromLe, IndexEntry, PackFile, HashAt;
  }

  lemma EntryLies(check: Checksum, items: seq<Item>, i: nat)
    requires i < |items| < U64
    ensures |PackFile(check, items)| == |Bodies(items)| + 64 * |items| + 64
    ensures var p := |Bodies(items)| + 64 * i;
            PackFile(check, items)[p..p + 64] == IndexEntry(items[i].hash, OffsetOf(items, i), StoredSize(items[i]))
  {
    hide *;
    PackedEntry(check, items, i);
    PackOpens(check, items);
    EntryIsSlice(PackFile(check, items), |items|, i);
  }

  lemma EntryIsSlice(file: seq<byte>, count: nat, i: nat)
    requires BLOCK * count + BLOCK <= |file| && i < count
    ensures IndexStart(file, count) + 64 * count + 64 == |file|
    ensures EntryAt(file, count, i) == file[IndexStart(file, count) + 64 * i..IndexStart(file, count) + 64 * i + 64]
  {
  }

  lemma EntryZeros(hash: Digest, offset: nat, stored: nat)
    ensures forall i :: 48 <= i < 64 ==> IndexEntry(hash, offset, stored)[i] == 0
  {
    hide Le;
  }

  /** Each object's region comes just before its trailer. */
  lemma BodyFormat(items: seq<Item>, i: nat)
    requires i < |items| && |items[i].raw.trailer| == 64
    ensures var p := |Bodies(items[..i])|; var x := items[i].raw; var q := p + |x.region|;
            q + 64 <= |Bodies(items)| && Bodies(items)[p..q] == x.region && Bodies(items)[q..q + 64] == x.trailer
  {
    BodyAt(items, i);
    hide Bodies;
  }
}
