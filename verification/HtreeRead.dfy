/** Reading an htree: the listing scan, the table probe, and why the two agree on
    every object the builder can write (cas-tree.c: htree_parse_dir,
    htree_lookup_entry). */
module HtreeRead {
  import opened Bytes
  import opened Names
  import opened Entries
  import opened TreeText
  import opened Htree

  // ------------------------------------------------------------------
  // The listing scan
  // ------------------------------------------------------------------

  function LoadAt(data: seq<byte>, pos: nat): nat
    requires pos + 4 <= |data|
  {
    FromLe(data[pos..pos + 4])
  }

  lemma LoadBound(data: seq<byte>, pos: nat)
    requires pos + 4 <= |data|
    ensures LoadAt(data, pos) < U32
  {
    LeOfFromLe(data[pos..pos + 4]);
    Pow256Values();
  }

  /** htree_unpack_entry */
  function Unpack(d: seq<byte>, key: seq<byte>): (e: Entry)
    requires |d| == DATA_LEN
    ensures IsLowerHash(e.hash) && e.mode < U32
  {
    LoadBound(d, 0); LoadBound(d, 4); LoadBound(d, 8); LoadBound(d, 20);
    LeOfFromLe(d[12..20]); Pow256Values();
    Entry(CString(key), LoadAt(d, 0), Signed32(LoadAt(d, 4)), Signed32(LoadAt(d, 8)),
          Signed64(FromLe(d[12..20])), Signed32(LoadAt(d, 20)), HexEncode(d[24..56]))
  }

  predicate Framed(data: seq<byte>)
  {
    && |data| >= HEADER_LEN + FOOTER_LEN
    && data[|data| - 4..] == MAGIC
  }

  /** Records end where the first non-empty table starts, looking at the first
      n buckets. */
  function RecordsEnd(data: seq<byte>, n: nat, limit: nat): (r: nat)
    requires n <= NBUCKETS && |data| >= HEADER_LEN
    ensures r <= limit
  {
    if n == 0 then limit else
    var r := RecordsEnd(data, n - 1, limit);
    var tpos, tslots := LoadAt(data, 8 * (n - 1)), LoadAt(data, 8 * (n - 1) + 4);
    if tslots > 0 && tpos < r then tpos else r
  }

  function ScanRecords(data: seq<byte>, pos: nat, end: nat, acc: seq<Entry>): (r: Option<seq<Entry>>)
    requires end <= |data|
    decreases |data| - pos
  {
    if pos + 8 > end then Some(acc) else
    var keylen, datalen := LoadAt(data, pos), LoadAt(data, pos + 4);
    var p := pos + 8;
    if datalen != DATA_LEN || keylen == 0 || keylen > NAME_MAX || p + keylen + datalen > end then None else
    var e := Unpack(data[p + keylen..p + keylen + DATA_LEN], data[p..p + keylen]);
    if acc != [] && NameCmp(acc[|acc| - 1].name, e.name) >= 0 then None else
    if !ValidName(e.name) then None else
    ScanRecords(data, p + keylen + datalen, end, acc + [e])
  }

  function Parse(data: seq<byte>): (r: Option<seq<Entry>>)
  {
    if !Framed(data) then None else
    var cdbLen := |data| - FOOTER_LEN;
    if LoadAt(data, cdbLen) != Adler(data[..cdbLen]) then None else
    EndBound(cdbLen);
    ScanRecords(data, HEADER_LEN, RecordsEnd(data, NBUCKETS, cdbLen % U32), [])
  }

  lemma EndBound(n: nat)
    ensures n % U32 <= n
  {
  }

  /** htree_parse_dir */
  method ParseDir(data: seq<byte>) returns (r: Option<seq<Entry>>)
    ensures r == Parse(data)
  {
    hide NameCmp, ValidName, Unpack, FromLe, Adler;
    if |data| < HEADER_LEN + FOOTER_LEN {
      return None;
    }
    if data[|data| - 4..] != MAGIC {
      return None;
    }
    var cdbLen := |data| - FOOTER_LEN;
    var stored := LoadAt(data, cdbLen);
    var computed := Adler(data[..cdbLen]);
    if stored != computed {
      return None;
    }
    var recEnd := cdbLen % U32;
    for b := 0 to NBUCKETS
      invariant recEnd == RecordsEnd(data, b, cdbLen % U32)
    {
      var tpos, tslots := LoadAt(data, b * 8), LoadAt(data, b * 8 + 4);
      if tslots > 0 && tpos < recEnd {
        recEnd := tpos;
      }
    }
    EndBound(cdbLen);
    var dir: seq<Entry> := [];
    var pos := HEADER_LEN;
    while pos + 8 <= recEnd
      invariant Parse(data) == ScanRecords(data, pos, recEnd, dir)
      decreases recEnd - pos
    {
      var keylen, datalen := LoadAt(data, pos), LoadAt(data, pos + 4);
      pos := pos + 8;
      if datalen != DATA_LEN || keylen == 0 || keylen > NAME_MAX || pos + keylen + datalen > recEnd {
        return None;
      }
      var e := Unpack(data[pos + keylen..pos + keylen + DATA_LEN], data[pos..pos + keylen]);
      pos := pos + keylen + datalen;
      if |dir| > 0 && NameCmp(dir[|dir| - 1].name, e.name) >= 0 {
        return None;
      }
      if !ValidName(e.name) {
        return None;
      }
      dir := dir + [e];
    }
    return Some(dir);
  }

  // ------------------------------------------------------------------
  // The table probe
  // ------------------------------------------------------------------

  /** Probe i of the loop in htree_lookup_entry. */
  function Probe(data: seq<byte>, cdbLen: nat, tpos: nat, nslots: nat, h: nat, slot: nat,
                 name: seq<byte>, i: nat): (r: Lookup)
    requires cdbLen <= |data| && nslots > 0 && |name| <= NAME_MAX
    decreases nslots - i
  {
    if i >= nslots then Absent else
    var spos := tpos + (slot + i) % U32 % nslots * 8;
    if spos + 8 > cdbLen then Malformed else
    var sh, rpos := LoadAt(data, spos), LoadAt(data, spos + 4);
    if rpos == 0 then Absent else
    if sh != h then Probe(data, cdbLen, tpos, nslots, h, slot, name, i + 1) else
    if rpos + 8 > cdbLen then Malformed else
    var rkeylen, rdatalen := LoadAt(data, rpos), LoadAt(data, rpos + 4);
    if rkeylen != |name| then Probe(data, cdbLen, tpos, nslots, h, slot, name, i + 1) else
    if rdatalen != DATA_LEN then Malformed else
    if rpos + 8 + rkeylen + rdatalen > cdbLen then Malformed else
    if data[rpos + 8..rpos + 8 + |name|] != name then Probe(data, cdbLen, tpos, nslots, h, slot, name, i + 1) else
    Found(Unpack(data[rpos + 8 + rkeylen..rpos + 8 + rkeylen + DATA_LEN], name))
  }

  function ProbeFor(data: seq<byte>, name: seq<byte>): (r: Lookup)
  {
    if !Framed(data) then Malformed else
    if |name| > NAME_MAX then Absent else
    var h := Djb(name);
    var b := h % NBUCKETS;
    var tpos, nslots := LoadAt(data, b * 8), LoadAt(data, b * 8 + 4);
    if nslots == 0 then Absent
    else Probe(data, |data| - FOOTER_LEN, tpos, nslots, h, h / 256 % nslots, name, 0)
  }

  /** htree_lookup_entry */
  method LookupEntry(data: seq<byte>, name: seq<byte>) returns (r: Lookup)
    ensures r == ProbeFor(data, name)
  {
    hide Unpack, FromLe, Djb, LoadAt;
    if |data| < HEADER_LEN + FOOTER_LEN {
      return Malformed;
    }
    if data[|data| - 4..] != MAGIC {
      return Malformed;
    }
    var cdbLen := |data| - FOOTER_LEN;
    if |name| > NAME_MAX {
      return Absent;
    }
    var h := DjbHash(name);
    var b := h % NBUCKETS;
    var tpos, nslots := LoadAt(data, b * 8), LoadAt(data, b * 8 + 4);
    if nslots == 0 {
      return Absent;
    }
    var slot := h / 256 % nslots;
    for i := 0 to nslots
      invariant ProbeFor(data, name) == Probe(data, cdbLen, tpos, nslots, h, slot, name, i)
    {
      var spos := tpos + (slot + i) % U32 % nslots * 8;
      if spos + 8 > cdbLen {
        return Malformed;
      }
      var sh, rpos := LoadAt(data, spos), LoadAt(data, spos + 4);
      if rpos == 0 {
        return Absent;
      }
      if sh != h {
        continue;
      }
      if rpos + 8 > cdbLen {
        return Malformed;
      }
      var rkeylen, rdatalen := LoadAt(data, rpos), LoadAt(data, rpos + 4);
      if rkeylen != |name| {
        continue;
      }
      if rdatalen != DATA_LEN {
        return Malformed;
      }
      if rpos + 8 + rkeylen + rdatalen > cdbLen {
        return Malformed;
      }
      if data[rpos + 8..rpos + 8 + |name|] != name {
        continue;
      }
      return Found(Unpack(data[rpos + 8 + rkeylen..rpos + 8 + rkeylen + DATA_LEN], name));
    }
    return Absent;
  }

  // ------------------------------------------------------------------
  // Where everything is in a built object
  // ------------------------------------------------------------------

  /** A directory whose encoding stays addressable by 32-bit offsets. */
  predicate Fits(dir: seq<Entry>)
    requires Hashed(dir)
  {
    |Encode(dir)| < U32
  }

  function NameBytes(dir: seq<Entry>, n: nat): nat
    requires n <= |dir|
  {
    if n == 0 then 0 else NameBytes(dir, n - 1) + |dir[n - 1].name|
  }

  function CountBelow(dir: seq<Entry>, b: nat, n: nat): nat
    requires n <= |dir|
  {
    if b == 0 then 0 else CountBelow(dir, b - 1, n) + CountIn(dir, b - 1, n)
  }

  lemma {:induction false} CountBelowStep(dir: seq<Entry>, b: nat, n: nat)
    requires n <= |dir|
    ensures n == 0 ==> CountBelow(dir, b, n) == 0
    ensures n > 0 ==> CountBelow(dir, b, n) == CountBelow(dir, b, n - 1) + (if Bucket(dir[n - 1]) < b then 1 else 0)
  {
    hide Bucket;
    if b > 0 {
      CountBelowStep(dir, b - 1, n);
    }
  }

  /** Every entry is in one bucket. */
  lemma {:induction false} BucketsPartition(dir: seq<Entry>, n: nat)
    requires n <= |dir|
    ensures CountBelow(dir, NBUCKETS, n) == n
  {
    hide Bucket, CountBelow, CountIn;
    CountBelowStep(dir, NBUCKETS, n);
    if n > 0 {
      BucketsPartition(dir, n - 1);
    }
  }

  lemma {:induction false} TablesLength(dir: seq<Entry>, b: nat)
    requires Hashed(dir)
    ensures |Tables(dir, b)| == 16 * CountBelow(dir, b, |dir|)
  {
    hide Table, CountIn;
    if b > 0 {
      TablesLength(dir, b - 1);
    }
  }

  lemma {:induction false} RecordsLength(dir: seq<Entry>, n: nat)
    requires Hashed(dir) && n <= |dir|
    ensures |Records(dir, n)| == 64 * n + NameBytes(dir, n)
  {
    hide Record;
    if n > 0 {
      RecordsLength(dir, n - 1);
    }
  }

  /** The size of an htree: 80 bytes and its name for each entry. */
  lemma EncodedLength(dir: seq<Entry>)
    requires Hashed(dir)
    ensures |Encode(dir)| == HEADER_LEN + FOOTER_LEN + 80 * |dir| + NameBytes(dir, |dir|)
  {
    hide Encode, Tables, Records;
    RecordsLength(dir, |dir|);
    TablesLength(dir, NBUCKETS);
    BucketsPartition(dir, |dir|);
  }

  lemma CanonicalIsHashed(dir: seq<Entry>)
    requires Canonical(dir)
    ensures Hashed(dir)
  {
  }

  function Normal(e: Entry): Entry { e.(hash := Lower(e.hash)) }

  /** A listing as the binary form gives it back: hashes in lower case. */
  function Normalized(dir: seq<Entry>): (r: seq<Entry>)
    ensures |r| == |dir|
  {
    seq(|dir|, i requires 0 <= i < |dir| => Normal(dir[i]))
  }

  lemma {:induction false} RecordSlice(dir: seq<Entry>, i: nat, n: nat)
    requires Hashed(dir) && i < n <= |dir|
    ensures |Records(dir, i)| + |Record(dir[i])| <= |Records(dir, n)|
    ensures Records(dir, n)[|Records(dir, i)|..|Records(dir, i)| + |Record(dir[i])|] == Record(dir[i])
    decreases n
  {
    hide Record;
    if i < n - 1 {
      RecordSlice(dir, i, n - 1);
      var a, b := |Records(dir, i)|, |Records(dir, i)| + |Record(dir[i])|;
      assert Records(dir, n)[a..b] == Records(dir, n - 1)[a..b];
    }
  }

  lemma {:induction false} HeaderSlice(dir: seq<Entry>, b: nat, n: nat)
    requires Hashed(dir) && b < n
    ensures Header(dir, n)[8 * b..8 * b + 8] == HeaderEntry(dir, b)
    decreases n
  {
    hide HeaderEntry;
    if b < n - 1 {
      HeaderSlice(dir, b, n - 1);
      assert Header(dir, n)[8 * b..8 * b + 8] == Header(dir, n - 1)[8 * b..8 * b + 8];
    }
  }

  lemma {:induction false} TableSlice(dir: seq<Entry>, b: nat, n: nat)
    requires Hashed(dir) && b < n
    ensures |Tables(dir, b)| + 8 * SlotCount(dir, b) <= |Tables(dir, n)|
    ensures Tables(dir, n)[|Tables(dir, b)|..|Tables(dir, b)| + 8 * SlotCount(dir, b)] == TableBytes(Table(dir, b, |dir|))
    decreases n
  {
    hide Table, TableBytes, SlotCount;
    var prior, last := Tables(dir, n - 1), TableBytes(Table(dir, n - 1, |dir|));
    assert |last| == 8 * SlotCount(dir, n - 1) && Tables(dir, n) == prior + last;
    hide Tables;
    if b < n - 1 {
      TableSlice(dir, b, n - 1);
      SliceFront(prior, last, |Tables(dir, b)|, |Tables(dir, b)| + 8 * SlotCount(dir, b));
    } else {
      assert (prior + last)[|prior|..|prior| + |last|] == last;
    }
  }

  lemma SliceFront(a: seq<byte>, b: seq<byte>, i: nat, j: nat)
    requires i <= j <= |a|
    ensures (a + b)[i..j] == a[i..j]
  {
  }

  /** The three regions of a built object. */
  lemma Regions(dir: seq<Entry>)
    requires Hashed(dir)
    ensures var data := Encode(dir); var r, t := RecordAt(dir, |dir|), TableAt(dir, NBUCKETS);
            && |data| == t + FOOTER_LEN && HEADER_LEN <= r <= t
            && data[0..HEADER_LEN] == Header(dir, NBUCKETS)
            && data[HEADER_LEN..r] == Records(dir, |dir|)
            && data[r..t] == Tables(dir, NBUCKETS)
            && data[..t] == Body(dir)
            && data[t..t + 4] == Le(Adler(Body(dir)), 4)
            && data[|data| - 4..] == MAGIC
  {
    hide Header, Records, Tables, Adler, Le;
  }

  lemma BuiltFrame(dir: seq<Entry>)
    requires Hashed(dir)
    ensures Framed(Encode(dir))
    ensures LoadAt(Encode(dir), TableAt(dir, NBUCKETS)) == Adler(Encode(dir)[..TableAt(dir, NBUCKETS)])
  {
    hide Header, Records, Tables, Adler, Le, FromLe, Encode;
    Regions(dir);
    Le32RoundTrip(Adler(Body(dir)));
  }

  lemma BuiltHeader(dir: seq<Entry>, b: nat)
    requires Hashed(dir) && Fits(dir) && b < NBUCKETS
    ensures LoadAt(Encode(dir), 8 * b) == TableAt(dir, b)
    ensures LoadAt(Encode(dir), 8 * b + 4) == SlotCount(dir, b)
    ensures TableAt(dir, b) + 8 * SlotCount(dir, b) <= TableAt(dir, NBUCKETS)
  {
    hide Header, Records, Tables, Adler, Le, FromLe, Encode, SlotCount;
    var data := Encode(dir);
    Regions(dir);
    HeaderSlice(dir, b, NBUCKETS);
    SubSlice(data, 0, HEADER_LEN, 8 * b, 8 * b + 8);
    SubSlice(data, 8 * b, 8 * b + 8, 0, 4);
    SubSlice(data, 8 * b, 8 * b + 8, 4, 8);
    var x, y := Le(TableAt(dir, b), 4), Le(SlotCount(dir, b), 4);
    assert HeaderEntry(dir, b)[0..4] == x && HeaderEntry(dir, b)[4..8] == y;
    TablesMonotone(dir, b, NBUCKETS);
    Le32RoundTrip(TableAt(dir, b));
    Le32RoundTrip(SlotCount(dir, b));
  }

  lemma BuiltSlot(dir: seq<Entry>, b: nat, j: nat)
    requires Hashed(dir) && Fits(dir) && b < NBUCKETS && j < SlotCount(dir, b)
    ensures var t := Table(dir, b, |dir|); var spos := TableAt(dir, b) + 8 * j;
            && spos + 8 <= TableAt(dir, NBUCKETS)
            && (t[j].hash < U32 ==> LoadAt(Encode(dir), spos) == t[j].hash)
            && LoadAt(Encode(dir), spos + 4) == t[j].off
  {
    hide Header, Records, Tables, Adler, Le, FromLe, Encode, SlotCount, Table, TableBytes, SlotBytes;
    var data, t := Encode(dir), Table(dir, b, |dir|);
    var r, e := RecordAt(dir, |dir|), TableAt(dir, NBUCKETS);
    var x := |Tables(dir, b)|;
    Regions(dir);
    TableSlice(dir, b, NBUCKETS);
    TableBytesAt(t, j);
    SubSlice(data, r, e, x, x + 8 * SlotCount(dir, b));
    SubSlice(data, r + x, r + x + 8 * SlotCount(dir, b), 8 * j, 8 * j + 8);
    var spos := TableAt(dir, b) + 8 * j;
    SubSlice(data, spos, spos + 8, 0, 4);
    SubSlice(data, spos, spos + 8, 4, 8);
    TableOffsets(dir, b, |dir|);
    SlotBytesOffset(t[j]);
  }

  lemma RecordParts(e: Entry)
    requires IsHash(e.hash)
    ensures var r := Record(e); var n := |e.name|;
            r[0..4] == Le(n, 4) && r[4..8] == Le(DATA_LEN, 4) && r[8..8 + n] == e.name && r[8 + n..8 + n + DATA_LEN] == Data(e)
  {
    hide Le, Data;
  }

  lemma DataParts(e: Entry)
    requires IsHash(e.hash)
    ensures var d := Data(e);
            && d[0..4] == Le(e.mode, 4) && d[4..8] == Le(Unsigned32(e.uid), 4) && d[8..12] == Le(Unsigned32(e.gid), 4)
            && d[12..20] == Le(Unsigned64(e.mtimeS), 8) && d[20..24] == Le(Unsigned32(e.mtimeNs), 4)
            && d[24..56] == HexDecode(e.hash)
  {
    hide Le, HexDecode, Unsigned32, Unsigned64;
  }

  lemma SignedOfUnsigned(z: Int32)
    ensures Signed32(Unsigned32(z)) == z
  {
  }

  /** Unpacking a packed entry changes only the case of its hash. */
  lemma UnpackData(e: Entry)
    requires WellFormedEntry(e)
    ensures Unpack(Data(e), e.name) == Normal(e)
  {
    hide Le, FromLe, HexDecode, HexEncode, Unsigned32, Signed32, WellFormed, Lower;
    DataParts(e);
    Le32RoundTrip(e.mode);
    Le32RoundTrip(Unsigned32(e.uid));
    Le32RoundTrip(Unsigned32(e.gid));
    Le32RoundTrip(Unsigned32(e.mtimeNs));
    Le64RoundTrip(Unsigned64(e.mtimeS));
    SignedOfUnsigned(e.uid);
    SignedOfUnsigned(e.gid);
    SignedOfUnsigned(e.mtimeNs);
    HexEncodeOfDecode(e.hash);
    assert CString(e.name) == e.name;
  }

  /** Reading a record where one was written gives its fields. */
  lemma ReadRecord(data: seq<byte>, p: nat, e: Entry)
    requires WellFormedEntry(e) && p + |Record(e)| <= |data|
    requires data[p..p + |Record(e)|] == Record(e)
    ensures var n := |e.name|;
            && LoadAt(data, p) == n && LoadAt(data, p + 4) == DATA_LEN
            && data[p + 8..p + 8 + n] == e.name
            && Unpack(data[p + 8 + n..p + 8 + n + DATA_LEN], e.name) == Normal(e)
  {
    hide Le, FromLe, Record, Data, Unpack, WellFormed, Normal, IsHash;
    var n, q := |e.name|, p + |Record(e)|;
    RecordParts(e);
    SubSlice(data, p, q, 0, 4);
    SubSlice(data, p, q, 4, 8);
    SubSlice(data, p, q, 8, 8 + n);
    SubSlice(data, p, q, 8 + n, 8 + n + DATA_LEN);
    Le32RoundTrip(n);
    Le32RoundTrip(DATA_LEN);
    UnpackData(e);
  }

  lemma RecordBytes(dir: seq<Entry>, i: nat)
    requires Hashed(dir) && i < |dir|
    ensures RecordAt(dir, i) + |Record(dir[i])| == RecordAt(dir, i + 1) <= RecordAt(dir, |dir|) <= |Encode(dir)| - FOOTER_LEN
    ensures Encode(dir)[RecordAt(dir, i)..RecordAt(dir, i) + |Record(dir[i])|] == Record(dir[i])
  {
    hide Header, Records, Tables, Encode, Record, IsHash;
    Regions(dir);
    RecordSlice(dir, i, |dir|);
    RecordsStep(dir, i);
    RecordsMonotone(dir, i + 1, |dir|);
    SubSlice(Encode(dir), HEADER_LEN, RecordAt(dir, |dir|), |Records(dir, i)|, |Records(dir, i)| + |Record(dir[i])|);
  }

  /** Record i of a built object, field by field. */
  lemma BuiltRecord(dir: seq<Entry>, i: nat)
    requires Hashed(dir) && i < |dir| && WellFormedEntry(dir[i])
    ensures var data, p, n := Encode(dir), RecordAt(dir, i), |dir[i].name|;
            && p + 8 + n + DATA_LEN == RecordAt(dir, i + 1) <= RecordAt(dir, |dir|) <= |data| - FOOTER_LEN
            && LoadAt(data, p) == n && LoadAt(data, p + 4) == DATA_LEN
            && data[p + 8..p + 8 + n] == dir[i].name
            && Unpack(data[p + 8 + n..p + 8 + n + DATA_LEN], dir[i].name) == Normal(dir[i])
  {
    hide *;
    RecordBytes(dir, i);
    ReadRecord(Encode(dir), RecordAt(dir, i), dir[i]);
  }

  lemma RecordsStep(dir: seq<Entry>, i: nat)
    requires Hashed(dir) && i < |dir|
    ensures Records(dir, i + 1) == Records(dir, i) + Record(dir[i])
  {
  }

  // ------------------------------------------------------------------
  // Listing a built object
  // ------------------------------------------------------------------

  lemma {:induction false} RecordsEndIsExact(dir: seq<Entry>, n: nat, limit: nat)
    requires Hashed(dir) && Fits(dir) && n <= NBUCKETS && limit == TableAt(dir, NBUCKETS)
    ensures RecordsEnd(Encode(dir), n, limit) == if Tables(dir, n) == [] then limit else RecordAt(dir, |dir|)
  {
    hide Encode, Tables, SlotCount, FromLe, LoadAt, Records;
    if n == 0 {
      NoTables(dir);
    } else {
      RecordsEndIsExact(dir, n - 1, limit);
      BuiltHeader(dir, n - 1);
      TablesStep(dir, n - 1);
      TablesMonotone(dir, n, NBUCKETS);
    }
  }

  /** One iteration of the scan over a record known field by field. */
  lemma ScanStep(data: seq<byte>, pos: nat, end: nat, acc: seq<Entry>, e: Entry, r: Entry)
    requires var n := |e.name|; pos + 8 + n + DATA_LEN <= end <= |data|
    requires LoadAt(data, pos) == |e.name| && LoadAt(data, pos + 4) == DATA_LEN
    requires data[pos + 8..pos + 8 + |e.name|] == e.name
    requires r == Unpack(data[pos + 8 + |e.name|..pos + 8 + |e.name| + DATA_LEN], e.name)
    requires ValidName(e.name) && r.name == e.name
    requires acc != [] ==> Less(acc[|acc| - 1].name, e.name)
    ensures ScanRecords(data, pos, end, acc) == ScanRecords(data, pos + 8 + |e.name| + DATA_LEN, end, acc + [r])
  {
    hide LoadAt, NameCmp, Unpack, WellFormed, Less;
    if acc != [] {
      NameCmpIsLess(acc[|acc| - 1].name, e.name);
    }
  }

  lemma {:induction false} ScanBuilt(dir: seq<Entry>, i: nat)
    requires Canonical(dir) && Hashed(dir) && i <= |dir|
    ensures RecordAt(dir, |dir|) <= |Encode(dir)|
    ensures ScanRecords(Encode(dir), RecordAt(dir, i), RecordAt(dir, |dir|), Normalized(dir)[..i]) == Some(Normalized(dir))
    decreases |dir| - i
  {
    hide *;
    RecordsInside(dir);
    if i == |dir| {
      WholePrefix(dir);
      ScanEnds(Encode(dir), RecordAt(dir, i), Normalized(dir));
    } else {
      NextPrefix(dir, i);
      EntryOf(dir, i);
      BuiltRecord(dir, i);
      ScanStep(Encode(dir), RecordAt(dir, i), RecordAt(dir, |dir|), Normalized(dir)[..i], dir[i], Normal(dir[i]));
      ScanBuilt(dir, i + 1);
    }
  }

  lemma WholePrefix(dir: seq<Entry>)
    ensures Normalized(dir)[..|dir|] == Normalized(dir)
  {
  }

  lemma NextPrefix(dir: seq<Entry>, i: nat)
    requires Canonical(dir) && i < |dir|
    ensures i > 0 ==> Less(Normalized(dir)[..i][i - 1].name, dir[i].name)
    ensures Normalized(dir)[..i] + [Normal(dir[i])] == Normalized(dir)[..i + 1]
    ensures Normal(dir[i]).name == dir[i].name && ValidName(dir[i].name)
  {
    assert WellFormedEntry(dir[i]);
    hide Lower, WellFormed, IsHash;
  }

  lemma ScanEnds(data: seq<byte>, pos: nat, acc: seq<Entry>)
    requires pos <= |data|
    ensures ScanRecords(data, pos, pos, acc) == Some(acc)
  {
  }

  lemma RecordsInside(dir: seq<Entry>)
    requires Hashed(dir)
    ensures RecordAt(dir, |dir|) <= TableAt(dir, NBUCKETS) == |Encode(dir)| - FOOTER_LEN
  {
    hide Header, Records, Tables;
  }

  lemma ValidNameLength(n: seq<byte>)
    requires ValidName(n)
    ensures 0 < |n| <= NAME_MAX && 0 !in n
  {
  }

  /** The listing of a built object is the directory it was built from, with
      hashes spelled in lower case. */
  lemma ParseOfEncode(dir: seq<Entry>)
    requires Canonical(dir) && Hashed(dir) && Fits(dir)
    ensures Parse(Encode(dir)) == Some(Normalized(dir))
  {
    BuiltFrame(dir);
    RecordsInside(dir);
    NoRecords(dir);
    SmallMod(TableAt(dir, NBUCKETS));
    assert Normalized(dir)[..0] == [];
    hide *;
    RecordsEndIsExact(dir, NBUCKETS, TableAt(dir, NBUCKETS));
    ScanBuilt(dir, 0);
    TablesEnd(dir);
    ParseIsScan(Encode(dir), TableAt(dir, NBUCKETS), RecordAt(dir, |dir|));
  }

  lemma ParseIsScan(data: seq<byte>, cdbLen: nat, end: nat)
    requires Framed(data) && cdbLen == |data| - FOOTER_LEN && end <= |data|
    requires LoadAt(data, cdbLen) == Adler(data[..cdbLen]) && cdbLen % U32 == cdbLen
    requires RecordsEnd(data, NBUCKETS, cdbLen) == end
    ensures Parse(data) == ScanRecords(data, HEADER_LEN, end, [])
  {
    hide Framed, LoadAt, Adler, RecordsEnd, ScanRecords;
  }

  lemma TablesEnd(dir: seq<Entry>)
    requires Hashed(dir)
    ensures Tables(dir, NBUCKETS) == [] ==> TableAt(dir, NBUCKETS) == RecordAt(dir, |dir|)
  {
    hide Tables, Records;
  }

  lemma NoRecords(dir: seq<Entry>)
    requires Hashed(dir)
    ensures Records(dir, 0) == [] && RecordAt(dir, 0) == HEADER_LEN
  {
  }

  // ------------------------------------------------------------------
  // Probing a built object
  // ------------------------------------------------------------------

  predicate Addressable(dir: seq<Entry>)
    requires Hashed(dir)
  {
    forall i :: 0 <= i < |dir| ==> RecordAt(dir, i) < U32
  }

  lemma FitsIsAddressable(dir: seq<Entry>)
    requires Hashed(dir) && Fits(dir)
    ensures Addressable(dir)
  {
    forall i | 0 <= i < |dir|
      ensures RecordAt(dir, i) < U32
    {
      RecordBytes(dir, i);
    }
  }

  /** s sits some steps after its home with every slot in between in use. */
  ghost predicate Placed(t: seq<Slot>, s: Slot)
    requires |t| > 0
  {
    exists k :: PlacedAt(t, s, k)
  }

  predicate PlacedAt(t: seq<Slot>, s: Slot, k: nat)
    requires |t| > 0
  {
    && k < |t|
    && t[Step(Home(s.hash, |t|), k, |t|)] == s
    && forall i :: 0 <= i < k ==> t[Step(Home(s.hash, |t|), i, |t|)].off != 0
  }

  /** An insertion places its slot and displaces none. */
  lemma InsertPlaces(t: seq<Slot>, s: Slot, old_: Slot)
    requires |t| > 0 && FreeAhead(t, Home(s.hash, |t|), 0) && s.off != 0
    ensures Placed(Insert(t, s), s)
    ensures Placed(t, old_) && old_.off != 0 ==> Placed(Insert(t, s), old_)
  {
    hide Home;
    var home := Home(s.hash, |t|);
    var m := Distance(t, home, 0);
    var r := Insert(t, s);
    forall i | 0 <= i < m
      ensures r[Step(home, i, |t|)].off != 0
    {
      assert t[Step(home, i, |t|)].off != 0;
    }
    assert PlacedAt(r, s, m);
    if Placed(t, old_) && old_.off != 0 {
      var k :| PlacedAt(t, old_, k);
      assert PlacedAt(r, old_, k);
    }
  }

  lemma {:induction false} EveryEntryIsPlaced(dir: seq<Entry>, b: nat, n: nat, i: nat)
    requires Hashed(dir) && Addressable(dir) && i < n <= |dir| && Bucket(dir[i]) == b
    ensures SlotCount(dir, b) > 0 && Placed(Table(dir, b, n), SlotFor(dir, i))
    decreases n
  {
    hide Bucket, Insert, Placed, FreeAhead, Home, Used, Djb, Records;
    TableHasRoom(dir, b, i);
    assert RecordAt(dir, i) < U32 && RecordAt(dir, n - 1) < U32;
    if Bucket(dir[n - 1]) == b {
      TableStep(dir, b, n - 1);
      if i < n - 1 {
        EveryEntryIsPlaced(dir, b, n - 1, i);
      }
      InsertPlaces(Table(dir, b, n - 1), SlotFor(dir, n - 1), SlotFor(dir, i));
    } else {
      EveryEntryIsPlaced(dir, b, n - 1, i);
    }
  }

  lemma {:induction false} UsedSlotsHoldEntries(dir: seq<Entry>, b: nat, n: nat, j: nat) returns (i: nat)
    requires Hashed(dir) && n <= |dir| && j < SlotCount(dir, b) && Table(dir, b, n)[j].off != 0
    ensures i < n && Bucket(dir[i]) == b && Table(dir, b, n)[j] == SlotFor(dir, i)
    decreases n
  {
    hide Bucket, FreeAhead, Home, Used, Djb, Records, Distance, SlotFor;
    var t := Table(dir, b, n - 1);
    if Bucket(dir[n - 1]) == b {
      TableStep(dir, b, n - 1);
      if Table(dir, b, n)[j] == SlotFor(dir, n - 1) {
        return n - 1;
      }
    }
    i := UsedSlotsHoldEntries(dir, b, n - 1, j);
  }

  /** Probe k once the slot it reads and the record that slot names are known. */
  lemma ProbeReads(data: seq<byte>, cdbLen: nat, tpos: nat, ns: nat, h: nat, home: nat, name: seq<byte>, k: nat,
                   slot: Slot, e: Entry, r: Entry)
    requires cdbLen <= |data| && home < ns && k < ns && 2 * ns < U32 && |name| <= NAME_MAX
    requires var spos := tpos + 8 * Step(home, k, ns);
             spos + 8 <= cdbLen && LoadAt(data, spos) == slot.hash && LoadAt(data, spos + 4) == slot.off
    requires slot.off != 0 ==>
               && slot.hash == Djb(e.name) && slot.off + 8 + |e.name| + DATA_LEN <= cdbLen
               && LoadAt(data, slot.off) == |e.name| && LoadAt(data, slot.off + 4) == DATA_LEN
               && data[slot.off + 8..slot.off + 8 + |e.name|] == e.name
               && Unpack(data[slot.off + 8 + |e.name|..slot.off + 8 + |e.name| + DATA_LEN], e.name) == r
    requires h == Djb(name)
    ensures Probe(data, cdbLen, tpos, ns, h, home, name, k)
            == if slot.off == 0 then Absent
               else if e.name == name then Found(r)
               else Probe(data, cdbLen, tpos, ns, h, home, name, k + 1)
  {
    hide LoadAt, Unpack, Djb;
    ModIsStep(home, k, ns);
    SmallMod(home + k);
  }

  lemma {:induction false} SlotHashes(dir: seq<Entry>, b: nat, n: nat, j: nat)
    requires Hashed(dir) && n <= |dir| && j < SlotCount(dir, b)
    ensures Table(dir, b, n)[j].hash < U32
    decreases n
  {
    hide Bucket, Distance, FreeAhead, Home, Djb, Records, Used;
    if n > 0 {
      SlotHashes(dir, b, n - 1, j);
    }
  }

  /** One probe of a built table: an empty slot ends the search, the slot of the
      entry sought ends it with that entry, any other slot is passed over. */
  lemma ProbeStep(dir: seq<Entry>, name: seq<byte>, k: nat) returns (i: nat)
    requires Canonical(dir) && Hashed(dir) && Fits(dir) && |name| <= NAME_MAX
    requires k < SlotCount(dir, Djb(name) % NBUCKETS)
    ensures var b := Djb(name) % NBUCKETS; var ns := SlotCount(dir, b); var home := Home(Djb(name), ns);
            var slot := Table(dir, b, |dir|)[Step(home, k, ns)];
            var here := Probe(Encode(dir), TableAt(dir, NBUCKETS), TableAt(dir, b), ns, Djb(name), home, name, k);
            var next := Probe(Encode(dir), TableAt(dir, NBUCKETS), TableAt(dir, b), ns, Djb(name), home, name, k + 1);
            if slot.off == 0 then here == Absent
            else i < |dir| && slot == SlotFor(dir, i) && here == if dir[i].name == name then Found(Normal(dir[i])) else next
  {
    hide Encode, LoadAt, Unpack, Records, Tables, Table, Canonical, Djb, Home, SlotCount, Normal, Probe, RecordAt, TableAt;
    var b := Djb(name) % NBUCKETS;
    var ns := SlotCount(dir, b);
    var home := Home(Djb(name), ns);
    var j := Step(home, k, ns);
    var slot := Table(dir, b, |dir|)[j];
    BuiltHeader(dir, b);
    BuiltSlot(dir, b, j);
    SlotHashes(dir, b, |dir|, j);
    RecordsInside(dir);
    i := 0;
    if slot.off == 0 {
      var e := Entry([], 0, 0, 0, 0, 0, []);
      ProbeReads(Encode(dir), TableAt(dir, NBUCKETS), TableAt(dir, b), ns, Djb(name), home, name, k, slot, e, e);
    } else {
      i := UsedSlotsHoldEntries(dir, b, |dir|, j);
      EntryOf(dir, i);
      BuiltRecord(dir, i);
      FitsIsAddressable(dir);
      assert RecordAt(dir, i) < U32;
      SmallMod(RecordAt(dir, i));
      ProbeReads(Encode(dir), TableAt(dir, NBUCKETS), TableAt(dir, b), ns, Djb(name), home, name, k, slot, dir[i], Normal(dir[i]));
    }
  }

  lemma SmallMod(v: nat)
    ensures v < U32 ==> v % U32 == v
  {
  }

  lemma EntryOf(dir: seq<Entry>, i: nat)
    requires Canonical(dir) && i < |dir|
    ensures WellFormedEntry(dir[i])
  {
  }

  lemma {:induction false} ProbeFinds(dir: seq<Entry>, name: seq<byte>, i: nat, m: nat, k: nat)
    requires Canonical(dir) && Hashed(dir) && Fits(dir) && |name| <= NAME_MAX
    requires i < |dir| && dir[i].name == name && SlotCount(dir, Djb(name) % NBUCKETS) > 0
    requires PlacedAt(Table(dir, Djb(name) % NBUCKETS, |dir|), SlotFor(dir, i), m) && k <= m
    requires SlotFor(dir, i).off != 0
    ensures var b := Djb(name) % NBUCKETS; var ns := SlotCount(dir, b); var home := Home(Djb(name), ns);
            Probe(Encode(dir), TableAt(dir, NBUCKETS), TableAt(dir, b), ns, Djb(name), home, name, k) == Found(Normal(dir[i]))
    decreases m - k
  {
    hide Encode, Probe, Table, Djb, Home, SlotCount, Normal, RecordAt, Fits, TableAt, WellFormedEntry;
    var j := ProbeStep(dir, name, k);
    var b := Djb(name) % NBUCKETS;
    var slot := Table(dir, b, |dir|)[Step(Home(Djb(name), SlotCount(dir, b)), k, SlotCount(dir, b))];
    assert slot.off != 0;
    if dir[j].name == name {
      OneEntryPerName(dir, i, j);
    } else if k == m {
      FitsIsAddressable(dir);
      SameSlotSameEntry(dir, i, j);
    } else {
      ProbeFinds(dir, name, i, m, k + 1);
    }
  }

  lemma OneEntryPerName(dir: seq<Entry>, i: nat, j: nat)
    requires Ascending(dir) && i < |dir| && j < |dir| && dir[i].name == dir[j].name
    ensures i == j
  {
    LessIrreflexive(dir[i].name);
  }

  /** Records lie at distinct offsets. */
  lemma SameSlotSameEntry(dir: seq<Entry>, i: nat, j: nat)
    requires Hashed(dir) && Addressable(dir) && i < |dir| && j < |dir|
    requires SlotFor(dir, i) == SlotFor(dir, j)
    ensures i == j
  {
    hide Records, Record, Djb;
    assert RecordAt(dir, i) < U32 && RecordAt(dir, j) < U32;
    SmallMod(RecordAt(dir, i));
    SmallMod(RecordAt(dir, j));
    if i < j {
      RecordsStep(dir, i);
      RecordsMonotone(dir, i + 1, j);
    } else if j < i {
      RecordsStep(dir, j);
      RecordsMonotone(dir, j + 1, i);
    }
  }

  lemma {:induction false} ProbeMisses(dir: seq<Entry>, name: seq<byte>, k: nat)
    requires Canonical(dir) && Hashed(dir) && Fits(dir) && |name| <= NAME_MAX
    requires forall i :: 0 <= i < |dir| ==> dir[i].name != name
    requires SlotCount(dir, Djb(name) % NBUCKETS) > 0
    ensures var b := Djb(name) % NBUCKETS; var ns := SlotCount(dir, b); var home := Home(Djb(name), ns);
            Probe(Encode(dir), TableAt(dir, NBUCKETS), TableAt(dir, b), ns, Djb(name), home, name, k) == Absent
    decreases SlotCount(dir, Djb(name) % NBUCKETS) - k
  {
    hide Encode, Djb, Home, SlotCount, Fits, Table, TableAt, Normal, Unpack, LoadAt;
    if k < SlotCount(dir, Djb(name) % NBUCKETS) {
      var i := ProbeStep(dir, name, k);
      ProbeMisses(dir, name, k + 1);
    }
  }

  /** On a built object the probe returns, for every name, exactly the entry
      the listing has under it, and stops at absence exactly when it has none. */
  lemma ProbeOfEncode(dir: seq<Entry>, name: seq<byte>)
    requires Canonical(dir) && Hashed(dir) && Fits(dir) && 0 !in name
    ensures ProbeFor(Encode(dir), name) == match Find(dir, name)
                                           case Some(e) => Found(Normal(e))
                                           case None => Absent
  {
    hide Encode, FromLe, LoadAt, Records, Tables, Table, Djb, Normal, Canonical, Fits, SlotCount, Probe, Find;
    BuiltFrame(dir);
    Regions(dir);
    var b := Djb(name) % NBUCKETS;
    BuiltHeader(dir, b);
    var r := Find(dir, name);
    if r.Some? {
      var i :| 0 <= i < |dir| && dir[i] == r.value;
      EntryOf(dir, i);
      ValidNameLength(name);
      FitsIsAddressable(dir);
      assert RecordAt(dir, i) < U32;
      SmallMod(RecordAt(dir, i));
      EveryEntryIsPlaced(dir, b, |dir|, i);
      var m :| PlacedAt(Table(dir, b, |dir|), SlotFor(dir, i), m);
      ProbeFinds(dir, name, i, m, 0);
    } else if |name| <= NAME_MAX && SlotCount(dir, b) > 0 {
      ProbeMisses(dir, name, 0);
    }
  }
}
