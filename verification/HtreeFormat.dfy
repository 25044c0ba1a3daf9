/** Where every part of a hash-table directory lies, as another reader of the
    format needs it: the numbers of the layout, least significant byte first
    (cas-tree.c: htree_build). */
module HtreeFormat {
  import opened Bytes
  import opened Entries
  import opened Htree
  import opened HtreeRead
  import opened TreeText

  /** Offset of the record of entry i: 64 bytes and its name for each before it. */
  function RecordStart(dir: seq<Entry>, i: nat): nat
    requires i <= |dir|
  {
    2048 + 64 * i + NameBytes(dir, i)
  }

  /** The entries whose name hashes into bucket b. */
  ghost function InBucket(dir: seq<Entry>, b: nat, n: nat): set<nat>
    requires n <= |dir|
  {
    set i: nat | i < n && Djb(dir[i].name) % 256 == b
  }

  lemma {:induction false} CountIsSize(dir: seq<Entry>, b: nat, n: nat)
    requires n <= |dir|
    ensures CountIn(dir, b, n) == |InBucket(dir, b, n)|
  {
    hide Djb;
    if n > 0 {
      CountIsSize(dir, b, n - 1);
      InBucketNext(dir, b, n);
      hide InBucket;
    } else {
      assert InBucket(dir, b, 0) == {};
    }
  }

  lemma InBucketNext(dir: seq<Entry>, b: nat, n: nat)
    requires 0 < n <= |dir|
    ensures InBucket(dir, b, n) == InBucket(dir, b, n - 1) + if Djb(dir[n - 1].name) % 256 == b then {n - 1} else {}
    ensures n - 1 !in InBucket(dir, b, n - 1)
  {
    hide Djb;
  }

  /** Offset of the table of bucket b: after the records, two 8-byte slots for
      each entry of the buckets before it. */
  ghost function TableStart(dir: seq<Entry>, b: nat): nat
  {
    if b == 0 then RecordStart(dir, |dir|) else TableStart(dir, b - 1) + 16 * |InBucket(dir, b - 1, |dir|)|
  }

  lemma RecordStarts(dir: seq<Entry>, i: nat)
    requires Hashed(dir) && i <= |dir|
    ensures RecordAt(dir, i) == RecordStart(dir, i)
  {
    RecordsLength(dir, i);
    hide Records, NameBytes;
  }

  lemma {:induction false} TableStarts(dir: seq<Entry>, b: nat)
    requires Hashed(dir)
    ensures TableAt(dir, b) == TableStart(dir, b)
  {
    hide *;
    StartUnfolds(dir, b);
    if b == 0 {
      FirstTable(dir);
    } else {
      TableStarts(dir, b - 1);
      NextTable(dir, b);
      CountIsSize(dir, b - 1, |dir|);
    }
  }

  lemma {:induction false} StartUnfolds(dir: seq<Entry>, b: nat)
    ensures b == 0 ==> TableStart(dir, b) == RecordStart(dir, |dir|)
    ensures b > 0 ==> TableStart(dir, b) == TableStart(dir, b - 1) + 16 * |InBucket(dir, b - 1, |dir|)|
  {
    hide InBucket, RecordStart;
  }

  lemma FirstTable(dir: seq<Entry>)
    requires Hashed(dir)
    ensures TableAt(dir, 0) == RecordStart(dir, |dir|)
  {
    hide RecordAt, RecordStart;
    RecordStarts(dir, |dir|);
    NoTables(dir);
  }

  lemma NextTable(dir: seq<Entry>, b: nat)
    requires Hashed(dir) && b > 0
    ensures TableAt(dir, b) == TableAt(dir, b - 1) + 16 * CountIn(dir, b - 1, |dir|)
  {
    hide Table, CountIn, RecordAt;
    TablesStep(dir, b - 1);
  }

  /** The object ends in the checksum of all before it and the letters "HTv1". */
  lemma FooterFormat(dir: seq<Entry>)
    requires Hashed(dir)
    ensures var d := Encode(dir); var n := |d|;
            && n == TableStart(dir, 256) + 8
            && d[n - 4..] == [0x48, 0x54, 0x76, 0x31]
            && FromLe(d[n - 8..n - 4]) == Adler(d[..n - 8])
  {
    TableStarts(dir, 256);
    Checksummed(dir);
    hide *;
  }

  lemma Checksummed(dir: seq<Entry>)
    requires Hashed(dir)
    ensures var d := Encode(dir); var n := |d|;
            && n == TableAt(dir, 256) + 8
            && d[n - 4..] == [0x48, 0x54, 0x76, 0x31]
            && FromLe(d[n - 8..n - 4]) == Adler(d[..n - 8])
  {
    hide Header, Records, Tables, Adler, Le, FromLe, Encode, TableAt, RecordAt, Body;
    Regions(dir);
    Le32RoundTrip(Adler(Body(dir)));
  }

  /** Nothing is listed from, or found in, bytes without that ending; a listing
      also needs the checksum to be right. */
  lemma ReadsOnlyFramed(d: seq<byte>, name: seq<byte>)
    ensures Parse(d).Some? ==>
              var n := |d|;
              && n >= 2056 && d[n - 4..] == [0x48, 0x54, 0x76, 0x31]
              && FromLe(d[n - 8..n - 4]) == Adler(d[..n - 8])
    ensures !(|d| >= 2056 && d[|d| - 4..] == [0x48, 0x54, 0x76, 0x31]) ==> ProbeFor(d, name) == Malformed
  {
    hide FromLe, Adler, ScanRecords, RecordsEnd, Djb, Probe;
  }

  /** Header entry b: where the table of bucket b starts and how many slots it
      has, twice as many as entries. */
  lemma HeaderFormat(dir: seq<Entry>, b: nat)
    requires Hashed(dir) && |Encode(dir)| < U32 && b < 256
    ensures |Encode(dir)| >= 2056
    ensures var d := Encode(dir);
            && FromLe(d[8 * b..8 * b + 4]) == TableStart(dir, b)
            && FromLe(d[8 * b + 4..8 * b + 8]) == 2 * |InBucket(dir, b, |dir|)|
  {
    hide *;
    LongEnough(dir);
    BuiltAt(dir, b);
    TableStarts(dir, b);
    CountIsSize(dir, b, |dir|);
  }

  lemma LongEnough(dir: seq<Entry>)
    requires Hashed(dir)
    ensures |Encode(dir)| >= 2056 && (|Encode(dir)| < U32 ==> Fits(dir))
  {
    hide Header, Records, Tables, Encode;
  }

  lemma BuiltAt(dir: seq<Entry>, b: nat)
    requires Hashed(dir) && Fits(dir) && b < 256 && |Encode(dir)| >= 2056
    ensures FromLe(Encode(dir)[8 * b..8 * b + 4]) == TableAt(dir, b)
    ensures FromLe(Encode(dir)[8 * b + 4..8 * b + 8]) == 2 * CountIn(dir, b, |dir|)
  {
    BuiltHeader(dir, b);
    hide Encode, FromLe, TableAt, CountIn;
  }

  lemma RecordLies(dir: seq<Entry>, i: nat)
    requires Hashed(dir) && i < |dir|
    ensures var e := dir[i]; var p := RecordStart(dir, i); var z := p + 64 + |e.name|;
            IsHash(e.hash) && z <= |Encode(dir)| && Encode(dir)[p..z] == Record(e) && |Record(e)| == 64 + |e.name|
  {
    RecordBytes(dir, i);
    RecordStarts(dir, i);
    hide Encode, Record, RecordStart, RecordAt, IsHash;
  }

  /** The record of entry i: the lengths of its key and of its data, the key, and
      the data. */
  lemma RecordFormat(dir: seq<Entry>, i: nat)
    requires Hashed(dir) && i < |dir| && |dir[i].name| < U32
    ensures var d := Encode(dir); var e := dir[i]; var p := RecordStart(dir, i);
            && p + 64 + |e.name| <= |d|
            && FromLe(d[p..p + 4]) == |e.name| && FromLe(d[p + 4..p + 8]) == 56
            && d[p + 8..p + 8 + |e.name|] == e.name
  {
    hide *;
    RecordLies(dir, i);
    KeyFormat(Encode(dir), RecordStart(dir, i), dir[i]);
  }

  /** The data of entry i, field by field, signed fields in two's complement. */
  lemma FieldsFormat(dir: seq<Entry>, i: nat, q: nat)
    requires Hashed(dir) && i < |dir| && dir[i].mode < U32 && |dir[i].name| < U32
    requires q == RecordStart(dir, i) + 8 + |dir[i].name|
    ensures q + 56 <= |Encode(dir)|
    ensures var d := Encode(dir)[q..q + 56]; var e := dir[i];
            && FromLe(d[0..4]) == e.mode
            && FromLe(d[4..8]) == (if e.uid >= 0 then e.uid else e.uid + 0x1_0000_0000)
            && FromLe(d[8..12]) == (if e.gid >= 0 then e.gid else e.gid + 0x1_0000_0000)
            && FromLe(d[12..20]) == (if e.mtimeS >= 0 then e.mtimeS else e.mtimeS + 0x1_0000_0000_0000_0000)
            && FromLe(d[20..24]) == (if e.mtimeNs >= 0 then e.mtimeNs else e.mtimeNs + 0x1_0000_0000)
            && d[24..56] == HexDecode(e.hash)
  {
    var d, p, e := Encode(dir), RecordStart(dir, i), dir[i];
    RecordLies(dir, i);
    hide *;
    assert d[q..q + 56] == Data(e) by {
      KeyFormat(d, p, e);
    }
    DataFormat(e);
  }

  lemma KeyFormat(d: seq<byte>, p: nat, e: Entry)
    requires IsHash(e.hash) && |e.name| < U32 && p + |Record(e)| <= |d| && d[p..p + |Record(e)|] == Record(e)
    ensures |Record(e)| == 64 + |e.name|
    ensures FromLe(d[p..p + 4]) == |e.name| && FromLe(d[p + 4..p + 8]) == 56
    ensures d[p + 8..p + 8 + |e.name|] == e.name && d[p + 8 + |e.name|..p + 64 + |e.name|] == Data(e)
  {
    hide Data, Le, FromLe, IsHash, Record;
    RecordParts(e);
    var n, z := |e.name|, p + |Record(e)|;
    SubSlice(d, p, z, 0, 4);
    SubSlice(d, p, z, 4, 8);
    SubSlice(d, p, z, 8, 8 + n);
    SubSlice(d, p, z, 8 + n, 64 + n);
    Le32RoundTrip(n);
    Le32RoundTrip(DATA_LEN);
  }

  lemma DataFormat(e: Entry)
    requires IsHash(e.hash) && e.mode < U32
    ensures var d := Data(e);
            && FromLe(d[0..4]) == e.mode
            && FromLe(d[4..8]) == (if e.uid >= 0 then e.uid else e.uid + 0x1_0000_0000)
            && FromLe(d[8..12]) == (if e.gid >= 0 then e.gid else e.gid + 0x1_0000_0000)
            && FromLe(d[12..20]) == (if e.mtimeS >= 0 then e.mtimeS else e.mtimeS + 0x1_0000_0000_0000_0000)
            && FromLe(d[20..24]) == (if e.mtimeNs >= 0 then e.mtimeNs else e.mtimeNs + 0x1_0000_0000)
            && d[24..56] == HexDecode(e.hash)
  {
    hide Data, Le, FromLe, HexDecode;
    DataParts(e);
    Le32RoundTrip(e.mode);
    Le32RoundTrip(Unsigned32(e.uid));
    Le32RoundTrip(Unsigned32(e.gid));
    Le64RoundTrip(Unsigned64(e.mtimeS));
    Le32RoundTrip(Unsigned32(e.mtimeNs));
    UnsignedAre(e);
    hide Unsigned32, Unsigned64, IsHash;
  }

  lemma UnsignedAre(e: Entry)
    ensures Unsigned32(e.uid) == if e.uid >= 0 then e.uid else e.uid + 0x1_0000_0000
    ensures Unsigned32(e.gid) == if e.gid >= 0 then e.gid else e.gid + 0x1_0000_0000
    ensures Unsigned32(e.mtimeNs) == if e.mtimeNs >= 0 then e.mtimeNs else e.mtimeNs + 0x1_0000_0000
    ensures Unsigned64(e.mtimeS) == if e.mtimeS >= 0 then e.mtimeS else e.mtimeS + 0x1_0000_0000_0000_0000
  {
  }

  /** The slot that a reader looking for hash h meets at step k, of n. */
  function Meets(h: nat, k: nat, n: nat): (j: nat)
    requires n > 0
    ensures j < n
  {
    (h / 256 + k) % n
  }

  /** The hash and the record offset in the slot met there, in a table at start. */
  function SlotMet(d: seq<byte>, start: nat, n: nat, h: nat, k: nat): (nat, nat)
    requires n > 0 && start + 8 * n <= |d|
  {
    var p := start + 8 * Meets(h, k, n);
    (FromLe(d[p..p + 4]), FromLe(d[p + 4..p + 8]))
  }

  /** Such a reader comes to the slot with this record after k slots in use. */
  ghost predicate FoundAfter(d: seq<byte>, start: nat, n: nat, h: nat, record: nat, k: nat)
    requires n > 0
  {
    && k < n && start + 8 * n <= |d|
    && (forall j: nat :: j < k ==> SlotMet(d, start, n, h, j).1 != 0)
    && SlotMet(d, start, n, h, k) == (h, record)
  }

  lemma MeetsIsStep(h: nat, k: nat, n: nat)
    requires k < n
    ensures Meets(h, k, n) == Step(Home(h, n), k, n)
  {
    ModIsStep(Home(h, n), k, n);
    ModPlus(h / 256, k, n);
  }

  lemma InItsBucket(dir: seq<Entry>, i: nat)
    requires i < |dir|
    ensures Bucket(dir[i]) == Djb(dir[i].name) % 256 < 256
    ensures SlotCount(dir, Bucket(dir[i])) == 2 * |InBucket(dir, Bucket(dir[i]), |dir|)| > 0
  {
    var b := Djb(dir[i].name) % 256;
    CountIsSize(dir, b, |dir|);
    hide Djb;
    assert i in InBucket(dir, b, |dir|);
    hide CountIn, InBucket;
  }

  /** A slot of a built object is where its table and its place in it say. */
  lemma SlotLies(dir: seq<Entry>, b: nat, h: nat, k: nat)
    requires Hashed(dir) && Fits(dir) && b < 256 && k < SlotCount(dir, b)
    ensures TableAt(dir, b) + 8 * SlotCount(dir, b) <= |Encode(dir)|
    ensures var n := SlotCount(dir, b); var s := Table(dir, b, |dir|)[Step(Home(h, n), k, n)];
            && SlotMet(Encode(dir), TableAt(dir, b), n, h, k).1 == s.off
            && (s.hash < U32 ==> SlotMet(Encode(dir), TableAt(dir, b), n, h, k).0 == s.hash)
  {
    var n := SlotCount(dir, b);
    var j := Step(Home(h, n), k, n);
    RoomForTables(dir, b);
    hide *;
    MeetsIsStep(h, k, n);
    OffsetLies(dir, b, j);
    HashLies(dir, b, j);
    SlotReads(Encode(dir), TableAt(dir, b), n, h, k, j);
  }

  lemma OffsetLies(dir: seq<Entry>, b: nat, j: nat)
    requires Hashed(dir) && Fits(dir) && b < NBUCKETS && j < SlotCount(dir, b)
    ensures TableAt(dir, b) + 8 * j + 8 <= |Encode(dir)|
    ensures LoadAt(Encode(dir), TableAt(dir, b) + 8 * j + 4) == Table(dir, b, |dir|)[j].off
  {
    RecordsInside(dir);
    hide *;
    BuiltSlot(dir, b, j);
  }

  lemma HashLies(dir: seq<Entry>, b: nat, j: nat)
    requires Hashed(dir) && Fits(dir) && b < NBUCKETS && j < SlotCount(dir, b)
    ensures TableAt(dir, b) + 8 * j + 8 <= |Encode(dir)|
    ensures Table(dir, b, |dir|)[j].hash < U32 ==>
              LoadAt(Encode(dir), TableAt(dir, b) + 8 * j) == Table(dir, b, |dir|)[j].hash
  {
    RecordsInside(dir);
    hide *;
    BuiltSlot(dir, b, j);
  }

  lemma RoomForTables(dir: seq<Entry>, b: nat)
    requires Hashed(dir) && Fits(dir) && b < 256
    ensures TableAt(dir, b) + 8 * SlotCount(dir, b) <= |Encode(dir)| && NBUCKETS == 256
  {
    BuiltHeader(dir, b);
    RecordsInside(dir);
    hide Encode, TableAt, SlotCount, Fits, RecordAt;
  }

  lemma SlotReads(d: seq<byte>, start: nat, n: nat, h: nat, k: nat, j: nat)
    requires n > 0 && start + 8 * n <= |d| && j == Meets(h, k, n)
    ensures SlotMet(d, start, n, h, k) == (LoadAt(d, start + 8 * j), LoadAt(d, start + 8 * j + 4))
  {
    hide FromLe, Meets;
  }

  /** A reader that starts at slot hash / 256 of the table of bucket hash % 256
      and goes on while the slots are in use comes to the slot of the entry. */
  lemma EntryIsFound(dir: seq<Entry>, i: nat) returns (k: nat)
    requires Hashed(dir) && Fits(dir) && i < |dir|
    ensures var h := Djb(dir[i].name); var n := 2 * |InBucket(dir, h % 256, |dir|)|;
            n > 0 && FoundAfter(Encode(dir), TableStart(dir, h % 256), n, h, RecordStart(dir, i), k)
  {
    var h, b := Djb(dir[i].name), Bucket(dir[i]);
    InItsBucket(dir, i);
    FitsIsAddressable(dir);
    EveryEntryIsPlaced(dir, b, |dir|, i);
    SlotOf(dir, i);
    hide *;
    k := Place(Table(dir, b, |dir|), SlotFor(dir, i));
    FoundThere(dir, b, h, RecordStart(dir, i), k);
  }

  lemma SlotOf(dir: seq<Entry>, i: nat)
    requires Hashed(dir) && Addressable(dir) && i < |dir|
    ensures SlotFor(dir, i) == Slot(Djb(dir[i].name), RecordStart(dir, i)) && SlotFor(dir, i).hash < U32
  {
    RecordStarts(dir, i);
    hide RecordStart, Djb;
    assert RecordAt(dir, i) < U32;
    hide RecordAt;
  }

  lemma Place(t: seq<Slot>, s: Slot) returns (k: nat)
    requires |t| > 0 && Placed(t, s)
    ensures PlacedAt(t, s, k)
  {
    k :| PlacedAt(t, s, k);
  }

  lemma FoundThere(dir: seq<Entry>, b: nat, h: nat, record: nat, k: nat)
    requires Hashed(dir) && Fits(dir) && b < 256 && h < U32 && SlotCount(dir, b) > 0
    requires PlacedAt(Table(dir, b, |dir|), Slot(h, record), k)
    ensures FoundAfter(Encode(dir), TableStart(dir, b), SlotCount(dir, b), h, record, k)
  {
    var d, start, n := Encode(dir), TableStart(dir, b), SlotCount(dir, b);
    hide Encode, Table, TableStart, SlotCount, Fits, Step, Home, SlotMet;
    TableStarts(dir, b);
    SlotLies(dir, b, h, k);
    forall j: nat | j < k
      ensures SlotMet(d, start, n, h, j).1 != 0
    {
      SlotLies(dir, b, h, j);
    }
  }
}
