/** What an object map means: pages, the directory over them, the map from ids to
    digests they denote, and the snapshot bytes (cas-omap.c). */
module OmapSpec {
  import opened Bytes
  import opened Objects

  const PAGE_SLOTS: nat := 256
  const PAGE_SIZE: nat := 8192
  const PAGE_LIMIT: nat := 0x100_0000_0000_0000     // page numbers of 64-bit ids
  const ROOT_MAGIC: seq<byte> := [0x4F, 0x4D, 0x76, 0x31]
  const ROOT_HEADER: nat := 8
  const ROOT_ENTRY: nat := 48

  function ZeroDigest(): (d: Digest)
    ensures forall i :: 0 <= i < 32 ==> d[i] == 0
  {
    seq(32, _ => 0)
  }

  const ZERO: Digest := ZeroDigest()

  const OPAGE := "opage"
  const OMAP := "omap"

  type Map = map<nat, Digest>

  /** struct omap_page */
  datatype Page = Page(slots: seq<Digest>, pop: nat, dirty: bool)

  /** struct omap_dir_entry; the cached page is owned by its entry. */
  datatype DirEntry = DirEntry(pageNum: nat, pageHash: Digest, pop: nat, cached: Option<Page>)

  // ------------------------------------------------------------------
  // Page objects
  // ------------------------------------------------------------------

  function Flat(slots: seq<Digest>): (r: seq<byte>)
    ensures |r| == 32 * |slots|
  {
    if slots == [] then [] else Flat(slots[..|slots| - 1]) + slots[|slots| - 1]
  }

  function Unflat(data: seq<byte>): (r: seq<Digest>)
    ensures |r| == |data| / 32
  {
    seq(|data| / 32, i requires 0 <= i < |data| / 32 => data[32 * i..32 * i + 32])
  }

  lemma {:induction false} FlatAt(slots: seq<Digest>, i: nat)
    requires i < |slots|
    ensures Flat(slots)[32 * i..32 * i + 32] == slots[i]
  {
    var n := |slots| - 1;
    if i < n {
      FlatAt(slots[..n], i);
      assert Flat(slots)[32 * i..32 * i + 32] == Flat(slots[..n])[32 * i..32 * i + 32];
    }
  }

  lemma UnflatOfFlat(slots: seq<Digest>)
    ensures Unflat(Flat(slots)) == slots
  {
    hide Flat;
    forall i | 0 <= i < |slots|
      ensures Unflat(Flat(slots))[i] == slots[i]
    {
      FlatAt(slots, i);
    }
  }

  function PageObject(slots: seq<Digest>): Object { Object(OPAGE, Flat(slots)) }

  /** The page stored under an address, if there is one. */
  function PageOf(objects: map<Digest, Object>, addr: Digest): (r: Option<seq<Digest>>)
    ensures r.Some? ==> |r.value| == PAGE_SLOTS
  {
    if addr in objects && objects[addr].kind == OPAGE && |objects[addr].data| == PAGE_SIZE
    then Some(Unflat(objects[addr].data))
    else None
  }

  // ------------------------------------------------------------------
  // The map denoted
  // ------------------------------------------------------------------

  /** Number of non-empty slots among the first n. */
  function Population(slots: seq<Digest>, n: nat): (c: nat)
    requires n <= |slots|
    ensures c <= n
  {
    if n == 0 then 0 else Population(slots, n - 1) + (if slots[n - 1] != ZERO then 1 else 0)
  }

  function SlotMap(slots: seq<Digest>, base: nat, n: nat): (m: Map)
    requires n <= |slots|
  {
    if n == 0 then map[]
    else if slots[n - 1] == ZERO then SlotMap(slots, base, n - 1)
    else SlotMap(slots, base, n - 1)[base + n - 1 := slots[n - 1]]
  }

  lemma {:induction false} SlotMapIs(slots: seq<Digest>, base: nat, n: nat, id: nat)
    requires n <= |slots|
    ensures id in SlotMap(slots, base, n) <==> base <= id < base + n && slots[id - base] != ZERO
    ensures id in SlotMap(slots, base, n) ==> SlotMap(slots, base, n)[id] == slots[id - base]
  {
    hide ZeroDigest;
    if n > 0 {
      SlotMapIs(slots, base, n - 1, id);
    }
  }

  lemma {:induction false} SlotMapSize(slots: seq<Digest>, base: nat, n: nat)
    requires n <= |slots|
    ensures |SlotMap(slots, base, n)| == Population(slots, n)
  {
    hide ZeroDigest;
    if n > 0 {
      SlotMapSize(slots, base, n - 1);
      SlotMapIs(slots, base, n - 1, base + n - 1);
    }
  }

  function EmptySlots(): (s: seq<Digest>)
    ensures |s| == PAGE_SLOTS
  {
    seq(PAGE_SLOTS, _ => ZERO)
  }

  /** The slots an entry stands for: its cached page, a blank page while it has
      no address, or the stored one. */
  function SlotsOf(objects: map<Digest, Object>, de: DirEntry): seq<Digest>
  {
    if de.cached.Some? then de.cached.value.slots
    else if de.pageHash == ZERO then EmptySlots()
    else match PageOf(objects, de.pageHash) case Some(s) => s case None => EmptySlots()
  }

  predicate Sorted(dir: seq<DirEntry>)
  {
    forall i, j :: 0 <= i < j < |dir| ==> dir[i].pageNum < dir[j].pageNum
  }

  /** Enough of the invariant for a directory to denote a map. */
  predicate Shaped(objects: map<Digest, Object>, dir: seq<DirEntry>)
  {
    Sorted(dir) && forall i :: 0 <= i < |dir| ==> |SlotsOf(objects, dir[i])| == PAGE_SLOTS
  }

  predicate StoredPage(hash: HashFn, objects: map<Digest, Object>, slots: seq<Digest>)
  {
    hash(PageObject(slots)) in objects && objects[hash(PageObject(slots))] == PageObject(slots)
  }

  /** Both population counts are right, and a page that is not cached, or cached
      but clean, is stored under the entry's address. */
  predicate EntrySound(hash: HashFn, objects: map<Digest, Object>, de: DirEntry)
  {
    && de.pageNum < PAGE_LIMIT
    && |SlotsOf(objects, de)| == PAGE_SLOTS
    && de.pop == Population(SlotsOf(objects, de), PAGE_SLOTS)
    && (de.cached.Some? ==> de.cached.value.pop == de.pop)
    && (de.cached.None? || !de.cached.value.dirty ==>
          && de.pageHash != ZERO
          && de.pageHash == hash(PageObject(SlotsOf(objects, de)))
          && StoredPage(hash, objects, SlotsOf(objects, de)))
  }

  /** The invariant of an object map. */
  predicate Sound(hash: HashFn, objects: map<Digest, Object>, dir: seq<DirEntry>)
  {
    Shaped(objects, dir) && forall i :: 0 <= i < |dir| ==> EntrySound(hash, objects, dir[i])
  }

  function PageMap(objects: map<Digest, Object>, de: DirEntry): Map
    requires |SlotsOf(objects, de)| == PAGE_SLOTS
  {
    SlotMap(SlotsOf(objects, de), de.pageNum * PAGE_SLOTS, PAGE_SLOTS)
  }

  function PagesMap(objects: map<Digest, Object>, dir: seq<DirEntry>, n: nat): Map
    requires n <= |dir| && Shaped(objects, dir)
  {
    if n == 0 then map[]
    else PagesMap(objects, dir, n - 1) + PageMap(objects, dir[n - 1])
  }

  /** The map from ids to digests that a directory denotes. */
  function MapOf(objects: map<Digest, Object>, dir: seq<DirEntry>): Map
    requires Shaped(objects, dir)
  {
    PagesMap(objects, dir, |dir|)
  }

  /** dir_find: how many entries precede page p. */
  function FindIndex(dir: seq<DirEntry>, p: nat): (i: nat)
    ensures i <= |dir|
    ensures forall j :: 0 <= j < i ==> dir[j].pageNum < p
    ensures i < |dir| ==> dir[i].pageNum >= p
  {
    if dir == [] || dir[0].pageNum >= p then 0 else 1 + FindIndex(dir[1..], p)
  }

  predicate HasPage(dir: seq<DirEntry>, p: nat)
  {
    FindIndex(dir, p) < |dir| && dir[FindIndex(dir, p)].pageNum == p
  }

  /** The digest in id's slot, ZERO when its page is absent. */
  function SlotAt(objects: map<Digest, Object>, dir: seq<DirEntry>, id: nat): Digest
    requires Shaped(objects, dir)
  {
    var p := id / PAGE_SLOTS;
    if HasPage(dir, p) then SlotsOf(objects, dir[FindIndex(dir, p)])[id % PAGE_SLOTS] else ZERO
  }

  lemma FindUnique(dir: seq<DirEntry>, i: nat)
    requires Sorted(dir) && i < |dir|
    ensures FindIndex(dir, dir[i].pageNum) == i && HasPage(dir, dir[i].pageNum)
  {
    hide FindIndex;
    var k := FindIndex(dir, dir[i].pageNum);
    assert k <= i;
    assert dir[k].pageNum >= dir[i].pageNum;
  }

  lemma PageRange(id: nat, p: nat)
    ensures id / PAGE_SLOTS == p <==> p * PAGE_SLOTS <= id < p * PAGE_SLOTS + PAGE_SLOTS
    ensures id / PAGE_SLOTS == p ==> id % PAGE_SLOTS == id - p * PAGE_SLOTS
  {
  }

  /** Ids in pages before the n-th entry, each with its slot's digest. */
  lemma {:induction false} PagesMapIs(objects: map<Digest, Object>, dir: seq<DirEntry>, n: nat, id: nat)
    requires Shaped(objects, dir) && n <= |dir|
    ensures id in PagesMap(objects, dir, n) <==>
              HasPage(dir, id / PAGE_SLOTS) && FindIndex(dir, id / PAGE_SLOTS) < n && SlotAt(objects, dir, id) != ZERO
    ensures id in PagesMap(objects, dir, n) ==> PagesMap(objects, dir, n)[id] == SlotAt(objects, dir, id)
  {
    hide SlotMap, Population, SlotsOf, FindIndex, ZeroDigest;
    if n > 0 {
      PagesMapIs(objects, dir, n - 1, id);
      var de := dir[n - 1];
      assert |SlotsOf(objects, de)| == PAGE_SLOTS;
      SlotMapIs(SlotsOf(objects, de), de.pageNum * PAGE_SLOTS, PAGE_SLOTS, id);
      FindUnique(dir, n - 1);
      PageRange(id, de.pageNum);
    }
  }

  lemma MapIs(objects: map<Digest, Object>, dir: seq<DirEntry>, id: nat)
    requires Shaped(objects, dir)
    ensures id in MapOf(objects, dir) <==> SlotAt(objects, dir, id) != ZERO
    ensures id in MapOf(objects, dir) ==> MapOf(objects, dir)[id] == SlotAt(objects, dir, id)
  {
    hide FindIndex, SlotsOf, ZeroDigest;
    PagesMapIs(objects, dir, |dir|, id);
  }

  function TotalPop(dir: seq<DirEntry>, n: nat): nat
    requires n <= |dir|
  {
    if n == 0 then 0 else TotalPop(dir, n - 1) + dir[n - 1].pop
  }

  lemma PagesAreDisjoint(objects: map<Digest, Object>, dir: seq<DirEntry>, n: nat, id: nat)
    requires Shaped(objects, dir) && 0 < n <= |dir| && |SlotsOf(objects, dir[n - 1])| == PAGE_SLOTS
    requires id in PageMap(objects, dir[n - 1])
    ensures id !in PagesMap(objects, dir, n - 1)
  {
    hide SlotMap, Population, SlotsOf, FindIndex, ZeroDigest, PagesMap, Shaped;
    var de := dir[n - 1];
    SlotMapIs(SlotsOf(objects, de), de.pageNum * PAGE_SLOTS, PAGE_SLOTS, id);
    PageRange(id, de.pageNum);
    assert Sorted(dir) by { SortedOf(objects, dir); }
    FindUnique(dir, n - 1);
    PagesMapIs(objects, dir, n - 1, id);
  }

  lemma SortedOf(objects: map<Digest, Object>, dir: seq<DirEntry>)
    requires Shaped(objects, dir)
    ensures Sorted(dir)
  {
  }

  lemma PageMapSize(hash: HashFn, objects: map<Digest, Object>, de: DirEntry)
    requires EntrySound(hash, objects, de)
    ensures |PageMap(objects, de)| == de.pop
  {
    hide SlotsOf, SlotMap, StoredPage;
    SlotMapSize(SlotsOf(objects, de), de.pageNum * PAGE_SLOTS, PAGE_SLOTS);
  }

  lemma PagesMapStep(hash: HashFn, objects: map<Digest, Object>, dir: seq<DirEntry>, n: nat)
    requires Sound(hash, objects, dir) && n <= |dir|
    ensures Shaped(objects, dir)
    ensures n == 0 ==> PagesMap(objects, dir, n) == map[] && TotalPop(dir, n) == 0
    ensures n > 0 ==>
              && EntrySound(hash, objects, dir[n - 1])
              && |SlotsOf(objects, dir[n - 1])| == PAGE_SLOTS
              && PagesMap(objects, dir, n) == PagesMap(objects, dir, n - 1) + PageMap(objects, dir[n - 1])
              && TotalPop(dir, n) == TotalPop(dir, n - 1) + dir[n - 1].pop
  {
    hide SlotsOf, PageMap, Population, StoredPage;
  }

  lemma PageJoins(objects: map<Digest, Object>, dir: seq<DirEntry>, n: nat)
    requires Shaped(objects, dir) && 0 < n <= |dir| && |SlotsOf(objects, dir[n - 1])| == PAGE_SLOTS
    ensures |PagesMap(objects, dir, n - 1) + PageMap(objects, dir[n - 1])|
            == |PagesMap(objects, dir, n - 1)| + |PageMap(objects, dir[n - 1])|
  {
    hide *;
    var rest, page := PagesMap(objects, dir, n - 1), PageMap(objects, dir[n - 1]);
    forall id | id in page
      ensures id !in rest
    {
      PagesAreDisjoint(objects, dir, n, id);
    }
    DisjointSize(rest, page);
  }

  /** The population counts add up to the size of the map. */
  lemma {:induction false} CountIsSize(hash: HashFn, objects: map<Digest, Object>, dir: seq<DirEntry>, n: nat)
    requires Sound(hash, objects, dir) && Shaped(objects, dir) && n <= |dir|
    ensures |PagesMap(objects, dir, n)| == TotalPop(dir, n)
  {
    hide *;
    PagesMapStep(hash, objects, dir, n);
    if n > 0 {
      CountIsSize(hash, objects, dir, n - 1);
      PageMapSize(hash, objects, dir[n - 1]);
      PageJoins(objects, dir, n);
    }
  }

  lemma DisjointSize(a: Map, b: Map)
    requires forall k :: k in b ==> k !in a
    ensures |a + b| == |a| + |b|
  {
    assert (a + b).Keys == a.Keys + b.Keys && a.Keys !! b.Keys;
    assert |a.Keys| == |a| && |b.Keys| == |b| && |(a + b).Keys| == |a + b|;
  }

  // ------------------------------------------------------------------
  // Snapshots
  // ------------------------------------------------------------------

  function EntryBytes(de: DirEntry): (r: seq<byte>)
    ensures |r| == ROOT_ENTRY
  {
    Le(de.pageNum, 8) + de.pageHash + Le(de.pop, 2) + [0, 0, 0, 0, 0, 0]
  }

  function EntriesBytes(es: seq<DirEntry>): (r: seq<byte>)
    ensures |r| == ROOT_ENTRY * |es|
  {
    if es == [] then [] else EntriesBytes(es[..|es| - 1]) + EntryBytes(es[|es| - 1])
  }

  function RootObject(es: seq<DirEntry>): Object
  {
    Object(OMAP, ROOT_MAGIC + Le(|es|, 4) + EntriesBytes(es))
  }

  function DecodeEntry(b: seq<byte>): DirEntry
    requires |b| == ROOT_ENTRY
  {
    DirEntry(FromLe(b[0..8]), b[8..40], FromLe(b[40..42]), None)
  }

  datatype RootResult = Entries(dir: seq<DirEntry>) | BadType | BadForm

  /** The checks of cas_omap_load on an object found at the root address. */
  function DecodeRoot(o: Object): RootResult
  {
    if o.kind != OMAP || |o.data| < ROOT_HEADER then BadType else
    if o.data[..4] != ROOT_MAGIC then BadForm else
    var n := FromLe(o.data[4..8]);
    if |o.data| != ROOT_HEADER + n * ROOT_ENTRY then BadForm else
    Entries(seq(n, i requires 0 <= i < n =>
      DecodeEntry(o.data[ROOT_HEADER + ROOT_ENTRY * i..ROOT_HEADER + ROOT_ENTRY * i + ROOT_ENTRY])))
  }

  lemma {:induction false} EntriesBytesAt(es: seq<DirEntry>, i: nat)
    requires i < |es|
    ensures EntriesBytes(es)[ROOT_ENTRY * i..ROOT_ENTRY * i + ROOT_ENTRY] == EntryBytes(es[i])
  {
    hide EntryBytes;
    var n := |es| - 1;
    if i < n {
      EntriesBytesAt(es[..n], i);
      var a, b := ROOT_ENTRY * i, ROOT_ENTRY * i + ROOT_ENTRY;
      assert EntriesBytes(es)[a..b] == EntriesBytes(es[..n])[a..b];
    }
  }

  lemma DecodeOfEntry(de: DirEntry)
    requires de.pageNum < PAGE_LIMIT && de.pop <= PAGE_SLOTS
    ensures DecodeEntry(EntryBytes(de)) == de.(cached := None)
  {
    hide Le, FromLe;
    var b := EntryBytes(de);
    assert b[0..8] == Le(de.pageNum, 8) && b[8..40] == de.pageHash && b[40..42] == Le(de.pop, 2);
    Le64RoundTrip(de.pageNum);
    FromLeOfLe(de.pop, 2);
    Pow256Values();
  }

  /** Reading a written root gives back its entries, none of them cached. */
  lemma DecodeOfRoot(es: seq<DirEntry>)
    requires |es| < U32 && forall i :: 0 <= i < |es| ==> es[i].pageNum < PAGE_LIMIT && es[i].pop <= PAGE_SLOTS && es[i].cached == None
    ensures DecodeRoot(RootObject(es)) == Entries(es)
  {
    hide Le, FromLe, EntriesBytes, EntryBytes, DecodeEntry;
    var o := RootObject(es);
    assert o.data[..4] == ROOT_MAGIC && o.data[4..8] == Le(|es|, 4);
    Le32RoundTrip(|es|);
    forall i | 0 <= i < |es|
      ensures DecodeEntry(o.data[ROOT_HEADER + ROOT_ENTRY * i..ROOT_HEADER + ROOT_ENTRY * i + ROOT_ENTRY]) == es[i]
    {
      EntriesBytesAt(es, i);
      DecodeOfEntry(es[i]);
      assert o.data[ROOT_HEADER..] == EntriesBytes(es);
      assert o.data[ROOT_HEADER..][ROOT_ENTRY * i..ROOT_ENTRY * i + ROOT_ENTRY]
          == o.data[ROOT_HEADER + ROOT_ENTRY * i..ROOT_HEADER + ROOT_ENTRY * i + ROOT_ENTRY];
    }
  }

  /** Address root holds a snapshot of the map m. */
  predicate IsSnapshot(hash: HashFn, objects: map<Digest, Object>, root: Digest, m: Map)
  {
    && root in objects
    && DecodeRoot(objects[root]).Entries?
    && var dir := DecodeRoot(objects[root]).dir;
    && Sound(hash, objects, dir)
    && MapOf(objects, dir) == m
  }

  /** A snapshot stays a snapshot of the same map while the depot grows. */
  lemma SnapshotsArePermanent(hash: HashFn, objects: map<Digest, Object>, later: map<Digest, Object>, root: Digest, m: Map)
    requires IsSnapshot(hash, objects, root, m)
    requires forall a :: a in objects ==> a in later && later[a] == objects[a]
    ensures IsSnapshot(hash, later, root, m)
  {
    hide DecodeRoot, MapOf, Sorted;
    var dir := DecodeRoot(objects[root]).dir;
    SoundGrows(hash, objects, later, dir);
  }

  lemma PageOfStored(hash: HashFn, objects: map<Digest, Object>, slots: seq<Digest>)
    requires StoredPage(hash, objects, slots) && |slots| == PAGE_SLOTS
    ensures PageOf(objects, hash(PageObject(slots))) == Some(slots)
  {
    hide Flat, Unflat;
    UnflatOfFlat(slots);
  }

  lemma SlotsGrow(hash: HashFn, objects: map<Digest, Object>, later: map<Digest, Object>, de: DirEntry)
    requires EntrySound(hash, objects, de)
    requires forall a :: a in objects ==> a in later && later[a] == objects[a]
    ensures SlotsOf(later, de) == SlotsOf(objects, de) && EntrySound(hash, later, de)
  {
    hide Flat, Unflat, Population;
  }

  lemma SoundGrows(hash: HashFn, objects: map<Digest, Object>, later: map<Digest, Object>, dir: seq<DirEntry>)
    requires Sound(hash, objects, dir)
    requires forall a :: a in objects ==> a in later && later[a] == objects[a]
    ensures Sound(hash, later, dir) && MapOf(later, dir) == MapOf(objects, dir)
  {
    hide SlotsOf, EntrySound;
    forall i | 0 <= i < |dir|
      ensures SlotsOf(later, dir[i]) == SlotsOf(objects, dir[i]) && EntrySound(hash, later, dir[i])
    {
      SlotsGrow(hash, objects, later, dir[i]);
    }
    SameSlotsSameMap(objects, later, dir, |dir|);
  }

  lemma {:induction false} SameSlotsSameMap(objects: map<Digest, Object>, later: map<Digest, Object>,
        dir: seq<DirEntry>, n: nat)
    requires Shaped(objects, dir) && Shaped(later, dir) && n <= |dir|
    requires forall i :: 0 <= i < |dir| ==> SlotsOf(later, dir[i]) == SlotsOf(objects, dir[i])
    ensures PagesMap(later, dir, n) == PagesMap(objects, dir, n)
  {
    hide SlotsOf, SlotMap;
    if n > 0 {
      SameSlotsSameMap(objects, later, dir, n - 1);
    }
  }

  // ------------------------------------------------------------------
  // Directory edits
  // ------------------------------------------------------------------

  lemma {:induction false} PopulationUpdate(slots: seq<Digest>, n: nat, s: nat, d: Digest)
    requires n <= |slots| && s < |slots|
    ensures Population(slots[s := d], n) == Population(slots, n)
              + (if s < n && d != ZERO then 1 else 0) - (if s < n && slots[s] != ZERO then 1 else 0)
  {
    hide ZeroDigest;
    if n > 0 {
      PopulationUpdate(slots, n - 1, s, d);
    }
  }

  lemma {:induction false} PopulationZero(slots: seq<Digest>, n: nat)
    requires n <= |slots|
    ensures Population(slots, n) == 0 <==> forall i :: 0 <= i < n ==> slots[i] == ZERO
    ensures Population(slots, n) == n <==> forall i :: 0 <= i < n ==> slots[i] != ZERO
  {
    hide ZeroDigest;
    if n > 0 {
      PopulationZero(slots, n - 1);
    }
  }

  lemma SameMap(a: Map, b: Map)
    requires forall id :: id in a <==> id in b
    requires forall id :: id in a ==> id in b && a[id] == b[id]
    ensures a == b
  {
  }

  lemma SlotAtEntry(objects: map<Digest, Object>, dir: seq<DirEntry>, i: nat, id: nat)
    requires Shaped(objects, dir) && i < |dir| && dir[i].pageNum == id / PAGE_SLOTS
    ensures SlotAt(objects, dir, id) == SlotsOf(objects, dir[i])[id % PAGE_SLOTS]
  {
    hide FindIndex, SlotsOf;
    FindUnique(dir, i);
  }

  /** Changing one slot of one page changes the map at that id alone. */
  lemma EditSlot(objects: map<Digest, Object>, dir: seq<DirEntry>, i: nat, de: DirEntry, s: nat, d: Digest)
    requires Shaped(objects, dir) && i < |dir| && de.pageNum == dir[i].pageNum && s < PAGE_SLOTS
    requires SlotsOf(objects, de) == SlotsOf(objects, dir[i])[s := d]
    ensures Shaped(objects, dir[i := de])
    ensures var id := dir[i].pageNum * PAGE_SLOTS + s;
            MapOf(objects, dir[i := de]) == if d == ZERO then MapOf(objects, dir) - {id} else MapOf(objects, dir)[id := d]
  {
    hide FindIndex, SlotsOf, PagesMap, ZeroDigest, MapOf;
    var dir2 := dir[i := de];
    var at := dir[i].pageNum * PAGE_SLOTS + s;
    var target := if d == ZERO then MapOf(objects, dir) - {at} else MapOf(objects, dir)[at := d];
    forall id: nat
      ensures id in MapOf(objects, dir2) <==> id in target
      ensures id in MapOf(objects, dir2) ==> MapOf(objects, dir2)[id] == target[id]
    {
      MapIs(objects, dir, id);
      MapIs(objects, dir2, id);
      PageRange(id, dir[i].pageNum);
      SamePages(dir, dir2, id / PAGE_SLOTS);
      if id / PAGE_SLOTS == dir[i].pageNum {
        SlotAtEntry(objects, dir, i, id);
        SlotAtEntry(objects, dir2, i, id);
      } else if HasPage(dir, id / PAGE_SLOTS) {
        var k := FindIndex(dir, id / PAGE_SLOTS);
        SlotAtEntry(objects, dir, k, id);
        SlotAtEntry(objects, dir2, k, id);
      }
    }
    SameMap(MapOf(objects, dir2), target);
  }

  lemma {:induction false} SamePages(a: seq<DirEntry>, b: seq<DirEntry>, p: nat)
    requires |a| == |b| && forall i :: 0 <= i < |a| ==> a[i].pageNum == b[i].pageNum
    ensures FindIndex(a, p) == FindIndex(b, p) && (HasPage(a, p) <==> HasPage(b, p))
  {
    if a != [] && a[0].pageNum < p {
      SamePages(a[1..], b[1..], p);
    }
  }

  /** Inserting an empty page changes nothing the directory denotes. */
  lemma InsertEmpty(objects: map<Digest, Object>, dir: seq<DirEntry>, de: DirEntry)
    requires Shaped(objects, dir) && !HasPage(dir, de.pageNum) && SlotsOf(objects, de) == EmptySlots()
    ensures var pos := FindIndex(dir, de.pageNum); var dir2 := dir[..pos] + [de] + dir[pos..];
            Shaped(objects, dir2) && MapOf(objects, dir2) == MapOf(objects, dir)
  {
    hide FindIndex, SlotsOf, PagesMap, ZeroDigest, MapOf;
    var pos := FindIndex(dir, de.pageNum);
    var dir2 := dir[..pos] + [de] + dir[pos..];
    ShapedInsert(objects, dir, de);
    forall id: nat
      ensures SlotAt(objects, dir2, id) == SlotAt(objects, dir, id)
    {
      var p := id / PAGE_SLOTS;
      if HasPage(dir, p) {
        var k := FindIndex(dir, p);
        SlotAtEntry(objects, dir, k, id);
        SlotAtEntry(objects, dir2, if k < pos then k else k + 1, id);
      } else if HasPage(dir2, p) {
        var k := FindIndex(dir2, p);
        SlotAtEntry(objects, dir2, k, id);
        if k != pos {
          FindUnique(dir, if k < pos then k else k - 1);
        }
      }
    }
    forall id: nat
      ensures id in MapOf(objects, dir2) <==> id in MapOf(objects, dir)
      ensures id in MapOf(objects, dir2) ==> MapOf(objects, dir2)[id] == MapOf(objects, dir)[id]
    {
      MapIs(objects, dir, id);
      MapIs(objects, dir2, id);
    }
    SameMap(MapOf(objects, dir2), MapOf(objects, dir));
  }

  lemma ShapedInsert(objects: map<Digest, Object>, dir: seq<DirEntry>, de: DirEntry)
    requires Shaped(objects, dir) && !HasPage(dir, de.pageNum) && SlotsOf(objects, de) == EmptySlots()
    ensures var pos := FindIndex(dir, de.pageNum); Shaped(objects, dir[..pos] + [de] + dir[pos..])
  {
    hide FindIndex, SlotsOf;
    var pos := FindIndex(dir, de.pageNum);
    var dir2 := dir[..pos] + [de] + dir[pos..];
    forall i, j | 0 <= i < j < |dir2|
      ensures dir2[i].pageNum < dir2[j].pageNum
    {
      if i == pos {
        assert dir[pos].pageNum > de.pageNum;
      }
    }
  }

  // ------------------------------------------------------------------
  // The canonical directory of a map
  // ------------------------------------------------------------------

  /** The 256 slots of page p as the map fills them. */
  function CanonSlots(m: Map, p: nat): (s: seq<Digest>)
    ensures |s| == PAGE_SLOTS
  {
    seq(PAGE_SLOTS, i requires 0 <= i < PAGE_SLOTS => if p * PAGE_SLOTS + i in m then m[p * PAGE_SLOTS + i] else ZERO)
  }

  /** The populated pages below p, in order, each under the address of its
      contents: a function of the map alone. */
  function CanonEntries(hash: HashFn, m: Map, p: nat): (es: seq<DirEntry>)
  {
    if p == 0 then [] else
    var slots := CanonSlots(m, p - 1);
    var n := Population(slots, PAGE_SLOTS);
    if n == 0 then CanonEntries(hash, m, p - 1)
    else CanonEntries(hash, m, p - 1) + [DirEntry(p - 1, hash(PageObject(slots)), n, None)]
  }

  function CanonRoot(hash: HashFn, m: Map): Object { RootObject(CanonEntries(hash, m, PAGE_LIMIT)) }

  /** The entries a snapshot keeps, stripped of their cached pages. */
  function Live(dir: seq<DirEntry>, n: nat): (es: seq<DirEntry>)
    requires n <= |dir|
    ensures |es| <= n
  {
    if n == 0 then []
    else if dir[n - 1].pop == 0 then Live(dir, n - 1)
    else Live(dir, n - 1) + [dir[n - 1].(cached := None)]
  }

  lemma CanonSlotsOf(objects: map<Digest, Object>, dir: seq<DirEntry>, p: nat)
    requires Shaped(objects, dir)
    ensures HasPage(dir, p) ==> CanonSlots(MapOf(objects, dir), p) == SlotsOf(objects, dir[FindIndex(dir, p)])
    ensures !HasPage(dir, p) ==> CanonSlots(MapOf(objects, dir), p) == EmptySlots()
  {
    hide FindIndex, SlotsOf, MapOf, ZeroDigest;
    forall i | 0 <= i < PAGE_SLOTS
      ensures CanonSlots(MapOf(objects, dir), p)[i] == SlotAt(objects, dir, p * PAGE_SLOTS + i)
      ensures (p * PAGE_SLOTS + i) / PAGE_SLOTS == p && (p * PAGE_SLOTS + i) % PAGE_SLOTS == i
    {
      MapIs(objects, dir, p * PAGE_SLOTS + i);
      PageRange(p * PAGE_SLOTS + i, p);
    }
  }

  /** Once every page is clean, the live entries are the canonical ones. */
  lemma {:induction false} LiveIsCanon(hash: HashFn, objects: map<Digest, Object>, dir: seq<DirEntry>, i: nat, p: nat)
    requires Sound(hash, objects, dir) && Shaped(objects, dir) && i <= |dir|
    requires forall j :: 0 <= j < |dir| ==> dir[j].pageHash == hash(PageObject(SlotsOf(objects, dir[j])))
    requires forall j :: 0 <= j < i ==> dir[j].pageNum < p
    requires forall j :: i <= j < |dir| ==> dir[j].pageNum >= p
    ensures Live(dir, i) == CanonEntries(hash, MapOf(objects, dir), p)
    decreases p
  {
    hide FindIndex, SlotsOf, MapOf, Population, CanonSlots, PageObject, StoredPage;
    if p == 0 {
      assert i == 0;
    } else {
      CanonSlotsOf(objects, dir, p - 1);
      if i > 0 && dir[i - 1].pageNum == p - 1 {
        FindUnique(dir, i - 1);
        assert EntrySound(hash, objects, dir[i - 1]);
        LiveIsCanon(hash, objects, dir, i - 1, p - 1);
      } else {
        assert forall j :: 0 <= j < |dir| ==> dir[j].pageNum != p - 1;
        assert !HasPage(dir, p - 1);
        PopulationZero(EmptySlots(), PAGE_SLOTS);
        LiveIsCanon(hash, objects, dir, i, p - 1);
      }
    }
  }
}
