/** The object map as its methods run it: a write-back page cache over an
    immutable store (cas-omap.c). */
module Omap {
  import opened Bytes
  import opened Entries
  import opened Objects
  import opened OmapSpec

  datatype Rc = Ok | Err | NotFound | WrongType | Full

  const ID_LIMIT: nat := U64
  const LAST_PAGE: nat := (PAGE_LIMIT - 1) * PAGE_SLOTS

  // ------------------------------------------------------------------
  // Allocation, as the code answers it
  // ------------------------------------------------------------------

  /** The least id in [lo, hi) that m does not map. */
  function LeastFree(m: Map, lo: nat, hi: nat): (r: Option<nat>)
    ensures r.Some? ==> lo <= r.value < hi && r.value !in m && forall id :: lo <= id < r.value ==> id in m
    ensures r.None? ==> forall id :: lo <= id < hi ==> id in m
    decreases hi - lo
  {
    if lo >= hi then None
    else if lo !in m then Some(lo)
    else LeastFree(m, lo + 1, hi)
  }

  /** The search runs off a full last page and starts again at id 0: the page
      number plus one no longer fits the id it is turned into. */
  predicate Wraps(m: Map, start: nat, end: nat)
  {
    start < end && end > LAST_PAGE && LeastFree(m, start, end) == None && LeastFree(m, LAST_PAGE, ID_LIMIT) == None
  }

  /** Not every one of the 2^64 ids is mapped. */
  ghost predicate HasFree(m: Map) { exists id: nat :: id < ID_LIMIT && id !in m }

  /** What cas_omap_alloc answers for the range [start, end). */
  function Allocated(m: Map, start: nat, end: nat): Option<nat>
  {
    if LeastFree(m, start, end).Some? then LeastFree(m, start, end)
    else if Wraps(m, start, end) then LeastFree(m, 0, ID_LIMIT)
    else None
  }

  lemma {:induction false} LeastFreeUnique(m: Map, lo: nat, hi: nat, id: nat)
    requires lo <= id < hi && id !in m && forall k :: lo <= k < id ==> k in m
    ensures LeastFree(m, lo, hi) == Some(id)
    decreases id - lo
  {
    if lo < id {
      LeastFreeUnique(m, lo + 1, hi, id);
    }
  }

  lemma {:induction false} NoneFree(m: Map, lo: nat, hi: nat)
    requires forall k :: lo <= k < hi ==> k in m
    ensures LeastFree(m, lo, hi) == None
    decreases hi - lo
  {
    if lo < hi {
      NoneFree(m, lo + 1, hi);
    }
  }

  /** The documented answer is the least free id of the range, full when there
      is none.  The code gives it exactly when the search does not wrap. */
  lemma AllocIsLeastFree(m: Map, start: nat, end: nat)
    requires end < ID_LIMIT
    requires HasFree(m)
    ensures Allocated(m, start, end) == LeastFree(m, start, end) <==> !Wraps(m, start, end)
  {
    assert LeastFree(m, 0, ID_LIMIT).Some?;
  }

  /** A map of exactly the last page: asking for an id inside it answers 0. */
  lemma AllocWraps(d: Digest)
    requires d != ZERO
    ensures var m := SlotMap(seq(PAGE_SLOTS, _ => d), LAST_PAGE, PAGE_SLOTS);
            Allocated(m, LAST_PAGE, LAST_PAGE + 255) == Some(0) && LeastFree(m, LAST_PAGE, LAST_PAGE + 255) == None
  {
    hide LeastFree, SlotMap;
    var slots := seq(PAGE_SLOTS, _ => d);
    var m := SlotMap(slots, LAST_PAGE, PAGE_SLOTS);
    forall id: nat
      ensures id in m <==> LAST_PAGE <= id < ID_LIMIT
    {
      SlotMapIs(slots, LAST_PAGE, PAGE_SLOTS, id);
    }
    NoneFree(m, LAST_PAGE, LAST_PAGE + 255);
    NoneFree(m, LAST_PAGE, ID_LIMIT);
    LeastFreeUnique(m, 0, ID_LIMIT, 0);
  }

  // ------------------------------------------------------------------
  // The class
  // ------------------------------------------------------------------

  /** U is the set of objects that ever meet in the depot: no two share an
      address, none has the all-zero address that marks an empty slot, and what
      is stored under the address of one of them is that object. */
  ghost predicate Honest(hash: HashFn, objects: map<Digest, Object>, U: iset<Object>)
  {
    && (forall o :: o in U ==> hash(o) != ZERO && (hash(o) in objects ==> objects[hash(o)] == o))
    && (forall o, o2 :: o in U && o2 in U && hash(o) == hash(o2) ==> o == o2)
  }

  class ObjectMap {
    const store: Store
    var dir: seq<DirEntry>

    predicate Valid()
      reads this, store
    {
      Sound(store.hash, store.objects, dir)
    }

    /** The plain map this object stands for. */
    function Model(): Map
      requires Valid()
      reads this, store
    {
      MapOf(store.objects, dir)
    }

    /** cas_omap_new */
    constructor (store: Store)
      ensures this.store == store && Valid() && Model() == map[]
    {
      this.store := store;
      dir := [];
    }

    /** dir_find */
    method DirFind(p: nat) returns (lo: nat)
      requires Sorted(dir)
      ensures lo == FindIndex(dir, p)
    {
      lo := 0;
      var hi := |dir|;
      while lo < hi
        invariant lo <= hi <= |dir|
        invariant forall i :: 0 <= i < lo ==> dir[i].pageNum < p
        invariant forall i :: hi <= i < |dir| ==> dir[i].pageNum >= p
      {
        var mid := lo + (hi - lo) / 2;
        if dir[mid].pageNum < p {
          lo := mid + 1;
        } else {
          hi := mid;
        }
      }
      IndexOf(dir, p, lo);
    }

    /** page_load: make entry i's page resident. */
    method PageLoad(i: nat) returns (rc: Rc)
      requires i < |dir|
      modifies `dir
      ensures rc == Ok <==> old(dir[i]).cached.Some? || PageOf(store.objects, old(dir[i]).pageHash).Some?
      ensures rc != Ok ==> dir == old(dir)
      ensures rc == Ok ==> dir == old(dir)[i := Resident(store.objects, old(dir[i]))]
    {
      var de := dir[i];
      if de.cached.Some? {
        return Ok;
      }
      if de.pageHash !in store.objects {
        return NotFound;
      }
      var o := store.objects[de.pageHash];
      if o.kind != OPAGE || |o.data| != PAGE_SIZE {
        return WrongType;
      }
      dir := dir[i := de.(cached := Some(Page(Unflat(o.data), de.pop, false)))];
      return Ok;
    }

    /** cas_omap_get */
    method Get(id: nat) returns (rc: Rc, hex: seq<byte>)
      requires Valid()
      modifies `dir
      ensures Valid() && Model() == old(Model())
      ensures id in old(Model()) ==> rc == Ok && hex == HexEncode(old(Model())[id])
      ensures id !in old(Model()) ==> rc == NotFound
    {
      hide Sound, MapOf, FindIndex, HexEncode, SlotsOf, Resident, PageOf, ZeroDigest;
      hex := [];
      var p, slot := id / PAGE_SLOTS, id % PAGE_SLOTS;
      SoundIsShaped(store.hash, store.objects, dir);
      MapIs(store.objects, dir, id);
      var pos := DirFind(p);
      if pos >= |dir| || dir[pos].pageNum != p {
        return NotFound, hex;
      }
      ResidentIsSame(store.hash, store.objects, dir, pos);
      rc := PageLoad(pos);
      var d := dir[pos].cached.value.slots[slot];
      if d == ZERO {
        return NotFound, hex;
      }
      return Ok, HexEncode(d);
    }

    /** cas_omap_exists */
    method Exists(id: nat) returns (found: bool)
      requires Valid()
      modifies `dir
      ensures Valid() && Model() == old(Model())
      ensures found <==> id in old(Model())
    {
      var rc, hex := Get(id);
      found := rc == Ok;
    }

    /** dir_insert: the position of page p's entry, inserted if it is new. */
    method DirInsert(p: nat) returns (pos: nat)
      requires Valid() && p < PAGE_LIMIT
      modifies `dir
      ensures pos < |dir| && dir[pos].pageNum == p
      ensures SoundBut(store.hash, store.objects, dir, pos) && Shaped(store.objects, dir)
      ensures MapOf(store.objects, dir) == old(Model())
      ensures Valid() || dir[pos] == DirEntry(p, ZERO, 0, None)
    {
      hide Sound, MapOf, FindIndex, SlotsOf, ZeroDigest, Population, SoundBut, Shaped, EntrySound;
      SoundIsShaped(store.hash, store.objects, dir);
      pos := DirFind(p);
      if pos < |dir| && dir[pos].pageNum == p {
        SoundIsSoundBut(store.hash, store.objects, dir, pos);
        return pos;
      }
      assert !HasPage(dir, p);
      BlankInsert(store.hash, store.objects, dir, p);
      dir := dir[..pos] + [DirEntry(p, ZERO, 0, None)] + dir[pos..];
    }

    /** page_ensure: make page p's entry exist and its page resident, blank when
        it has no address yet. */
    method PageEnsure(p: nat) returns (rc: Rc, pos: nat)
      requires Valid() && p < PAGE_LIMIT
      modifies `dir
      ensures rc == Ok && pos < |dir| && dir[pos].pageNum == p && dir[pos].cached.Some?
      ensures SoundBut(store.hash, store.objects, dir, pos) && Shaped(store.objects, dir)
      ensures MapOf(store.objects, dir) == old(Model())
    {
      hide Sound, MapOf, FindIndex, SlotsOf, PageOf, ZeroDigest, Population, SoundBut, Shaped, EntrySound;
      pos := DirInsert(p);
      rc := Ok;
      if dir[pos].cached.None? {
        var hasHash := dir[pos].pageHash != ZERO;
        if hasHash {
          ResidentIsSame(store.hash, store.objects, dir, pos);
          SoundIsSoundBut(store.hash, store.objects, dir[pos := Resident(store.objects, dir[pos])], pos);
          SoundIsShaped(store.hash, store.objects, dir[pos := Resident(store.objects, dir[pos])]);
          rc := PageLoad(pos);
        } else {
          UncachedIsNew(store.hash, store.objects, dir, pos);
          BlankResident(store.hash, store.objects, dir, pos);
          dir := dir[pos := dir[pos].(cached := Some(Page(EmptySlots(), 0, false)))];
        }
      }
    }

    /** cas_omap_put.  An all-zero digest is the empty-slot mark: storing one
        breaks the population counts, storing any other is a map update. */
    method Put(id: nat, hex: seq<byte>) returns (rc: Rc)
      requires Valid() && id < ID_LIMIT
      modifies `dir
      ensures !IsHash(hex) ==> rc == Err && dir == old(dir)
      ensures IsHash(hex) ==> rc == Ok
      ensures IsHash(hex) ==> (Valid() <==> HexDecode(hex) != ZERO)
      ensures IsHash(hex) && HexDecode(hex) != ZERO ==> Model() == old(Model())[id := HexDecode(hex)]
    {
      if !IsHash(hex) {
        return Err;
      }
      hide Sound, MapOf, FindIndex, SlotsOf, PageOf, ZeroDigest, Population, IsHash, HexDecode, Shaped, SoundBut;
      var pos;
      rc, pos := PageEnsure(id / PAGE_SLOTS);
      var de := dir[pos];
      var pg := de.cached.value;
      var slot := id % PAGE_SLOTS;
      CachedFacts(store.hash, store.objects, dir, pos);
      var wasEmpty := pg.slots[slot] == ZERO;
      ghost var before := dir;
      var d := HexDecode(hex);
      pg := pg.(slots := pg.slots[slot := d], dirty := true);
      if wasEmpty {
        pg := pg.(pop := pg.pop + 1);
        de := de.(pop := de.pop + 1);
      }
      dir := dir[pos := de.(cached := Some(pg))];
      EditCached(store.hash, store.objects, before, pos, dir[pos], slot, d);
      return Ok;
    }

    /** cas_omap_del */
    method Del(id: nat) returns (rc: Rc)
      requires Valid()
      modifies `dir
      ensures Valid()
      ensures id in old(Model()) ==> rc == Ok && Model() == old(Model()) - {id}
      ensures id !in old(Model()) ==> rc == NotFound && Model() == old(Model())
    {
      hide Sound, MapOf, FindIndex, SlotsOf, Resident, PageOf, ZeroDigest, Population, Shaped, SoundBut;
      var p, slot := id / PAGE_SLOTS, id % PAGE_SLOTS;
      SoundIsShaped(store.hash, store.objects, dir);
      MapIs(store.objects, dir, id);
      var pos := DirFind(p);
      if pos >= |dir| || dir[pos].pageNum != p {
        return NotFound;
      }
      ResidentIsSame(store.hash, store.objects, dir, pos);
      rc := PageLoad(pos);
      SoundIsSoundBut(store.hash, store.objects, dir, pos);
      var de := dir[pos];
      var pg := de.cached.value;
      if pg.slots[slot] == ZERO {
        return NotFound;
      }
      CachedFacts(store.hash, store.objects, dir, pos);
      ghost var before := dir;
      PopulationUpdate(pg.slots, PAGE_SLOTS, slot, ZERO);
      pg := pg.(slots := pg.slots[slot := ZERO], dirty := true, pop := pg.pop - 1);
      dir := dir[pos := de.(cached := Some(pg), pop := de.pop - 1)];
      EditCached(store.hash, store.objects, before, pos, dir[pos], slot, ZERO);
      return Ok;
    }

    /** cas_omap_clear */
    method Clear()
      modifies `dir
      ensures Valid() && Model() == map[]
    {
      dir := [];
    }

    /** cas_omap_count */
    method Count() returns (total: nat)
      requires Valid()
      ensures total == |Model()|
    {
      total := 0;
      for i := 0 to |dir|
        invariant total == TotalPop(dir, i)
      {
        total := total + dir[i].pop;
      }
      SoundIsShaped(store.hash, store.objects, dir);
      CountIsSize(store.hash, store.objects, dir, |dir|);
    }

    /** The write-back loop of cas_omap_store: put every dirty page and record
        its address. */
    method FlushPages(ghost U: iset<Object>)
      requires Valid() && Honest(store.hash, store.objects, U) && PagesIn(U, Model())
      modifies `dir, store
      ensures Valid() && Model() == old(Model()) && |dir| == old(|dir|) && AllClean(dir)
      ensures Honest(store.hash, store.objects, U) && Grows(old(store.objects), store.objects)
    {
      hide Sound, MapOf, SlotsOf, Population, Honest, PagesIn, EntrySound, Shaped, ZeroDigest;
      for i := 0 to |dir|
        invariant Valid() && Model() == old(Model()) && |dir| == old(|dir|)
        invariant Honest(store.hash, store.objects, U) && Grows(old(store.objects), store.objects)
        invariant AllClean(dir[..i])
      {
        var de := dir[i];
        if de.cached.Some? && de.cached.value.dirty {
          ghost var objects := store.objects;
          var pg := de.cached.value;
          SoundIsShaped(store.hash, store.objects, dir);
          PageIsInU(store.hash, store.objects, dir, i, U);
          var h := store.Put(PageObject(pg.slots));
          PutKeepsHonest(store.hash, objects, store.objects, U, PageObject(pg.slots));
          SoundGrows(store.hash, objects, store.objects, dir);
          SoundIsShaped(store.hash, store.objects, dir);
          FlushEntry(store.hash, store.objects, dir, i);
          dir := dir[i := DirEntry(de.pageNum, h, pg.pop, Some(pg.(dirty := false)))];
        }
        assert dir[..i + 1] == dir[..i] + [dir[i]];
      }
      assert dir[..|dir|] == dir;
    }

    /** The bytes cas_omap_store writes: a count, then one entry for each
        populated page. */
    method RootBytes() returns (buf: seq<byte>)
      ensures Object(OMAP, buf) == RootObject(Live(dir, |dir|))
    {
      hide EntriesBytes, EntryBytes, Live, Le;
      var live := 0;
      LiveNone(dir);
      for i := 0 to |dir|
        invariant live == |Live(dir, i)|
      {
        LiveStep(dir, i);
        if dir[i].pop > 0 {
          live := live + 1;
        }
      }
      buf := ROOT_MAGIC + Le(live, 4);
      ghost var head := buf;
      NoEntriesBytes();
      for i := 0 to |dir|
        invariant buf == head + EntriesBytes(Live(dir, i))
      {
        LiveStep(dir, i);
        if dir[i].pop == 0 {
          continue;
        }
        buf := buf + EntryBytes(dir[i]);
        EntriesBytesAppend(Live(dir, i), dir[i]);
      }
    }

    /** cas_omap_store: write back, then write the directory of the populated
        pages.  The root address is that of the canonical directory of the map. */
    method StoreSnapshot(ghost U: iset<Object>) returns (root: Digest)
      requires Valid() && Honest(store.hash, store.objects, U) && PagesIn(U, Model())
      requires CanonRoot(store.hash, Model()) in U
      requires |CanonEntries(store.hash, Model(), PAGE_LIMIT)| < U32
      modifies `dir, store
      ensures Valid() && Model() == old(Model()) && |dir| == old(|dir|)
      ensures root == store.hash(CanonRoot(store.hash, Model()))
      ensures Grows(old(store.objects), store.objects) && Honest(store.hash, store.objects, U)
      ensures IsSnapshot(store.hash, store.objects, root, Model())
    {
      hide Sound, MapOf, Honest, PagesIn, AllClean, IsSnapshot, Live, CanonRoot, CanonEntries, RootObject, ZeroDigest;
      FlushPages(U);
      ghost var objects := store.objects;
      var buf := RootBytes();
      SoundIsShaped(store.hash, store.objects, dir);
      CleanLiveIsCanon(store.hash, store.objects, dir);
      root := store.Put(Object(OMAP, buf));
      PutKeepsHonest(store.hash, objects, store.objects, U, Object(OMAP, buf));
      SoundGrows(store.hash, objects, store.objects, dir);
      SoundIsShaped(store.hash, store.objects, dir);
      LiveIsSnapshot(store.hash, store.objects, dir, root);
    }

    /** cas_omap_load.  A root that holds a snapshot of m makes this object map
        stand for m; a root that is refused changes nothing. */
    method Load(root: Digest, ghost m: Map) returns (rc: Rc)
      modifies `dir
      ensures rc == Ok <==> root in store.objects && DecodeRoot(store.objects[root]).Entries?
      ensures rc != Ok ==> dir == old(dir)
      ensures rc == Ok ==> dir == DecodeRoot(store.objects[root]).dir
      ensures IsSnapshot(store.hash, store.objects, root, m) ==> rc == Ok && Valid() && Model() == m
    {
      hide DecodeRoot;
      if root !in store.objects {
        return NotFound;
      }
      match DecodeRoot(store.objects[root])
      case BadType =>
        return WrongType;
      case BadForm =>
        return Err;
      case Entries(es) =>
        dir := es;
        return Ok;
    }

    /** cas_omap_alloc: skip full pages, stop at a missing page or an empty
        slot.  The next id after the last page is computed in 64 bits. */
    method Alloc(start: nat, limit: nat) returns (rc: Rc, id: nat)
      requires Valid() && HasFree(Model()) && start < ID_LIMIT && limit < ID_LIMIT
      modifies `dir
      ensures Valid() && Model() == old(Model())
      ensures rc == Ok || rc == Full
      ensures var end := if limit > 0 then (start + limit) % ID_LIMIT else ID_LIMIT - 1;
              Allocated(old(Model()), start, end) == if rc == Ok then Some(id) else None
    {
      hide Sound, MapOf, LeastFree, Shaped, FindIndex, SlotsOf, Resident, PageOf, ZeroDigest, Population, Wraps,
           Searched, PageIs, Allocated, EntrySound, PageMap, HasFree;
      ghost var m := Model();
      var end := if limit > 0 then (start + limit) % ID_LIMIT else ID_LIMIT - 1;
      id := start;
      ghost var wrapped := false;
      SearchStarts(m, start, end);
      while id < end
        invariant Valid() && Model() == m
        invariant id < ID_LIMIT && Searched(m, start, end, id, wrapped)
        decreases if wrapped then 0 else 1, ID_LIMIT - id
      {
        SoundIsShaped(store.hash, store.objects, dir);
        var p := id / PAGE_SLOTS;
        var pos := DirFind(p);
        if pos >= |dir| || dir[pos].pageNum != p {
          AbsentIsFree(store.objects, dir, id);
          FoundFree(m, start, end, id, wrapped);
          return Ok, id;
        }
        PageContents(store.hash, store.objects, dir, pos);
        ghost var slots := SlotsOf(store.objects, dir[pos]);
        SearchPasses(m, start, end, id, wrapped, slots, |dir|);
        if dir[pos].pop == PAGE_SLOTS {
          NoSecondWrap(m, start, end, id, wrapped);
          wrapped := wrapped || p == PAGE_LIMIT - 1;
          id := (p + 1) * PAGE_SLOTS % ID_LIMIT;
          continue;
        }
        ResidentIsSame(store.hash, store.objects, dir, pos);
        rc := PageLoad(pos);
        var scan := ScanPage(dir[pos].cached.value.slots, p * PAGE_SLOTS, id % PAGE_SLOTS, end);
        match scan
        case Hit(candidate) =>
          SearchHits(m, start, end, id, wrapped, slots, candidate);
          return Ok, candidate;
        case PastEnd(candidate) =>
          SearchEnds(m, start, end, id, wrapped, slots, candidate);
          return Full, id;
        case AllUsed =>
          NextPage(p, end);
          id := (p + 1) * PAGE_SLOTS % ID_LIMIT;
      }
      SearchExits(m, start, end, id, wrapped);
      return Full, id;
    }

    /** cas_omap_foreach, for a callback that never stops: the calls it makes. */
    method Foreach() returns (visited: seq<(nat, seq<byte>)>)
      requires Valid()
      modifies `dir
      ensures Valid() && Model() == old(Model())
      ensures VisitsBelow(Model(), visited, ID_LIMIT) && forall id: nat :: id in Model() ==> id < ID_LIMIT
    {
      hide Sound, MapOf, Shaped, FindIndex, SlotsOf, Resident, PageOf, ZeroDigest, Population, VisitsBelow,
           PageIs, EntrySound, PageMap, HexEncode, StoredPage;
      ghost var m := Model();
      visited := [];
      VisitsNothing(m);
      for i := 0 to |dir|
        invariant Valid() && Model() == m && |dir| == old(|dir|)
        invariant VisitsBelow(m, visited, PageBound(dir, i))
      {
        SoundIsShaped(store.hash, store.objects, dir);
        PageContents(store.hash, store.objects, dir, i);
        EntryFacts(store.hash, store.objects, dir, i);
        VisitsUpTo(store.objects, dir, visited, i);
        var p := dir[i].pageNum;
        if dir[i].pop == 0 {
          PopulationZero(SlotsOf(store.objects, dir[i]), PAGE_SLOTS);
          VisitsEmptyPage(m, visited, p, SlotsOf(store.objects, dir[i]));
          continue;
        }
        ResidentIsSame(store.hash, store.objects, dir, i);
        var rc := PageLoad(i);
        ghost var loaded := dir;
        SoundIsShaped(store.hash, store.objects, dir);
        CachedSlots(store.objects, dir[i]);
        for s := 0 to PAGE_SLOTS
          invariant dir == loaded
          invariant VisitsBelow(m, visited, p * PAGE_SLOTS + s)
        {
          var slots := dir[i].cached.value.slots;
          VisitsSlot(store.objects, dir, m, visited, i, slots, s);
          if slots[s] == ZERO {
            continue;
          }
          visited := visited + [(p * PAGE_SLOTS + s, HexEncode(slots[s]))];
        }
      }
      SoundIsShaped(store.hash, store.objects, dir);
      VisitsAll(store.hash, store.objects, dir, visited);
    }
  }

  /** An entry with its page resident: cached and clean unless it was cached. */
  function Resident(objects: map<Digest, Object>, de: DirEntry): DirEntry
  {
    if de.cached.Some? then de
    else match PageOf(objects, de.pageHash)
         case Some(slots) => de.(cached := Some(Page(slots, de.pop, false)))
         case None => de
  }

  lemma {:induction false} IndexOf(dir: seq<DirEntry>, p: nat, n: nat)
    requires n <= |dir|
    requires forall i :: 0 <= i < n ==> dir[i].pageNum < p
    requires forall i :: n <= i < |dir| ==> dir[i].pageNum >= p
    ensures FindIndex(dir, p) == n
  {
    if n > 0 {
      IndexOf(dir[1..], p, n - 1);
    }
  }

  lemma SoundIsShaped(hash: HashFn, objects: map<Digest, Object>, dir: seq<DirEntry>)
    requires Sound(hash, objects, dir)
    ensures Shaped(objects, dir) && Sorted(dir)
    ensures forall i :: 0 <= i < |dir| ==> EntrySound(hash, objects, dir[i])
  {
  }

  /** Replacing an entry by one with the same slots keeps the map. */
  lemma ReplaceSame(hash: HashFn, objects: map<Digest, Object>, dir: seq<DirEntry>, i: nat, de: DirEntry)
    requires Sound(hash, objects, dir) && i < |dir|
    requires de.pageNum == dir[i].pageNum && EntrySound(hash, objects, de)
    requires SlotsOf(objects, de) == SlotsOf(objects, dir[i])
    ensures Sound(hash, objects, dir[i := de]) && MapOf(objects, dir[i := de]) == MapOf(objects, dir)
  {
    hide SlotsOf, EntrySound, PagesMap;
    ReplaceSamePages(objects, dir, i, de, |dir|);
  }

  lemma {:induction false} ReplaceSamePages(objects: map<Digest, Object>, dir: seq<DirEntry>, i: nat, de: DirEntry, n: nat)
    requires Shaped(objects, dir) && i < |dir| && n <= |dir| && de.pageNum == dir[i].pageNum
    requires SlotsOf(objects, de) == SlotsOf(objects, dir[i]) && Shaped(objects, dir[i := de])
    ensures PagesMap(objects, dir[i := de], n) == PagesMap(objects, dir, n)
  {
    hide SlotsOf, SlotMap;
    if n > 0 {
      ReplaceSamePages(objects, dir, i, de, n - 1);
    }
  }

  /** In a sound directory a page can always be made resident, and doing so
      changes nothing but the cache. */
  lemma ResidentIsSame(hash: HashFn, objects: map<Digest, Object>, dir: seq<DirEntry>, i: nat)
    requires Sound(hash, objects, dir) && Shaped(objects, dir) && i < |dir|
    ensures dir[i].cached.Some? || PageOf(objects, dir[i].pageHash).Some?
    ensures var dir2 := dir[i := Resident(objects, dir[i])];
            && Sound(hash, objects, dir2) && MapOf(objects, dir2) == MapOf(objects, dir)
            && dir2[i].cached.Some? && dir2[i].cached.value.slots == SlotsOf(objects, dir[i])
            && |SlotsOf(objects, dir[i])| == PAGE_SLOTS && dir2[i].pageNum == dir[i].pageNum && dir2[i].pop == dir[i].pop
            && EntrySound(hash, objects, dir2[i])
  {
    assert EntrySound(hash, objects, dir[i]);
    hide MapOf, Population, PageObject, Unflat, ZeroDigest;
    if dir[i].cached.None? {
      PageOfStored(hash, objects, SlotsOf(objects, dir[i]));
    }
    ReplaceSame(hash, objects, dir, i, Resident(objects, dir[i]));
  }

  /** Sound except that entry i may be a blank page no one has written yet. */
  predicate SoundBut(hash: HashFn, objects: map<Digest, Object>, dir: seq<DirEntry>, i: nat)
  {
    && Shaped(objects, dir) && i < |dir|
    && (forall j :: 0 <= j < |dir| && j != i ==> EntrySound(hash, objects, dir[j]))
    && dir[i].pageNum < PAGE_LIMIT
    && dir[i].pop == Population(SlotsOf(objects, dir[i]), PAGE_SLOTS)
    && (dir[i].cached.Some? ==> dir[i].cached.value.pop == dir[i].pop)
  }

  lemma SoundIsSoundBut(hash: HashFn, objects: map<Digest, Object>, dir: seq<DirEntry>, i: nat)
    requires Sound(hash, objects, dir) && i < |dir|
    ensures SoundBut(hash, objects, dir, i)
  {
    hide SlotsOf, Population, StoredPage;
    assert EntrySound(hash, objects, dir[i]);
  }

  lemma CachedFacts(hash: HashFn, objects: map<Digest, Object>, dir: seq<DirEntry>, i: nat)
    requires SoundBut(hash, objects, dir, i) && dir[i].cached.Some?
    ensures SlotsOf(objects, dir[i]) == dir[i].cached.value.slots && |dir[i].cached.value.slots| == PAGE_SLOTS
    ensures dir[i].pop == dir[i].cached.value.pop == Population(dir[i].cached.value.slots, PAGE_SLOTS)
    ensures Shaped(objects, dir)
  {
    hide Population;
  }

  lemma BlankFacts(objects: map<Digest, Object>, p: nat)
    ensures var de := DirEntry(p, ZERO, 0, None);
            SlotsOf(objects, de) == EmptySlots() && Population(EmptySlots(), PAGE_SLOTS) == 0
  {
    PopulationZero(EmptySlots(), PAGE_SLOTS);
  }

  lemma BlankInsert(hash: HashFn, objects: map<Digest, Object>, dir: seq<DirEntry>, p: nat)
    requires Sound(hash, objects, dir) && Shaped(objects, dir) && !HasPage(dir, p) && p < PAGE_LIMIT
    ensures var pos := FindIndex(dir, p); var dir2 := dir[..pos] + [DirEntry(p, ZERO, 0, None)] + dir[pos..];
            SoundBut(hash, objects, dir2, pos) && Shaped(objects, dir2) && MapOf(objects, dir2) == MapOf(objects, dir)
  {
    hide MapOf, FindIndex, SlotsOf, EntrySound, Population, Shaped, EmptySlots, ZeroDigest, HasPage;
    BlankFacts(objects, p);
    InsertEmpty(objects, dir, DirEntry(p, ZERO, 0, None));
    var pos := FindIndex(dir, p);
    var dir2 := dir[..pos] + [DirEntry(p, ZERO, 0, None)] + dir[pos..];
    forall j | 0 <= j < |dir2| && j != pos
      ensures EntrySound(hash, objects, dir2[j])
    {
      assert dir2[j] == dir[if j < pos then j else j - 1];
    }
  }

  lemma UncachedIsNew(hash: HashFn, objects: map<Digest, Object>, dir: seq<DirEntry>, i: nat)
    requires i < |dir| && dir[i].cached.None? && dir[i].pageHash == ZERO
    ensures !Sound(hash, objects, dir)
  {
    hide SlotsOf, Population, StoredPage, Shaped;
    assert !EntrySound(hash, objects, dir[i]);
  }

  /** Giving a new entry its blank page keeps what the directory denotes. */
  lemma BlankResident(hash: HashFn, objects: map<Digest, Object>, dir: seq<DirEntry>, i: nat)
    requires i < |dir| && dir[i].pop == 0 && dir[i].pageHash == ZERO && dir[i].cached.None?
    requires SoundBut(hash, objects, dir, i) && Shaped(objects, dir)
    ensures var dir2 := dir[i := dir[i].(cached := Some(Page(EmptySlots(), 0, false)))];
            SoundBut(hash, objects, dir2, i) && Shaped(objects, dir2) && MapOf(objects, dir2) == MapOf(objects, dir)
  {
    var de := dir[i].(cached := Some(Page(EmptySlots(), 0, false)));
    assert SlotsOf(objects, de) == SlotsOf(objects, dir[i]) == EmptySlots();
    hide SlotsOf, EntrySound, PagesMap, Population;
    ReplaceSamePages(objects, dir, i, de, |dir|);
  }

  /** Writing one slot of a resident page and marking it dirty: the directory is
      sound again exactly when the counts were adjusted to match. */
  lemma EditCached(hash: HashFn, objects: map<Digest, Object>, dir: seq<DirEntry>, i: nat, de: DirEntry, s: nat, d: Digest)
    requires SoundBut(hash, objects, dir, i) && Shaped(objects, dir) && dir[i].cached.Some? && s < PAGE_SLOTS
    requires de.pageNum == dir[i].pageNum && de.cached.Some? && de.cached.value.dirty
    requires de.cached.value.pop == de.pop && |dir[i].cached.value.slots| == PAGE_SLOTS
    requires de.cached.value.slots == dir[i].cached.value.slots[s := d]
    ensures Shaped(objects, dir[i := de])
    ensures Sound(hash, objects, dir[i := de]) <==>
              de.pop == dir[i].pop + (if d != ZERO then 1 else 0) - (if dir[i].cached.value.slots[s] != ZERO then 1 else 0)
    ensures var id := dir[i].pageNum * PAGE_SLOTS + s;
            MapOf(objects, dir[i := de]) == if d == ZERO then MapOf(objects, dir) - {id} else MapOf(objects, dir)[id := d]
  {
    assert SlotsOf(objects, de) == de.cached.value.slots;
    CachedFacts(hash, objects, dir, i);
    hide MapOf, SlotsOf, ZeroDigest, Population;
    PopulationUpdate(dir[i].cached.value.slots, PAGE_SLOTS, s, d);
    EditSlot(objects, dir, i, de, s, d);
    SoundFromEntries(hash, objects, dir, i, de);
  }

  lemma SoundFromEntries(hash: HashFn, objects: map<Digest, Object>, dir: seq<DirEntry>, i: nat, de: DirEntry)
    requires SoundBut(hash, objects, dir, i) && Shaped(objects, dir[i := de])
    ensures Sound(hash, objects, dir[i := de]) <==> EntrySound(hash, objects, de)
  {
    hide EntrySound, SlotsOf, Population;
    var dir2 := dir[i := de];
    assert dir2[i] == de;
    assert forall j :: 0 <= j < |dir| && j != i ==> dir2[j] == dir[j];
  }

  // ------------------------------------------------------------------
  // Snapshots
  // ------------------------------------------------------------------

  /** Every page the map fills is one of the objects of U. */
  ghost predicate PagesIn(U: iset<Object>, m: Map)
  {
    forall p :: 0 <= p < PAGE_LIMIT ==> PageObject(CanonSlots(m, p)) in U
  }

  predicate AllClean(dir: seq<DirEntry>)
  {
    forall i :: 0 <= i < |dir| ==> dir[i].cached.None? || !dir[i].cached.value.dirty
  }

  lemma CleanFacts(hash: HashFn, objects: map<Digest, Object>, dir: seq<DirEntry>, i: nat)
    requires Sound(hash, objects, dir) && AllClean(dir) && i < |dir|
    ensures EntrySound(hash, objects, dir[i])
    ensures dir[i].pageHash == hash(PageObject(SlotsOf(objects, dir[i]))) && dir[i].pageHash != ZERO
    ensures StoredPage(hash, objects, SlotsOf(objects, dir[i]))
  {
    assert EntrySound(hash, objects, dir[i]);
    hide SlotsOf, Population, StoredPage, ZeroDigest;
  }

  lemma PutKeepsHonest(hash: HashFn, before: map<Digest, Object>, after: map<Digest, Object>, U: iset<Object>, o: Object)
    requires Honest(hash, before, U) && o in U
    requires after == if hash(o) in before then before else before[hash(o) := o]
    ensures Honest(hash, after, U) && Grows(before, after)
    ensures hash(o) in after && after[hash(o)] == o && hash(o) != ZERO
  {
    hide ZeroDigest;
  }

  /** A resident page is one of the pages the map fills. */
  lemma PageIsInU(hash: HashFn, objects: map<Digest, Object>, dir: seq<DirEntry>, i: nat, U: iset<Object>)
    requires Sound(hash, objects, dir) && Shaped(objects, dir) && i < |dir| && PagesIn(U, MapOf(objects, dir))
    ensures PageObject(SlotsOf(objects, dir[i])) in U
    ensures dir[i].cached.Some? ==> dir[i].cached.value.slots == SlotsOf(objects, dir[i])
  {
    assert EntrySound(hash, objects, dir[i]);
    assert dir[i].cached.Some? ==> dir[i].cached.value.slots == SlotsOf(objects, dir[i]);
    hide SlotsOf, MapOf, Population, PageObject, StoredPage, FindIndex;
    FindUnique(dir, i);
    CanonSlotsOf(objects, dir, dir[i].pageNum);
  }

  lemma FlushEntry(hash: HashFn, objects: map<Digest, Object>, dir: seq<DirEntry>, i: nat)
    requires Sound(hash, objects, dir) && Shaped(objects, dir) && i < |dir| && dir[i].cached.Some?
    requires var slots := dir[i].cached.value.slots; StoredPage(hash, objects, slots) && hash(PageObject(slots)) != ZERO
    ensures var pg := dir[i].cached.value;
            var de := DirEntry(dir[i].pageNum, hash(PageObject(pg.slots)), pg.pop, Some(pg.(dirty := false)));
            && Sound(hash, objects, dir[i := de]) && MapOf(objects, dir[i := de]) == MapOf(objects, dir)
            && de.pageHash == hash(PageObject(SlotsOf(objects, de)))
  {
    assert EntrySound(hash, objects, dir[i]);
    var pg := dir[i].cached.value;
    var de := DirEntry(dir[i].pageNum, hash(PageObject(pg.slots)), pg.pop, Some(pg.(dirty := false)));
    assert SlotsOf(objects, de) == SlotsOf(objects, dir[i]);
    hide MapOf, Population, PageObject;
    assert EntrySound(hash, objects, de);
    ReplaceSame(hash, objects, dir, i, de);
  }

  lemma LiveNone(dir: seq<DirEntry>)
    ensures Live(dir, 0) == []
  {
  }

  lemma LiveStep(dir: seq<DirEntry>, i: nat)
    requires i < |dir|
    ensures Live(dir, i + 1) == if dir[i].pop == 0 then Live(dir, i) else Live(dir, i) + [dir[i].(cached := None)]
  {
  }

  lemma EntriesBytesAppend(es: seq<DirEntry>, de: DirEntry)
    ensures EntriesBytes(es + [de.(cached := None)]) == EntriesBytes(es) + EntryBytes(de)
  {
    assert (es + [de.(cached := None)])[..|es|] == es;
  }

  lemma NoEntriesBytes()
    ensures EntriesBytes([]) == []
  {
  }

  lemma CleanLiveIsCanon(hash: HashFn, objects: map<Digest, Object>, dir: seq<DirEntry>)
    requires Sound(hash, objects, dir) && Shaped(objects, dir) && AllClean(dir)
    ensures Live(dir, |dir|) == CanonEntries(hash, MapOf(objects, dir), PAGE_LIMIT)
    ensures RootObject(Live(dir, |dir|)) == CanonRoot(hash, MapOf(objects, dir))
  {
    hide SlotsOf, MapOf, Live, CanonEntries, Sound, Shaped, RootObject, AllClean, StoredPage, Population;
    forall i | 0 <= i < |dir|
      ensures dir[i].pageNum < PAGE_LIMIT && dir[i].pageHash == hash(PageObject(SlotsOf(objects, dir[i])))
    {
      CleanFacts(hash, objects, dir, i);
    }
    LiveIsCanon(hash, objects, dir, |dir|, PAGE_LIMIT);
  }

  lemma {:induction false} LiveOrder(dir: seq<DirEntry>, n: nat)
    requires Sorted(dir) && 0 < n <= |dir|
    ensures forall i :: 0 <= i < |Live(dir, n)| ==> Live(dir, n)[i].pageNum <= dir[n - 1].pageNum && Live(dir, n)[i].cached == None
  {
    if n > 1 {
      LiveOrder(dir, n - 1);
    } else {
      LiveNone(dir);
    }
  }

  lemma LiveKeepsPage(hash: HashFn, objects: map<Digest, Object>, dir: seq<DirEntry>, n: nat)
    requires Sound(hash, objects, dir) && Shaped(objects, dir) && AllClean(dir) && 0 < n <= |dir| && dir[n - 1].pop != 0
    requires Sound(hash, objects, Live(dir, n - 1)) && Shaped(objects, Live(dir, n - 1))
    ensures Sound(hash, objects, Live(dir, n)) && Shaped(objects, Live(dir, n)) && |SlotsOf(objects, dir[n - 1])| == PAGE_SLOTS
    ensures PagesMap(objects, Live(dir, n), |Live(dir, n)|)
            == PagesMap(objects, Live(dir, n - 1), |Live(dir, n - 1)|) + PageMap(objects, dir[n - 1])
  {
    hide *;
    var de, es := dir[n - 1], Live(dir, n - 1);
    SoundIsShaped(hash, objects, dir);
    CleanFacts(hash, objects, dir, n - 1);
    LiveStep(dir, n - 1);
    BareIsSame(hash, objects, de);
    if n > 1 {
      LiveOrder(dir, n - 1);
    } else {
      LiveNone(dir);
    }
    BeforeNext(dir, n);
    AppendPage(hash, objects, es, de.(cached := None));
    SamePageMap(objects, de);
  }

  /** Dropping the empty pages and the cache keeps the directory sound and the
      map the same. */
  lemma {:induction false} LiveKeepsMap(hash: HashFn, objects: map<Digest, Object>, dir: seq<DirEntry>, n: nat)
    requires Sound(hash, objects, dir) && Shaped(objects, dir) && AllClean(dir) && n <= |dir|
    ensures Sound(hash, objects, Live(dir, n)) && Shaped(objects, Live(dir, n))
    ensures PagesMap(objects, Live(dir, n), |Live(dir, n)|) == PagesMap(objects, dir, n)
  {
    hide *;
    PagesMapStep(hash, objects, dir, n);
    if n == 0 {
      LiveNone(dir);
      EmptyDirectory(hash, objects);
    } else {
      LiveKeepsMap(hash, objects, dir, n - 1);
      if dir[n - 1].pop == 0 {
        LiveStep(dir, n - 1);
        PageMapSize(hash, objects, dir[n - 1]);
        AddEmpty(PagesMap(objects, dir, n - 1), PageMap(objects, dir[n - 1]));
      } else {
        LiveKeepsPage(hash, objects, dir, n);
      }
    }
  }

  lemma EmptyDirectory(hash: HashFn, objects: map<Digest, Object>)
    ensures Sound(hash, objects, []) && Shaped(objects, []) && PagesMap(objects, [], 0) == map[]
  {
  }

  lemma AddEmpty(a: Map, b: Map)
    requires |b| == 0
    ensures a + b == a
  {
  }

  lemma BeforeNext(dir: seq<DirEntry>, n: nat)
    requires Sorted(dir) && 0 < n <= |dir|
    ensures n > 1 ==> dir[n - 2].pageNum < dir[n - 1].pageNum
  {
  }

  lemma SamePageMap(objects: map<Digest, Object>, de: DirEntry)
    requires |SlotsOf(objects, de)| == PAGE_SLOTS && SlotsOf(objects, de.(cached := None)) == SlotsOf(objects, de)
    ensures PageMap(objects, de.(cached := None)) == PageMap(objects, de)
  {
    hide SlotsOf, SlotMap;
  }

  lemma BareIsSame(hash: HashFn, objects: map<Digest, Object>, de: DirEntry)
    requires EntrySound(hash, objects, de) && de.pageHash == hash(PageObject(SlotsOf(objects, de))) && de.pageHash != ZERO
    requires StoredPage(hash, objects, SlotsOf(objects, de))
    ensures EntrySound(hash, objects, de.(cached := None))
    ensures SlotsOf(objects, de.(cached := None)) == SlotsOf(objects, de)
  {
    hide Population, Unflat, Flat, ZeroDigest;
    PageOfStored(hash, objects, SlotsOf(objects, de));
  }

  lemma AppendPage(hash: HashFn, objects: map<Digest, Object>, es: seq<DirEntry>, de: DirEntry)
    requires Sound(hash, objects, es) && Shaped(objects, es) && EntrySound(hash, objects, de)
    requires forall i :: 0 <= i < |es| ==> es[i].pageNum < de.pageNum
    ensures Sound(hash, objects, es + [de]) && Shaped(objects, es + [de])
    ensures |SlotsOf(objects, de)| == PAGE_SLOTS
    ensures PagesMap(objects, es + [de], |es| + 1) == PagesMap(objects, es, |es|) + PageMap(objects, de)
  {
    hide SlotsOf, Population, StoredPage, PageMap;
    PagesMapPrefix(objects, es, de, |es|);
  }

  lemma {:induction false} PagesMapPrefix(objects: map<Digest, Object>, es: seq<DirEntry>, de: DirEntry, n: nat)
    requires Shaped(objects, es) && Shaped(objects, es + [de]) && n <= |es|
    ensures PagesMap(objects, es + [de], n) == PagesMap(objects, es, n)
  {
    hide SlotsOf, PageMap;
    if n > 0 {
      PagesMapPrefix(objects, es, de, n - 1);
    }
  }

  lemma LiveIsSnapshot(hash: HashFn, objects: map<Digest, Object>, dir: seq<DirEntry>, root: Digest)
    requires Sound(hash, objects, dir) && Shaped(objects, dir) && AllClean(dir)
    requires root in objects && objects[root] == RootObject(Live(dir, |dir|)) && |Live(dir, |dir|)| < U32
    ensures IsSnapshot(hash, objects, root, MapOf(objects, dir))
  {
    LiveKeepsMap(hash, objects, dir, |dir|);
    var es := Live(dir, |dir|);
    if es != [] {
      LiveNone(dir);
      LiveOrder(dir, |dir|);
    }
    forall i | 0 <= i < |es|
      ensures es[i].pageNum < PAGE_LIMIT && es[i].pop <= PAGE_SLOTS && es[i].cached == None
    {
      assert EntrySound(hash, objects, es[i]);
    }
    hide SlotsOf, Live, RootObject, DecodeRoot, PagesMap, Population;
    DecodeOfRoot(es);
  }

  // ------------------------------------------------------------------
  // Allocation
  // ------------------------------------------------------------------

  lemma AbsentIsFree(objects: map<Digest, Object>, dir: seq<DirEntry>, id: nat)
    requires Shaped(objects, dir) && !HasPage(dir, id / PAGE_SLOTS)
    ensures id !in MapOf(objects, dir)
  {
    hide MapOf, FindIndex, ZeroDigest;
    MapIs(objects, dir, id);
  }

  /** m maps the ids of page p exactly where its slots are filled. */
  predicate PageIs(m: Map, p: nat, slots: seq<Digest>)
  {
    && |slots| == PAGE_SLOTS
    && forall s :: 0 <= s < PAGE_SLOTS ==> (slots[s] != ZERO <==> p * PAGE_SLOTS + s in m)
  }

  /** Where the search stands: everything before id has been found mapped, from
      start on or, once it has wrapped, from 0 on. */
  ghost predicate Searched(m: Map, start: nat, end: nat, id: nat, wrapped: bool)
  {
    && (id == start || id % PAGE_SLOTS == 0)
    && (!wrapped ==> start <= id && forall k: nat :: start <= k < id ==> k in m)
    && (wrapped ==> Wraps(m, start, end) && id % PAGE_SLOTS == 0 && forall k: nat :: k < id ==> k in m)
  }

  lemma SearchStarts(m: Map, start: nat, end: nat)
    ensures Searched(m, start, end, start, false)
  {
  }

  lemma PageTail(m: Map, p: nat, slots: seq<Digest>, first: nat, stop: nat)
    requires PageIs(m, p, slots) && first <= stop <= PAGE_SLOTS
    requires forall s :: first <= s < stop ==> slots[s] != ZERO
    ensures forall k: nat :: p * PAGE_SLOTS + first <= k < p * PAGE_SLOTS + stop ==> k in m
  {
    forall k: nat | p * PAGE_SLOTS + first <= k < p * PAGE_SLOTS + stop
      ensures k in m
    {
      var s := k - p * PAGE_SLOTS;
      assert slots[s] != ZERO;
      assert p * PAGE_SLOTS + s == k;
    }
  }

  /** Passing over the rest of a page that is all used keeps the search state,
      with or without the wrap at the last page. */
  lemma SearchPasses(m: Map, start: nat, end: nat, id: nat, wrapped: bool, slots: seq<Digest>, n: nat)
    requires Searched(m, start, end, id, wrapped) && PageIs(m, id / PAGE_SLOTS, slots)
    requires id < end < ID_LIMIT && |slots| == PAGE_SLOTS
    ensures var p := id / PAGE_SLOTS; var full := forall s :: 0 <= s < PAGE_SLOTS ==> slots[s] != ZERO;
            && ((forall s :: id % PAGE_SLOTS <= s < PAGE_SLOTS ==> slots[s] != ZERO) ==>
                  Searched(m, start, end, (p + 1) * PAGE_SLOTS, wrapped))
            && (full && p == PAGE_LIMIT - 1 && !wrapped ==> Searched(m, start, end, 0, true))
            && (p < PAGE_LIMIT - 1 ==> (p + 1) * PAGE_SLOTS % ID_LIMIT == (p + 1) * PAGE_SLOTS)
            && (p == PAGE_LIMIT - 1 ==> (p + 1) * PAGE_SLOTS % ID_LIMIT == 0)
            && p < PAGE_LIMIT
  {
    hide ZeroDigest, PageIs;
    var p := id / PAGE_SLOTS;
    if forall s :: id % PAGE_SLOTS <= s < PAGE_SLOTS ==> slots[s] != ZERO {
      PageTail(m, p, slots, id % PAGE_SLOTS, PAGE_SLOTS);
    }
    if (forall s :: 0 <= s < PAGE_SLOTS ==> slots[s] != ZERO) && p == PAGE_LIMIT - 1 && !wrapped {
      PageTail(m, p, slots, 0, PAGE_SLOTS);
      WrapStarts(m, start, end, id);
    }
  }

  /** While some id is free not every page is full, so the search wraps at most
      once. */
  lemma NoSecondWrap(m: Map, start: nat, end: nat, id: nat, wrapped: bool)
    requires Searched(m, start, end, id, wrapped) && HasFree(m)
    ensures wrapped ==> id / PAGE_SLOTS < PAGE_LIMIT - 1
  {
    var k: nat :| k < ID_LIMIT && k !in m;
    if wrapped {
      assert id <= k < LAST_PAGE;
    }
  }

  lemma SearchHits(m: Map, start: nat, end: nat, id: nat, wrapped: bool, slots: seq<Digest>, candidate: nat)
    requires Searched(m, start, end, id, wrapped) && PageIs(m, id / PAGE_SLOTS, slots)
    requires id <= candidate < end < ID_LIMIT && candidate < id / PAGE_SLOTS * PAGE_SLOTS + PAGE_SLOTS
    requires slots[candidate - id / PAGE_SLOTS * PAGE_SLOTS] == ZERO
    requires forall s :: id % PAGE_SLOTS <= s < candidate - id / PAGE_SLOTS * PAGE_SLOTS ==> slots[s] != ZERO
    ensures Allocated(m, start, end) == Some(candidate)
  {
    hide ZeroDigest, Wraps, Allocated;
    var p := id / PAGE_SLOTS;
    PageTail(m, p, slots, id % PAGE_SLOTS, candidate - p * PAGE_SLOTS);
    assert p * PAGE_SLOTS + (candidate - p * PAGE_SLOTS) == candidate;
    LeastFound(m, start, end, candidate, wrapped);
  }

  lemma SearchEnds(m: Map, start: nat, end: nat, id: nat, wrapped: bool, slots: seq<Digest>, candidate: nat)
    requires Searched(m, start, end, id, wrapped) && PageIs(m, id / PAGE_SLOTS, slots)
    requires id < end <= candidate < id / PAGE_SLOTS * PAGE_SLOTS + PAGE_SLOTS && id < ID_LIMIT
    requires forall s :: id % PAGE_SLOTS <= s < candidate - id / PAGE_SLOTS * PAGE_SLOTS ==> slots[s] != ZERO
    requires exists s :: 0 <= s < PAGE_SLOTS && slots[s] == ZERO
    ensures Allocated(m, start, end) == None
  {
    hide ZeroDigest, Wraps, Allocated;
    var p := id / PAGE_SLOTS;
    PageTail(m, p, slots, id % PAGE_SLOTS, candidate - p * PAGE_SLOTS);
    var s :| 0 <= s < PAGE_SLOTS && slots[s] == ZERO;
    NothingFree(m, start, end, candidate, wrapped, p * PAGE_SLOTS + s);
  }

  lemma SearchExits(m: Map, start: nat, end: nat, id: nat, wrapped: bool)
    requires Searched(m, start, end, id, wrapped) && end <= id < ID_LIMIT
    ensures Allocated(m, start, end) == None
  {
    hide Allocated;
    NothingFree(m, start, end, id, wrapped, ID_LIMIT);
  }

  /** Which ids of a page present in the directory are mapped. */
  lemma PageContents(hash: HashFn, objects: map<Digest, Object>, dir: seq<DirEntry>, i: nat)
    requires Sound(hash, objects, dir) && Shaped(objects, dir) && i < |dir|
    ensures dir[i].pageNum < PAGE_LIMIT && |SlotsOf(objects, dir[i])| == PAGE_SLOTS
    ensures PageIs(MapOf(objects, dir), dir[i].pageNum, SlotsOf(objects, dir[i]))
    ensures dir[i].pop == PAGE_SLOTS <==> forall s :: 0 <= s < PAGE_SLOTS ==> SlotsOf(objects, dir[i])[s] != ZERO
  {
    EntryFacts(hash, objects, dir, i);
    hide *;
    PageFills(objects, dir, i);
    PopulationZero(SlotsOf(objects, dir[i]), PAGE_SLOTS);
  }

  lemma PageFills(objects: map<Digest, Object>, dir: seq<DirEntry>, i: nat)
    requires Shaped(objects, dir) && i < |dir| && |SlotsOf(objects, dir[i])| == PAGE_SLOTS
    ensures PageIs(MapOf(objects, dir), dir[i].pageNum, SlotsOf(objects, dir[i]))
  {
    hide MapOf, FindIndex, ZeroDigest, SlotsOf, SlotAt, Shaped;
    forall s | 0 <= s < PAGE_SLOTS
      ensures SlotsOf(objects, dir[i])[s] != ZERO <==> dir[i].pageNum * PAGE_SLOTS + s in MapOf(objects, dir)
    {
      var id := dir[i].pageNum * PAGE_SLOTS + s;
      PageRange(id, dir[i].pageNum);
      MapIs(objects, dir, id);
      SlotAtEntry(objects, dir, i, id);
    }
  }

  lemma EntryFacts(hash: HashFn, objects: map<Digest, Object>, dir: seq<DirEntry>, i: nat)
    requires Sound(hash, objects, dir) && i < |dir|
    ensures dir[i].pageNum < PAGE_LIMIT && |SlotsOf(objects, dir[i])| == PAGE_SLOTS
    ensures dir[i].pop == Population(SlotsOf(objects, dir[i]), PAGE_SLOTS)
  {
    hide SlotsOf, Population, StoredPage, ZeroDigest;
    assert EntrySound(hash, objects, dir[i]);
  }

  lemma LeastFound(m: Map, start: nat, end: nat, id: nat, wrapped: bool)
    requires id !in m && id < end < ID_LIMIT
    requires !wrapped ==> start <= id && forall k: nat :: start <= k < id ==> k in m
    requires wrapped ==> Wraps(m, start, end) && forall k: nat :: k < id ==> k in m
    ensures Allocated(m, start, end) == Some(id)
  {
    hide LeastFree;
    if wrapped {
      LeastFreeUnique(m, 0, ID_LIMIT, id);
    } else {
      LeastFreeUnique(m, start, end, id);
    }
  }

  lemma FoundFree(m: Map, start: nat, end: nat, id: nat, wrapped: bool)
    requires id !in m && id < end < ID_LIMIT && Searched(m, start, end, id, wrapped)
    ensures Allocated(m, start, end) == Some(id)
  {
    hide Allocated, Wraps;
    LeastFound(m, start, end, id, wrapped);
  }

  lemma NothingFree(m: Map, start: nat, end: nat, id: nat, wrapped: bool, gap: nat)
    requires end <= id && (wrapped ==> Wraps(m, start, end))
    requires !wrapped ==> forall k: nat :: start <= k < id ==> k in m
    requires start < end && end > LAST_PAGE ==> LAST_PAGE <= gap < ID_LIMIT && gap !in m
    ensures Allocated(m, start, end) == None
  {
    hide LeastFree;
    if start < end && end > LAST_PAGE {
      assert LeastFree(m, LAST_PAGE, ID_LIMIT).Some?;
    }
    if !wrapped {
      NoneFree(m, start, end);
    }
  }

  lemma NextPage(p: nat, end: nat)
    requires (p + 1) * PAGE_SLOTS <= end < ID_LIMIT
    ensures (p + 1) * PAGE_SLOTS % ID_LIMIT == (p + 1) * PAGE_SLOTS && p < PAGE_LIMIT - 1
  {
  }

  datatype Scan = Hit(id: nat) | PastEnd(id: nat) | AllUsed

  /** The slot loop of cas_omap_alloc over one page. */
  method ScanPage(slots: seq<Digest>, base: nat, first: nat, end: nat) returns (r: Scan)
    requires |slots| == PAGE_SLOTS && first < PAGE_SLOTS && base + first < end
    ensures r.Hit? ==> base + first <= r.id < end && r.id < base + PAGE_SLOTS && slots[r.id - base] == ZERO
    ensures r.PastEnd? ==> base + first <= end <= r.id < base + PAGE_SLOTS
    ensures r.AllUsed? ==> base + PAGE_SLOTS <= end
    ensures var stop := if r.AllUsed? then PAGE_SLOTS else r.id - base; forall s :: first <= s < stop ==> slots[s] != ZERO
  {
    hide ZeroDigest;
    for s := first to PAGE_SLOTS
      invariant base + s <= end
      invariant forall t :: first <= t < s ==> slots[t] != ZERO
    {
      if base + s >= end {
        return PastEnd(base + s);
      }
      if slots[s] == ZERO {
        return Hit(base + s);
      }
    }
    return AllUsed;
  }

  lemma WrapStarts(m: Map, start: nat, end: nat, id: nat)
    requires start <= id < end < ID_LIMIT && id >= LAST_PAGE
    requires forall k: nat :: start <= k < id ==> k in m
    requires forall k: nat :: LAST_PAGE <= k < ID_LIMIT ==> k in m
    ensures Wraps(m, start, end)
  {
    hide LeastFree;
    NoneFree(m, start, end);
    NoneFree(m, LAST_PAGE, ID_LIMIT);
  }

  // ------------------------------------------------------------------
  // Iteration
  // ------------------------------------------------------------------

  /** The calls made so far: ascending ids below the bound, each mapped one
      exactly once, each with the hex of its digest. */
  predicate VisitsBelow(m: Map, visited: seq<(nat, seq<byte>)>, bound: nat)
  {
    && (forall i, j :: 0 <= i < j < |visited| ==> visited[i].0 < visited[j].0)
    && (forall i :: 0 <= i < |visited| ==>
          visited[i].0 < bound && visited[i].0 in m && visited[i].1 == HexEncode(m[visited[i].0]))
    && (forall id | id in m :: id < bound ==> id in Ids(visited))
  }

  function Ids(visited: seq<(nat, seq<byte>)>): set<nat>
  {
    set i | 0 <= i < |visited| :: visited[i].0
  }

  /** One past the last id of the page before entry i. */
  function PageBound(dir: seq<DirEntry>, i: nat): nat
    requires i <= |dir|
  {
    if i == 0 then 0 else (dir[i - 1].pageNum + 1) * PAGE_SLOTS
  }

  lemma CachedSlots(objects: map<Digest, Object>, de: DirEntry)
    ensures de.cached.Some? ==> SlotsOf(objects, de) == de.cached.value.slots
  {
  }

  lemma VisitsNothing(m: Map)
    ensures VisitsBelow(m, [], 0)
  {
  }

  lemma VisitsExtend(m: Map, visited: seq<(nat, seq<byte>)>, bound: nat, later: nat)
    requires VisitsBelow(m, visited, bound) && bound <= later
    requires forall id: nat :: bound <= id < later ==> id !in m
    ensures VisitsBelow(m, visited, later)
  {
    hide HexEncode, Ids;
  }

  /** No id lies between two consecutive pages. */
  lemma VisitsUpTo(objects: map<Digest, Object>, dir: seq<DirEntry>, visited: seq<(nat, seq<byte>)>, i: nat)
    requires Shaped(objects, dir) && i < |dir| && VisitsBelow(MapOf(objects, dir), visited, PageBound(dir, i))
    ensures VisitsBelow(MapOf(objects, dir), visited, dir[i].pageNum * PAGE_SLOTS)
  {
    hide MapOf, VisitsBelow, ZeroDigest, SlotsOf, FindIndex;
    forall id: nat | PageBound(dir, i) <= id < dir[i].pageNum * PAGE_SLOTS
      ensures id !in MapOf(objects, dir)
    {
      MapIs(objects, dir, id);
      var p := id / PAGE_SLOTS;
      assert p < dir[i].pageNum && (i > 0 ==> dir[i - 1].pageNum < p);
      assert forall j :: 0 <= j < |dir| ==> dir[j].pageNum != p;
    }
    VisitsExtend(MapOf(objects, dir), visited, PageBound(dir, i), dir[i].pageNum * PAGE_SLOTS);
  }

  lemma VisitsEmptyPage(m: Map, visited: seq<(nat, seq<byte>)>, p: nat, slots: seq<Digest>)
    requires VisitsBelow(m, visited, p * PAGE_SLOTS) && PageIs(m, p, slots)
    requires forall s :: 0 <= s < PAGE_SLOTS ==> slots[s] == ZERO
    ensures VisitsBelow(m, visited, (p + 1) * PAGE_SLOTS)
  {
    hide VisitsBelow, ZeroDigest;
    forall id: nat | p * PAGE_SLOTS <= id < (p + 1) * PAGE_SLOTS
      ensures id !in m
    {
      assert slots[id - p * PAGE_SLOTS] == ZERO;
      assert p * PAGE_SLOTS + (id - p * PAGE_SLOTS) == id;
    }
    VisitsExtend(m, visited, p * PAGE_SLOTS, (p + 1) * PAGE_SLOTS);
  }

  lemma VisitsSlot(objects: map<Digest, Object>, dir: seq<DirEntry>, m: Map, visited: seq<(nat, seq<byte>)>, i: nat,
                   slots: seq<Digest>, s: nat)
    requires Shaped(objects, dir) && m == MapOf(objects, dir) && i < |dir| && s < PAGE_SLOTS
    requires slots == SlotsOf(objects, dir[i]) && |slots| == PAGE_SLOTS
    requires VisitsBelow(m, visited, dir[i].pageNum * PAGE_SLOTS + s)
    ensures var id := dir[i].pageNum * PAGE_SLOTS + s;
            VisitsBelow(m, if slots[s] == ZERO then visited else visited + [(id, HexEncode(slots[s]))], id + 1)
  {
    hide MapOf, HexEncode, ZeroDigest, SlotsOf, FindIndex, SlotAt, Shaped, VisitsBelow;
    var id := dir[i].pageNum * PAGE_SLOTS + s;
    PageRange(id, dir[i].pageNum);
    MapIs(objects, dir, id);
    SlotAtEntry(objects, dir, i, id);
    if slots[s] == ZERO {
      VisitsExtend(m, visited, id, id + 1);
    } else {
      VisitsAppend(m, visited, id);
    }
  }

  lemma VisitsAppend(m: Map, visited: seq<(nat, seq<byte>)>, id: nat)
    requires VisitsBelow(m, visited, id) && id in m
    ensures VisitsBelow(m, visited + [(id, HexEncode(m[id]))], id + 1)
  {
    hide HexEncode;
    var v := visited + [(id, HexEncode(m[id]))];
    assert v[|visited|].0 == id;
    forall k | k in Ids(visited)
      ensures k in Ids(v)
    {
      var j :| 0 <= j < |visited| && visited[j].0 == k;
      assert v[j].0 == k;
    }
  }

  lemma VisitsAll(hash: HashFn, objects: map<Digest, Object>, dir: seq<DirEntry>, visited: seq<(nat, seq<byte>)>)
    requires Sound(hash, objects, dir) && Shaped(objects, dir)
    requires VisitsBelow(MapOf(objects, dir), visited, PageBound(dir, |dir|))
    ensures VisitsBelow(MapOf(objects, dir), visited, ID_LIMIT)
    ensures forall id: nat :: id in MapOf(objects, dir) ==> id < ID_LIMIT
  {
    hide MapOf, VisitsBelow, ZeroDigest, SlotsOf, FindIndex, EntrySound;
    forall id: nat | id in MapOf(objects, dir)
      ensures id < PageBound(dir, |dir|) && id < ID_LIMIT
    {
      MapIs(objects, dir, id);
      var k := FindIndex(dir, id / PAGE_SLOTS);
      EntryFacts(hash, objects, dir, k);
      assert k < |dir| - 1 ==> dir[k].pageNum < dir[|dir| - 1].pageNum;
    }
    if dir != [] {
      EntryFacts(hash, objects, dir, |dir| - 1);
    }
    VisitsExtend(MapOf(objects, dir), visited, PageBound(dir, |dir|), ID_LIMIT);
  }

  /** What a map holds below a bound, in ascending order of ids. */
  function Listed(m: Map, bound: nat): seq<(nat, seq<byte>)>
  {
    if bound == 0 then []
    else Listed(m, bound - 1) + if bound - 1 in m then [(bound - 1, HexEncode(m[bound - 1]))] else []
  }

  /** The calls made are determined by the map. */
  lemma {:induction false} VisitsAreListed(m: Map, visited: seq<(nat, seq<byte>)>, bound: nat)
    requires VisitsBelow(m, visited, bound)
    ensures visited == Listed(m, bound)
    decreases bound
  {
    hide HexEncode, VisitsBelow;
    if bound == 0 {
      FewVisits(m, visited, bound, |visited|);
    } else if bound - 1 in m {
      DropLastVisit(m, visited, bound);
      var n := |visited| - 1;
      VisitsAreListed(m, visited[..n], bound - 1);
      assert visited == visited[..n] + [visited[n]];
    } else {
      NoLastVisit(m, visited, bound);
      VisitsAreListed(m, visited, bound - 1);
    }
  }

  lemma {:induction false} FewVisits(m: Map, visited: seq<(nat, seq<byte>)>, bound: nat, n: nat)
    requires VisitsBelow(m, visited, bound) && n <= |visited|
    ensures n <= bound && (n > 0 ==> visited[n - 1].0 >= n - 1)
    decreases n
  {
    hide HexEncode;
    if n > 0 {
      FewVisits(m, visited, bound, n - 1);
      assert n > 1 ==> visited[n - 2].0 < visited[n - 1].0;
      assert visited[n - 1].1 == HexEncode(m[visited[n - 1].0]);
    }
  }

  lemma NoLastVisit(m: Map, visited: seq<(nat, seq<byte>)>, bound: nat)
    requires VisitsBelow(m, visited, bound) && bound > 0 && bound - 1 !in m
    ensures VisitsBelow(m, visited, bound - 1)
  {
    hide HexEncode;
  }

  lemma DropLastVisit(m: Map, visited: seq<(nat, seq<byte>)>, bound: nat)
    requires VisitsBelow(m, visited, bound) && bound > 0 && bound - 1 in m
    ensures visited != [] && visited[|visited| - 1] == (bound - 1, HexEncode(m[bound - 1]))
    ensures VisitsBelow(m, visited[..|visited| - 1], bound - 1)
  {
    hide HexEncode;
    var j :| 0 <= j < |visited| && visited[j].0 == bound - 1;
    var n := |visited| - 1;
    assert j == n;
    var rest := visited[..n];
    forall id | id in m && id < bound - 1
      ensures id in Ids(rest)
    {
      var i :| 0 <= i < |visited| && visited[i].0 == id;
      assert rest[i].0 == id;
    }
  }

  // ------------------------------------------------------------------
  // Whole runs
  // ------------------------------------------------------------------

  /** A call on an object map.  Load names the snapshot by the position of the
      store call that made it. */
  datatype Op = OpPut(id: nat, hex: seq<byte>) | OpDel(id: nat) | OpGet(id: nat) | OpExists(id: nat)
              | OpCount | OpClear | OpStore | OpLoad(k: nat) | OpAlloc(start: nat, limit: nat) | OpForeach

  datatype Out = Status(rc: Rc) | Value(hex: seq<byte>) | Present(found: bool) | Size(n: nat) | Root(addr: Digest)
               | Id(id: nat) | Visits(visited: seq<(nat, seq<byte>)>)

  /** The specification: one plain map, and the maps stored so far. */
  datatype Plain = Plain(m: Map, snaps: seq<Map>)

  ghost predicate Legal(s: Plain, op: Op)
  {
    match op
    case OpAlloc(start, limit) => start < ID_LIMIT && limit < ID_LIMIT && HasFree(s.m)
    case OpPut(id, hex) => id < ID_LIMIT && IsHash(hex) && HexDecode(hex) != ZERO
    case OpLoad(k) => k < |s.snaps|
    case _ => true
  }

  ghost function Next(s: Plain, op: Op): Plain
    requires Legal(s, op)
  {
    match op
    case OpPut(id, hex) => s.(m := s.m[id := HexDecode(hex)])
    case OpDel(id) => s.(m := s.m - {id})
    case OpClear => s.(m := map[])
    case OpStore => s.(snaps := s.snaps + [s.m])
    case OpLoad(k) => s.(m := s.snaps[k])
    case _ => s
  }

  ghost function Answer(hash: HashFn, s: Plain, op: Op): Out
    requires Legal(s, op)
  {
    match op
    case OpPut(_, _) => Status(Ok)
    case OpDel(id) => Status(if id in s.m then Ok else NotFound)
    case OpGet(id) => if id in s.m then Value(HexEncode(s.m[id])) else Status(NotFound)
    case OpExists(id) => Present(id in s.m)
    case OpCount => Size(|s.m|)
    case OpClear => Status(Ok)
    case OpStore => Root(hash(CanonRoot(hash, s.m)))
    case OpLoad(_) => Status(Ok)
    case OpAlloc(start, limit) =>
      var r := Allocated(s.m, start, if limit > 0 then (start + limit) % ID_LIMIT else ID_LIMIT - 1);
      if r.Some? then Id(r.value) else Status(Full)
    case OpForeach => Visits(Listed(s.m, ID_LIMIT))
  }

  ghost predicate LegalRun(hash: HashFn, U: iset<Object>, s: Plain, ops: seq<Op>)
    decreases |ops|
  {
    ops == [] ||
    (&& Legal(s, ops[0])
     && (ops[0].OpStore? ==> PagesIn(U, s.m) && CanonRoot(hash, s.m) in U && |CanonEntries(hash, s.m, PAGE_LIMIT)| < U32)
     && LegalRun(hash, U, Next(s, ops[0]), ops[1..]))
  }

  ghost function Answers(hash: HashFn, U: iset<Object>, s: Plain, ops: seq<Op>): seq<Out>
    requires LegalRun(hash, U, s, ops)
    decreases |ops|
  {
    if ops == [] then [] else [Answer(hash, s, ops[0])] + Answers(hash, U, Next(s, ops[0]), ops[1..])
  }

  ghost function After(hash: HashFn, U: iset<Object>, s: Plain, ops: seq<Op>): Plain
    requires LegalRun(hash, U, s, ops)
    decreases |ops|
  {
    if ops == [] then s else After(hash, U, Next(s, ops[0]), ops[1..])
  }

  /** The calls that change no entry of the map. */
  predicate Observes(op: Op) { op.OpGet? || op.OpExists? || op.OpCount? || op.OpAlloc? || op.OpForeach? }

  method Observe(om: ObjectMap, op: Op, ghost s: Plain) returns (out: Out)
    requires om.Valid() && om.Model() == s.m && Legal(s, op) && Observes(op)
    modifies om`dir
    ensures om.Valid() && om.Model() == s.m
    ensures out == Answer(om.store.hash, s, op)
  {
    hide Sound, MapOf, IsHash, HexDecode, HexEncode, ZeroDigest, VisitsBelow, Listed, Allocated, HasFree;
    match op
    case OpGet(id) =>
      var rc, hex := om.Get(id);
      out := if rc == Ok then Value(hex) else Status(rc);
    case OpExists(id) =>
      var found := om.Exists(id);
      out := Present(found);
    case OpCount =>
      var n := om.Count();
      out := Size(n);
    case OpAlloc(start, limit) =>
      var rc, id := om.Alloc(start, limit);
      out := if rc == Ok then Id(id) else Status(rc);
    case OpForeach =>
      var visited := om.Foreach();
      VisitsAreListed(s.m, visited, ID_LIMIT);
      out := Visits(visited);
  }

  /** One call, answered as the plain map answers it. */
  method Step(om: ObjectMap, op: Op, roots: seq<Digest>, ghost s: Plain, ghost U: iset<Object>) returns (out: Out,
        newRoots: seq<Digest>)
    requires om.Valid() && om.Model() == s.m && Legal(s, op) && Honest(om.store.hash, om.store.objects, U)
    requires op.OpStore? ==>
               PagesIn(U, s.m) && CanonRoot(om.store.hash, s.m) in U && |CanonEntries(om.store.hash, s.m, PAGE_LIMIT)| < U32
    requires |roots| == |s.snaps|
    requires forall k :: 0 <= k < |roots| ==> IsSnapshot(om.store.hash, om.store.objects, roots[k], s.snaps[k])
    modifies om`dir, om.store
    ensures om.Valid() && om.Model() == Next(s, op).m && Honest(om.store.hash, om.store.objects, U)
    ensures out == Answer(om.store.hash, s, op)
    ensures |newRoots| == |Next(s, op).snaps|
    ensures forall k :: 0 <= k < |newRoots| ==> IsSnapshot(om.store.hash, om.store.objects, newRoots[k], Next(s, op).snaps[k])
  {
    hide Sound, MapOf, CanonRoot, CanonEntries, IsSnapshot, Honest, PagesIn, IsHash, HexDecode, HexEncode,
      ZeroDigest, DecodeRoot, Listed, Allocated, HasFree;
    newRoots := roots;
    match op
    case OpPut(id, hex) =>
      var rc := om.Put(id, hex);
      out := Status(rc);
    case OpDel(id) =>
      var rc := om.Del(id);
      out := Status(rc);
    case OpClear =>
      om.Clear();
      out := Status(Ok);
    case OpStore =>
      ghost var objects := om.store.objects;
      var root := om.StoreSnapshot(U);
      forall k | 0 <= k < |roots|
        ensures IsSnapshot(om.store.hash, om.store.objects, roots[k], s.snaps[k])
      {
        SnapshotsArePermanent(om.store.hash, objects, om.store.objects, roots[k], s.snaps[k]);
      }
      newRoots := roots + [root];
      out := Root(root);
    case OpLoad(k) =>
      var rc := om.Load(roots[k], s.snaps[k]);
      out := Status(rc);
    case _ =>
      out := Observe(om, op, s);
  }

  /** Over any run of calls the cached, paged map answers as the plain map does,
      whatever pages are cached, dirty or clean on the way. */
  method Run(om: ObjectMap, ops: seq<Op>, ghost U: iset<Object>) returns (outs: seq<Out>)
    requires om.Valid() && Honest(om.store.hash, om.store.objects, U)
    requires LegalRun(om.store.hash, U, Plain(om.Model(), []), ops)
    modifies om`dir, om.store
    ensures outs == Answers(om.store.hash, U, old(Plain(om.Model(), [])), ops)
    ensures om.Valid() && om.Model() == After(om.store.hash, U, old(Plain(om.Model(), [])), ops).m
  {
    hide Sound, MapOf, IsSnapshot, Honest, Next, Answer, PagesIn, CanonRoot, CanonEntries, Legal;
    ghost var s0 := Plain(om.Model(), []);
    ghost var s := s0;
    var roots: seq<Digest> := [];
    outs := [];
    assert ops[0..] == ops;
    for i := 0 to |ops|
      invariant om.Valid() && om.Model() == s.m && Honest(om.store.hash, om.store.objects, U)
      invariant LegalRun(om.store.hash, U, s, ops[i..])
      invariant outs + Answers(om.store.hash, U, s, ops[i..]) == Answers(om.store.hash, U, s0, ops)
      invariant After(om.store.hash, U, s, ops[i..]) == After(om.store.hash, U, s0, ops)
      invariant |roots| == |s.snaps|
      invariant forall k :: 0 <= k < |roots| ==> IsSnapshot(om.store.hash, om.store.objects, roots[k], s.snaps[k])
    {
      assert ops[i..][1..] == ops[i + 1..];
      var out;
      out, roots := Step(om, ops[i], roots, s, U);
      outs := outs + [out];
      s := Next(s, ops[i]);
    }
    assert ops[|ops|..] == [];
  }
}
