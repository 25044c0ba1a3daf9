/** Packing, reloading, reclaiming and compacting a live store (cas-pack.c:
    pack_create, cas_pack_reclaim; cas.c: cas_reload_pack; cas-gc.c:
    cas_tree_gc_pack). */
module Compact {
  import opened Bytes
  import opened Names
  import opened Entries
  import opened Objects
  import opened Directory
  import opened Depots
  import opened Gc
  import opened Tour
  import opened Preserve
  import opened Pack
  import opened Packer

  /** What stays fixed: codec table, checksum, object hash, compression policy. */
  datatype Env = Env(codec: Codec, check: Checksum, hash: HashFn, policy: seq<byte> -> byte)

  /** Loose files, the packfile on disk, and the one the open store has mapped. */
  datatype Shelf = Shelf(loose: map<Digest, seq<byte>>, disk: Option<seq<byte>>, live: Option<seq<byte>>)

  function InPack(env: Env, pack: Option<seq<byte>>, h: Digest): Fetched
  {
    if pack.None? then NotThere else ReadPack(env.codec, env.check, pack.value, h)
  }

  /** cas_open_object by digest: the mapped pack first, then the loose file. */
  function Fetch(env: Env, s: Shelf, h: Digest): Fetched
  {
    var p := InPack(env, s.live, h);
    if p != NotThere then p
    else if h in s.loose then ReadLoose(env.codec, s.loose[h])
    else NotThere
  }

  /** The pack's index, if it opens, is strictly ascending. */
  ghost predicate Ordered(env: Env, pack: Option<seq<byte>>)
  {
    pack.Some? ==>
      var n := OpenPack(env.check, pack.value);
      n.Some? ==> AscendingIndex(pack.value, n.value)
  }

  /** The store has the committed pack mapped, and its index is in order. */
  ghost predicate Mapped(env: Env, s: Shelf)
  {
    s.live == s.disk && Ordered(env, s.disk)
  }

  /** What is stored at an address, if anything, reads, and reads the same from
      either copy. */
  ghost predicate SaneAt(env: Env, s: Shelf, h: Digest)
  {
    && Fetch(env, s, h) != Bad
    && (h in s.loose && InPack(env, s.disk, h) != NotThere ==>
          InPack(env, s.disk, h) == ReadLoose(env.codec, s.loose[h]))
  }

  function SourcesOf(s: Shelf): Sources { Sources(s.loose, s.disk) }

  // ------------------------------------------------------------------
  // What a pack lists is what is found in it
  // ------------------------------------------------------------------

  lemma {:induction false} IndexLists(file: seq<byte>, count: nat, n: nat, h: Digest)
    requires BLOCK * count + BLOCK <= |file| && n <= count
    ensures h in IndexHashes(file, count, n) <==> exists i :: 0 <= i < n && HashAt(file, count, i) == h
  {
    hide HashAt;
    if n > 0 {
      IndexLists(file, count, n - 1, h);
    }
  }

  lemma ListedIsFound(env: Env, pack: Option<seq<byte>>, h: Digest)
    requires Ordered(env, pack)
    ensures h in PackHashes(env.check, pack) <==> InPack(env, pack, h) != NotThere
  {
    hide HashAt, OpenPack, RawAt, FindBetween, Less, ParseHeader, RegionDecode;
    if pack.Some? && OpenPack(env.check, pack.value).Some? {
      var file, n := pack.value, OpenPack(env.check, pack.value).value;
      IndexLists(file, n, n, h);
      if i :| 0 <= i < n && HashAt(file, n, i) == h {
        SearchFinds(file, n, i, 0, n);
      }
    }
  }

  lemma LooseIsThere(env: Env, file: seq<byte>)
    ensures ReadLoose(env.codec, file) != NotThere
    ensures ReadLoose(env.codec, file).Fetched? ==>
              LooseRaw(file).Some? && Decode(env.codec, LooseRaw(file).value) == ReadLoose(env.codec, file)
  {
    hide LooseRaw, RegionDecode, ParseHeader;
  }

  lemma PackedSource(env: Env, pack: seq<byte>, h: Digest)
    requires ReadPack(env.codec, env.check, pack, h).Fetched?
    ensures var n := OpenPack(env.check, pack);
            n.Some? && RawAt(pack, n.value, h).Some?
            && Decode(env.codec, RawAt(pack, n.value, h).value) == ReadPack(env.codec, env.check, pack, h)
  {
    hide OpenPack, RawAt, FindBetween, Decode;
  }

  lemma StoredIsThere(env: Env, s: Shelf, h: Digest)
    requires Mapped(env, s)
    ensures Packer.Stored(env.check, SourcesOf(s), h) <==> Fetch(env, s, h) != NotThere
  {
    hide PackHashes, ReadPack, ReadLoose, Ordered;
    ListedIsFound(env, s.disk, h);
    if h in s.loose {
      LooseIsThere(env, s.loose[h]);
    }
  }

  /** What a repack copies for an address decodes to what the store reads there,
      whatever else the store holds. */
  lemma SourceReads(env: Env, s: Shelf, h: Digest)
    requires Mapped(env, s) && SaneAt(env, s, h) && Fetch(env, s, h) != NotThere
    ensures Fetch(env, s, h).Fetched? && SourceDecodes(env.codec, env.check, SourcesOf(s), h)
    ensures Decode(env.codec, Source(env.check, SourcesOf(s), h).value) == Fetch(env, s, h)
  {
    hide OpenPack, RawAt, Decode, LooseRaw, ReadPack, ReadLoose, Ordered;
    if h in s.loose {
      LooseIsThere(env, s.loose[h]);
    } else {
      PackedSource(env, s.disk.value, h);
    }
  }

  // ------------------------------------------------------------------
  // Every step of a repack
  // ------------------------------------------------------------------

  ghost predicate AllPackable(env: Env, s: Shelf, hs: seq<Digest>)
  {
    forall h: Digest :: h in hs ==> Packable(env.check, SourcesOf(s), h)
  }

  function NewPackOf(env: Env, s: Shelf, hs: seq<Digest>): seq<byte>
    requires forall h: Digest :: h in hs ==> Packable(env.check, SourcesOf(s), h)
  {
    PackFile(env.check, ItemsFor(env.codec, env.policy, env.check, SourcesOf(s), hs))
  }

  /** Codecs that decode what they encode, and a packfile whose offsets fit. */
  ghost predicate Fits(env: Env, s: Shelf, hs: seq<Digest>)
    requires AllPackable(env, s, hs)
  {
    Faithful(env.codec) && |NewPackOf(env, s, hs)| < U64
  }

  /** The form an object is packed in is the stored one, or a compressed one the
      decoder accepts. */
  ghost predicate InBounds(env: Env, s: Shelf, h: Digest)
  {
    var r := Source(env.check, SourcesOf(s), h);
    r.Some? && var e := Emit(env.codec, env.policy, r.value);
    e == r.value || (Fetch(env, s, h).Fetched? && Inflatable(|e.region| - 1, |Fetch(env, s, h).data|))
  }

  ghost predicate WithinBounds(env: Env, s: Shelf, hs: seq<Digest>)
  {
    forall h: Digest :: h in hs ==> InBounds(env, s, h)
  }

  /** A policy that never compresses is always within bounds. */
  lemma NeverCompressing(env: Env, s: Shelf, hs: seq<Digest>)
    requires AllPackable(env, s, hs) && forall d :: env.policy(d) == CODEC_NONE
    ensures WithinBounds(env, s, hs)
  {
    hide Fetch, Source, ParseHeader;
  }

  /** The packed addresses are these, each once, and all of them stored. */
  ghost predicate Selection(env: Env, s: Shelf, hs: seq<Digest>)
  {
    Strict(hs) && forall h: Digest :: h in hs ==> Fetch(env, s, h) != NotThere
  }

  /** What reads can be packed. */
  lemma SanePacks(env: Env, s: Shelf, h: Digest)
    requires Mapped(env, s) && SaneAt(env, s, h) && Fetch(env, s, h) != NotThere
    ensures Packable(env.check, SourcesOf(s), h)
  {
    hide Source, Decode, Fetch, Mapped, SaneAt, Packable;
    SourceReads(env, s, h);
    ReadIsPackable(env.codec, env.check, SourcesOf(s), h);
  }

  /** The new pack has every selected address and no other; one that read before
      reads the same from it exactly when its packed form is in bounds. */
  lemma NewPackReads(env: Env, s: Shelf, hs: seq<Digest>, h: Digest)
    requires Mapped(env, s) && Selection(env, s, hs) && AllPackable(env, s, hs) && Fits(env, s, hs)
    ensures var file := Some(NewPackOf(env, s, hs));
            && (h in hs <==> InPack(env, file, h) != NotThere)
            && (h in hs && SaneAt(env, s, h) ==> (InPack(env, file, h) == Fetch(env, s, h) <==> InBounds(env, s, h)))
  {
    hide Source, Decode, Fetch, Mapped, SaneAt, Strict, PackFile, Emit, ReadPack, Packable, Faithful;
    SelectionStrict(env, s, hs);
    CreatedPackReads(env.codec, env.policy, env.check, SourcesOf(s), hs, h);
    if h in hs && SaneAt(env, s, h) {
      SourceReads(env, s, h);
      EmittedReadsBack(env.codec, env.policy, Source(env.check, SourcesOf(s), h).value);
    }
  }

  /** Once the new pack is mapped, a selected address that read before reads as
      before exactly when its packed form is in bounds; a loose copy does not
      help, because the pack is asked first. */
  lemma ReloadReadsIff(env: Env, s: Shelf, hs: seq<Digest>, h: Digest)
    requires Mapped(env, s) && Selection(env, s, hs) && AllPackable(env, s, hs) && Fits(env, s, hs)
    requires h in hs && SaneAt(env, s, h)
    ensures var file := Some(NewPackOf(env, s, hs));
            Fetch(env, Shelf(s.loose, file, file), h) == Fetch(env, s, h) <==> InBounds(env, s, h)
  {
    hide Mapped, SaneAt, Selection, NewPackOf, Faithful, AllPackable, ReadPack, ReadLoose, InBounds, Fits;
    NewPackReads(env, s, hs, h);
  }

  lemma SelectionStrict(env: Env, s: Shelf, hs: seq<Digest>)
    requires Selection(env, s, hs)
    ensures Strict(hs)
  {
    hide Strict;
  }

  lemma NewPackOrdered(env: Env, s: Shelf, hs: seq<Digest>)
    requires Strict(hs) && forall h: Digest :: h in hs ==> Packable(env.check, SourcesOf(s), h)
    requires |NewPackOf(env, s, hs)| < U64
    ensures Ordered(env, Some(NewPackOf(env, s, hs)))
    ensures OpenPack(env.check, NewPackOf(env, s, hs)) == Some(|hs|)
  {
    hide PackFile, OpenPack, Packable, Less, ItemFor, HashAt;
    var items := ItemsFor(env.codec, env.policy, env.check, SourcesOf(s), hs);
    CountIsSmall(env.check, items);
    PackOpens(env.check, items);
    assert AscendingItems(items);
    PackedIndexAscends(env.check, items);
  }

  /** A repack stopped after the rename, after the reload, or after the removal
      of any loose files: the committed pack changes nothing for the store that
      has the old one mapped; after the reload a selected address that read
      before reads the same type and plaintext when its packed form is in bounds,
      and one not selected reads its loose copy if that is still there. */
  lemma RepackKeepsReads(env: Env, s: Shelf, hs: seq<Digest>, gone: set<Digest>, h: Digest)
    requires Mapped(env, s) && Selection(env, s, hs) && AllPackable(env, s, hs) && Fits(env, s, hs)
    requires h in hs ==> SaneAt(env, s, h) && InBounds(env, s, h)
    ensures var file := Some(NewPackOf(env, s, hs));
            && Fetch(env, s.(disk := file), h) == Fetch(env, s, h)
            && Fetch(env, Shelf(s.loose - gone, file, file), h)
               == if h in hs then Fetch(env, s, h)
                  else if h in s.loose && h !in gone then ReadLoose(env.codec, s.loose[h]) else NotThere
  {
    hide ReadPack, NewPackOf, Selection, Mapped, SaneAt, InBounds, AllPackable, Fits, ReadLoose;
    NewPackReads(env, s, hs, h);
  }

  /** And the store is ready for the next repack: its pack is mapped and in order,
      and an address in bounds that read, read the same from every copy, still
      does. */
  lemma RepackStaysSane(env: Env, s: Shelf, hs: seq<Digest>, gone: set<Digest>, h: Digest)
    requires Mapped(env, s) && Selection(env, s, hs) && AllPackable(env, s, hs) && Fits(env, s, hs)
    requires SaneAt(env, s, h) && (h in hs ==> InBounds(env, s, h))
    ensures var e := Shelf(s.loose - gone, Some(NewPackOf(env, s, hs)), Some(NewPackOf(env, s, hs)));
            Mapped(env, e) && SaneAt(env, e, h)
  {
    SelectionStrict(env, s, hs);
    NewPackOrdered(env, s, hs);
    hide ReadPack, NewPackOf, Selection, InBounds, AllPackable, Fits, ReadLoose, Ordered;
    NewPackReads(env, s, hs, h);
  }

  /** Repacking everything: afterwards every address that read before reads the
      same exactly when its packed form is in bounds, and nothing appears, loose
      copies or not. */
  lemma FullRepackKeepsEverything(env: Env, s: Shelf, hs: seq<Digest>, gone: set<Digest>, h: Digest)
    requires Mapped(env, s) && SaneAt(env, s, h) && Strict(hs) && AllPackable(env, s, hs) && Fits(env, s, hs)
    requires forall x: Digest :: x in hs <==> Fetch(env, s, x) != NotThere
    ensures var file := Some(NewPackOf(env, s, hs));
            Fetch(env, Shelf(s.loose - gone, file, file), h) == Fetch(env, s, h)
            <==> h !in hs || InBounds(env, s, h)
  {
    hide ReadPack, ReadLoose, Mapped, SaneAt, NewPackOf, InBounds, AllPackable, Strict, Fits;
    NewPackReads(env, s, hs, h);
    if h in s.loose {
      LooseIsStored(env, s, h);
    }
  }

  lemma LooseIsStored(env: Env, s: Shelf, h: Digest)
    requires h in s.loose
    ensures Fetch(env, s, h) != NotThere
  {
    hide ReadPack, ReadLoose;
    LooseIsThere(env, s.loose[h]);
  }

  // ------------------------------------------------------------------
  // The store as the tree layer sees it
  // ------------------------------------------------------------------

  function KindOf(k: seq<byte>): string { seq(|k|, i requires 0 <= i < |k| => k[i] as char) }

  function AsObject(f: Fetched): Object
  {
    if f.Fetched? then Object(KindOf(f.kind), f.data) else Object("", [])
  }

  function Abs(env: Env, s: Shelf): Depot
  {
    Depot(map h | h in s.loose :: AsObject(ReadLoose(env.codec, s.loose[h])),
          map h | h in PackHashes(env.check, s.live) && InPack(env, s.live, h) != NotThere :: AsObject(InPack(env, s.live, h)))
  }

  /** Whether a text opens: any spelling in the pack, only lower case loose. */
  predicate Opens(env: Env, s: Shelf, t: Addr)
    requires IsHash(t)
  {
    InPack(env, s.live, HexDecode(t)) != NotThere || (IsLowerHash(t) && HexDecode(t) in s.loose)
  }

  /** A pack, in order or not, has only what it lists. */
  lemma FoundIsListed(env: Env, pack: Option<seq<byte>>, h: Digest)
    ensures InPack(env, pack, h) != NotThere ==> h in PackHashes(env.check, pack)
  {
    hide HashAt, OpenPack, Less, ParseHeader, RegionDecode;
    if pack.Some? && OpenPack(env.check, pack.value).Some? {
      var file, n := pack.value, OpenPack(env.check, pack.value).value;
      IndexLists(file, n, n, h);
    }
  }

  lemma OpenIsFetch(env: Env, s: Shelf, t: Addr)
    ensures Open(Abs(env, s), t) == if !IsHash(t) then BadAddress
                                    else if Opens(env, s, t) then Got(AsObject(Fetch(env, s, HexDecode(t))))
                                    else Gone
  {
    hide HexDecode, IsHash, IsLowerHash, PackHashes, ReadPack, ReadLoose, AsObject;
    if IsHash(t) {
      FoundIsListed(env, s.live, HexDecode(t));
    }
  }

  // ------------------------------------------------------------------
  // The code
  // ------------------------------------------------------------------

  predicate ValidPack(env: Env, pack: Option<seq<byte>>)
  {
    pack.Some? && OpenPack(env.check, pack.value).Some?
  }

  /** reclaimable: the packed copy decodes and hashes to its address, or is of a
      type whose address is another form's. */
  predicate Reclaimable(env: Env, pack: Option<seq<byte>>, h: Digest)
  {
    var f := InPack(env, pack, h);
    f.Fetched? && (KindOf(f.kind) == HTREE || env.hash(Object(KindOf(f.kind), f.data)) == h)
  }

  function Reclaimed(env: Env, pack: Option<seq<byte>>, order: seq<Digest>, k: nat): set<Digest>
    requires k <= |order|
  {
    set i | 0 <= i < k && Reclaimable(env, pack, order[i]) :: order[i]
  }

  /** The loose files a reclaim of k candidates removes. */
  function Unlinked(env: Env, pack: Option<seq<byte>>, order: seq<Digest>, k: nat): set<Digest>
    requires k <= |order|
  {
    if ValidPack(env, pack) then Reclaimed(env, pack, order, k) else {}
  }

  /** What was read is a table, or hashes to this address. */
  predicate StandsIn(env: Env, f: Fetched, h: Digest)
  {
    f.Fetched? && (KindOf(f.kind) == "htree" || env.hash(Object(KindOf(f.kind), f.data)) == h)
  }

  /** A loose file is removed exactly when it was met and its packed copy can stand
      in for it. */
  lemma UnlinkedIff(env: Env, pack: Option<seq<byte>>, order: seq<Digest>, k: nat)
    requires k <= |order|
    ensures forall h :: h in Unlinked(env, pack, order, k) <==> h in order[..k] && StandsIn(env, InPack(env, pack, h), h)
  {
    hide OpenPack, KindOf, Lookup;
    forall h: Digest
      ensures h in Unlinked(env, pack, order, k) <==> h in order[..k] && StandsIn(env, InPack(env, pack, h), h)
    {
      if h in order[..k] {
        var i :| 0 <= i < k && order[i] == h;
      }
    }
  }

  /** What a finished compaction leaves loose: of what the committed pack cannot
      stand in for, the marked, and what a grace period spares. */
  lemma CompactedIff(env: Env, s: Shelf, marked: set<Addr>, hs: seq<Digest>, order: seq<Digest>, now: int, grace: int,
        mtimes: map<Digest, int>, e: Shelf)
    requires GcPacked(env, s, marked, hs, order, Cutoff(now, grace), mtimes, e) && Enumerates(order, s.loose.Keys)
    ensures forall h :: h in e.loose <==>
              h in s.loose && !StandsIn(env, InPack(env, e.disk, h), h)
              && (HexEncode(h) in marked || (0 < grace < now && h in mtimes && mtimes[h] >= now - grace))
  {
    hide PacksWanted, AllPackable, PackAfter, OpenPack, HexEncode, Unlinked, Swept, Cutoff, StandsIn, InPack, Distinct;
    SweptIff(s.loose - Unlinked(env, e.disk, order, |order|), marked, now, grace, mtimes);
    UnlinkedIff(env, e.disk, order, |order|);
    assert order[..|order|] == order;
  }

  class PackedStore {
    const env: Env
    var loose: map<Digest, seq<byte>>
    var disk: Option<seq<byte>>
    var live: Option<seq<byte>>

    constructor (env: Env, s: Shelf)
      ensures this.env == env && S() == s
    {
      this.env := env;
      loose, disk, live := s.loose, s.disk, s.live;
    }

    ghost function S(): Shelf
      reads this
    {
      Shelf(loose, disk, live)
    }

    /** cas_pack_create and its filtered form: the packfile changes in one
        rename, or not at all. */
    method Repack(order: seq<Digest>, keep: HashSet?) returns (done: bool, ghost hs: seq<Digest>)
      requires Enumerates(order, loose.Keys)
      modifies this`disk
      ensures Strict(hs)
      ensures forall h: Digest :: h in hs <==>
                Packer.Stored(env.check, SourcesOf(old(S())), h) && (keep != null ==> HexEncode(h) in old(keep.Elems()))
      ensures done <==> forall h: Digest :: h in hs ==> Packable(env.check, SourcesOf(old(S())), h)
      ensures disk == if done && hs != [] then Some(NewPackOf(env, old(S()), hs)) else old(disk)
    {
      hide Packable, Strict, HexEncode, HashSet.Elems, Packer.Stored;
      var r;
      r, hs := PackCreate(env.codec, env.policy, env.check, Sources(loose, disk), order, keep);
      if r.NewPack? {
        disk := Some(r.file);
      }
      done := !r.Failed?;
    }

    /** cas_pack_reclaim, stopped after its first steps candidates: of the loose
        files met exactly those go whose packed copy is a table or hashes to its
        address. */
    method Reclaim(order: seq<Digest>, steps: nat) returns (removed: nat)
      requires Enumerates(order, loose.Keys) && steps <= |order|
      modifies this`loose, this`live
      ensures live == if ValidPack(env, disk) then disk else old(live)
      ensures loose == old(loose) - Unlinked(env, disk, order, steps)
      ensures removed == |Unlinked(env, disk, order, steps)|
      ensures forall h :: h in loose <==> h in old(loose) && !(h in order[..steps] && StandsIn(env, InPack(env, disk, h), h))
    {
      hide *;
      UnlinkedIff(env, disk, order, steps);
      removed := Unlink(order, steps);
    }

    /** Its work: map the committed pack, then unlink loose files it can stand in
        for, one by one. */
    method Unlink(order: seq<Digest>, steps: nat) returns (removed: nat)
      requires Enumerates(order, loose.Keys) && steps <= |order|
      modifies this`loose, this`live
      ensures live == if ValidPack(env, disk) then disk else old(live)
      ensures loose == old(loose) - Unlinked(env, disk, order, steps)
      ensures removed == |Unlinked(env, disk, order, steps)|
    {
      EnumeratesDistinct(order, loose.Keys);
      hide OpenPack, Reclaimable, Enumerates, Distinct;
      removed := 0;
      if disk.None? || OpenPack(env.check, disk.value).None? {
        assert loose - {} == loose;
        return;
      }
      live := disk;
      ghost var was := loose;
      assert was - Reclaimed(env, disk, order, 0) == was;
      for i := 0 to steps
        invariant live == disk
        invariant loose == was - Reclaimed(env, disk, order, i)
        invariant removed == |Reclaimed(env, disk, order, i)|
      {
        hide Reclaimed;
        var h := order[i];
        ReclaimStep(env, disk, order, i, was);
        if Reclaimable(env, disk, h) {
          loose := loose - {h};
          removed := removed + 1;
        }
      }
    }

    /** The walk of what is loose now, in the order it was met before. */
    method Remaining(order: seq<Digest>) returns (rest: seq<Digest>)
      ensures rest == Among(order, loose.Keys)
    {
      rest := [];
      assert order[..0] == [];
      for i := 0 to |order|
        invariant rest == Among(order[..i], loose.Keys)
      {
        assert order[..i + 1][..i] == order[..i];
        if order[i] in loose {
          rest := rest + [order[i]];
        }
      }
      assert order[..|order|] == order;
    }

    /** The rest of cas_tree_gc_pack once the marks are known: rebuild the pack
        from what is marked, reclaim, sweep.  Stopped after so many steps: the
        rename of the new pack, its mapping, each candidate for an unlink, each
        visit of the sweep. */
    method CompactTo(marks: HashSet, order: seq<Digest>, cutoff: int, mtimes: map<Digest, int>, steps: nat,
          ghost s: Shelf, ghost marked: set<Addr>)
      returns (ok: bool, removed: nat, reclaimed: nat, ghost hs: seq<Digest>)
      requires Enumerates(order, s.loose.Keys) && steps > 0 && S() == s && marks.Elems() == marked
      modifies this
      ensures PacksWanted(env, s, marked, hs)
      ensures ok <==> AllPackable(env, s, hs)
      ensures !ok ==> S() == s
      ensures ok ==> GcPackStopped(env, s, marked, hs, order, cutoff, mtimes, steps, S())
      ensures |loose| + reclaimed + removed == |s.loose|
    {
      hide *;
      ShelfParts();
      ok, hs := RepackMarked(marks, order, s, marked);
      removed, reclaimed := 0, 0;
      ShelfParts();
      if ok && steps > 1 {
        removed, reclaimed := ReclaimAndSweep(marks, order, cutoff, mtimes, steps - 2, s.loose, marked);
        ShelfParts();
        StoppedLater(env, s, marked, hs, order, cutoff, mtimes, steps, S());
      } else {
        Renamed(env, s, marked, hs, order, cutoff, mtimes, S(), ok);
      }
    }

    /** Its part up to the rename. */
    method RepackMarked(marks: HashSet, order: seq<Digest>, ghost s: Shelf, ghost marked: set<Addr>)
      returns (ok: bool, ghost hs: seq<Digest>)
      requires Enumerates(order, s.loose.Keys) && S() == s && marks.Elems() == marked
      modifies this`disk
      ensures PacksWanted(env, s, marked, hs) && (ok <==> AllPackable(env, s, hs))
      ensures disk == if ok then PackAfter(env, s, hs) else s.disk
    {
      hide *;
      ShelfParts();
      ok, hs := Repack(order, marks);
      WantedIs(env, s, marked, hs);
      AllPackableIs(env, s, hs);
    }

    /** Its part after the rename, stopped after so many candidates and visits. */
    method ReclaimAndSweep(marks: HashSet, order: seq<Digest>, cutoff: int, mtimes: map<Digest, int>, steps: nat,
          ghost was: map<Digest, seq<byte>>, ghost marked: set<Addr>)
      returns (removed: nat, reclaimed: nat)
      requires Enumerates(order, was.Keys) && loose == was && marks.Elems() == marked
      modifies this`loose, this`live
      ensures live == if ValidPack(env, disk) then disk else old(live)
      ensures loose == LooseAfter(env, was, disk, order, marked, cutoff, mtimes, steps)
      ensures |loose| + reclaimed + removed == |was|
    {
      removed := 0;
      var k := if steps < |order| then steps else |order|;
      LooseIs(env, was, disk, order, marked, cutoff, mtimes, steps);
      hide *;
      reclaimed := Unlink(order, k);
      UnlinkedSize(env, disk, order, k, was);
      if k == |order| {
        var rest := Remaining(order);
        AmongEnumerates(order, was.Keys, loose.Keys);
        var left := steps - k;
        loose, removed := Sweep(loose, rest, marks, cutoff, mtimes, if left < |rest| then left else |rest|);
      }
    }

    lemma ShelfParts()
      ensures S().loose == loose && S().disk == disk && S().live == live
    {
    }

    /** cas_tree_gc_pack, stopped after so many steps.  It fails when the mark
        fails or some wanted object cannot be copied, and then nothing changes. */
    method GcPack(logs: seq<seq<Addr>>, order: seq<Digest>, now: int, grace: int, mtimes: map<Digest, int>, steps: nat)
      returns (ok: bool, removed: nat, reclaimed: nat, ghost hs: seq<Digest>)
      requires Enumerates(order, loose.Keys)
      modifies this
      ensures ok ==> CanMark(Abs(env, old(S())), InTurn(logs))
      ensures CanMark(Abs(env, old(S())), InTurn(logs)) ==>
                if steps == 0 then ok
                else PacksWanted(env, old(S()), Marked(Abs(env, old(S())), InTurn(logs)), hs)
                     && (ok <==> AllPackable(env, old(S()), hs))
      ensures !ok ==> S() == old(S())
      ensures ok ==> GcPackStopped(env, old(S()), Marked(Abs(env, old(S())), InTurn(logs)), hs, order,
                                   Cutoff(now, grace), mtimes, steps, S())
      ensures ok && steps >= 2 + 2 * |order| ==>
                forall h :: h in loose <==>
                  h in old(loose) && !StandsIn(env, InPack(env, disk, h), h)
                  && (HexEncode(h) in Marked(Abs(env, old(S())), InTurn(logs))
                      || (0 < grace < now && h in mtimes && mtimes[h] >= now - grace))
      ensures |loose| + reclaimed + removed == |old(loose)|
    {
      hide Enumerates, MarkAll, GcPackStopped, GcPacked, HashSet.Elems, Abs, PacksWanted, AllPackable, StandsIn, InPack,
        HexEncode, Cutoff;
      ghost var d, all := Abs(env, S()), Universe(Abs(env, S()), SetOf(InTurn(logs)));
      InUniverse(d, InTurn(logs));
      var marks := new HashSet();
      ok := MarkRefs(Abs(env, Shelf(loose, disk, live)), marks, logs, all);
      if !ok {
        return false, 0, 0, [];
      }
      if steps == 0 {
        NoSteps(env, S(), marks.Elems(), [], order, Cutoff(now, grace), mtimes);
        return true, 0, 0, [];
      }
      ghost var s, marked := S(), marks.Elems();
      ok, removed, reclaimed, hs := CompactTo(marks, order, Cutoff(now, grace), mtimes, steps, s, marked);
      if ok && steps >= 2 + 2 * |order| {
        StoppedAtTheEnd(env, s, marked, hs, order, Cutoff(now, grace), mtimes, steps, S());
        CompactedIff(env, s, marked, hs, order, now, grace, mtimes, S());
      }
    }
  }

  /** The elements of the sequence that are in the set, in order. */
  function Among(order: seq<Digest>, keys: set<Digest>): seq<Digest>
  {
    if order == [] then []
    else Among(order[..|order| - 1], keys) + if order[|order| - 1] in keys then [order[|order| - 1]] else []
  }

  lemma {:induction false} AmongHas(order: seq<Digest>, keys: set<Digest>)
    requires Distinct(order)
    ensures Distinct(Among(order, keys)) && forall h :: h in Among(order, keys) <==> h in order && h in keys
    decreases |order|
  {
    if order != [] {
      var n := |order| - 1;
      AmongHas(order[..n], keys);
      assert order == order[..n] + [order[n]];
      assert order[n] !in order[..n];
    }
  }

  lemma AmongEnumerates(order: seq<Digest>, was: set<Digest>, keys: set<Digest>)
    requires Enumerates(order, was) && keys <= was
    ensures Enumerates(Among(order, keys), keys)
  {
    hide Distinct;
    AmongHas(order, keys);
  }

  lemma ReclaimedStep(env: Env, pack: Option<seq<byte>>, order: seq<Digest>, i: nat)
    requires i < |order| && Distinct(order)
    ensures order[i] !in Reclaimed(env, pack, order, i)
    ensures Reclaimed(env, pack, order, i + 1)
            == Reclaimed(env, pack, order, i) + if Reclaimable(env, pack, order[i]) then {order[i]} else {}
  {
    hide Reclaimable;
  }

  lemma ReclaimStep(env: Env, pack: Option<seq<byte>>, order: seq<Digest>, i: nat, was: map<Digest, seq<byte>>)
    requires i < |order| && Distinct(order)
    ensures |Reclaimed(env, pack, order, i + 1)|
            == |Reclaimed(env, pack, order, i)| + if Reclaimable(env, pack, order[i]) then 1 else 0
    ensures was - Reclaimed(env, pack, order, i + 1)
            == if Reclaimable(env, pack, order[i]) then was - Reclaimed(env, pack, order, i) - {order[i]}
               else was - Reclaimed(env, pack, order, i)
  {
    hide Reclaimable, Distinct, Reclaimed;
    ReclaimedStep(env, pack, order, i);
    DropOne(was, Reclaimed(env, pack, order, i), order[i]);
  }

  lemma UnlinkedSize(env: Env, pack: Option<seq<byte>>, order: seq<Digest>, k: nat, was: map<Digest, seq<byte>>)
    requires k <= |order| && Enumerates(order, was.Keys)
    ensures |was - Unlinked(env, pack, order, k)| + |Unlinked(env, pack, order, k)| == |was|
    ensures (was - Unlinked(env, pack, order, k)).Keys <= was.Keys
  {
    hide Distinct, Reclaimable, OpenPack;
    var gone := Unlinked(env, pack, order, k);
    assert forall i :: 0 <= i < k ==> order[i] in order;
    assert gone <= was.Keys;
    RestSize(was, gone);
  }

  /** The packed addresses: what is stored of what is marked, each once. */
  ghost predicate PacksWanted(env: Env, s: Shelf, marked: set<Addr>, hs: seq<Digest>)
  {
    Strict(hs) && forall h: Digest :: h in hs <==> Packer.Stored(env.check, SourcesOf(s), h) && HexEncode(h) in marked
  }

  /** The packfile once the new pack, if there is one, has been renamed into
      place. */
  function PackAfter(env: Env, s: Shelf, hs: seq<Digest>): Option<seq<byte>>
    requires AllPackable(env, s, hs)
  {
    if hs == [] then s.disk else Some(NewPackOf(env, s, hs))
  }

  /** The loose files after k candidates and visits. */
  function LooseAfter(env: Env, loose: map<Digest, seq<byte>>, pack: Option<seq<byte>>, order: seq<Digest>,
        marked: set<Addr>, cutoff: int, mtimes: map<Digest, int>, k: nat): map<Digest, seq<byte>>
  {
    if k < |order| then loose - Unlinked(env, pack, order, k)
    else
      var was := loose - Unlinked(env, pack, order, |order|);
      var rest := Among(order, was.Keys);
      SweptSoFar(was, rest, if k - |order| < |rest| then k - |order| else |rest|, marked, cutoff, mtimes)
  }

  lemma LooseIs(env: Env, loose: map<Digest, seq<byte>>, pack: Option<seq<byte>>, order: seq<Digest>,
        marked: set<Addr>, cutoff: int, mtimes: map<Digest, int>, k: nat)
    ensures LooseAfter(env, loose, pack, order, marked, cutoff, mtimes, k)
            == if k < |order| then loose - Unlinked(env, pack, order, k)
               else
                 var was := loose - Unlinked(env, pack, order, |order|);
                 var rest := Among(order, was.Keys);
                 SweptSoFar(was, rest, if k - |order| < |rest| then k - |order| else |rest|, marked, cutoff, mtimes)
  {
    hide SweptSoFar, Among, Unlinked;
  }

  /** What cas_tree_gc_pack has made of a store after so many steps, given the
      marks. */
  ghost predicate GcPackStopped(env: Env, s: Shelf, marked: set<Addr>, hs: seq<Digest>, order: seq<Digest>, cutoff: int,
        mtimes: map<Digest, int>, steps: nat, e: Shelf)
  {
    if steps == 0 then e == s
    else
      && PacksWanted(env, s, marked, hs) && AllPackable(env, s, hs) && e.disk == PackAfter(env, s, hs)
      && if steps == 1 then e.live == s.live && e.loose == s.loose
         else
           && e.live == (if ValidPack(env, e.disk) then e.disk else s.live)
           && e.loose == LooseAfter(env, s.loose, e.disk, order, marked, cutoff, mtimes, steps - 2)
  }

  /** And what it has made of it in the end. */
  ghost predicate GcPacked(env: Env, s: Shelf, marked: set<Addr>, hs: seq<Digest>, order: seq<Digest>, cutoff: int,
        mtimes: map<Digest, int>, e: Shelf)
  {
    && PacksWanted(env, s, marked, hs) && AllPackable(env, s, hs) && e.disk == PackAfter(env, s, hs)
    && e.live == (if ValidPack(env, e.disk) then e.disk else s.live)
    && e.loose == Swept(s.loose - Unlinked(env, e.disk, order, |order|), marked, cutoff, mtimes)
  }

  lemma NoSteps(env: Env, s: Shelf, marked: set<Addr>, hs: seq<Digest>, order: seq<Digest>, cutoff: int, mtimes: map<Digest, int>)
    ensures GcPackStopped(env, s, marked, hs, order, cutoff, mtimes, 0, s)
  {
  }

  lemma WantedIs(env: Env, s: Shelf, marked: set<Addr>, hs: seq<Digest>)
    requires Strict(hs)
    requires forall h: Digest :: h in hs <==> Packer.Stored(env.check, SourcesOf(s), h) && HexEncode(h) in marked
    ensures PacksWanted(env, s, marked, hs)
  {
    hide Packer.Stored, HexEncode, Strict;
  }

  lemma AllPackableIs(env: Env, s: Shelf, hs: seq<Digest>)
    ensures AllPackable(env, s, hs) <==> forall h: Digest :: h in hs ==> Packable(env.check, SourcesOf(s), h)
    ensures AllPackable(env, s, hs) ==> PackAfter(env, s, hs) == if hs == [] then s.disk else Some(NewPackOf(env, s, hs))
  {
    hide Packable, NewPackOf;
  }

  lemma Renamed(env: Env, s: Shelf, marked: set<Addr>, hs: seq<Digest>, order: seq<Digest>, cutoff: int,
        mtimes: map<Digest, int>, e: Shelf, ok: bool)
    requires PacksWanted(env, s, marked, hs) && (ok <==> AllPackable(env, s, hs)) && e.live == s.live && e.loose == s.loose
    requires e.disk == if ok then PackAfter(env, s, hs) else s.disk
    ensures ok ==> GcPackStopped(env, s, marked, hs, order, cutoff, mtimes, 1, e)
    ensures !ok ==> e == s
  {
    hide PacksWanted, AllPackable, PackAfter;
  }

  lemma StoppedLater(env: Env, s: Shelf, marked: set<Addr>, hs: seq<Digest>, order: seq<Digest>, cutoff: int,
        mtimes: map<Digest, int>, steps: nat, e: Shelf)
    requires steps >= 2 && PacksWanted(env, s, marked, hs) && AllPackable(env, s, hs) && e.disk == PackAfter(env, s, hs)
    requires e.live == if ValidPack(env, e.disk) then e.disk else s.live
    requires e.loose == LooseAfter(env, s.loose, e.disk, order, marked, cutoff, mtimes, steps - 2)
    ensures GcPackStopped(env, s, marked, hs, order, cutoff, mtimes, steps, e)
  {
    hide PacksWanted, AllPackable, PackAfter, LooseAfter, OpenPack;
  }

  /** With steps enough the call has run to its end. */
  lemma StoppedAtTheEnd(env: Env, s: Shelf, marked: set<Addr>, hs: seq<Digest>, order: seq<Digest>, cutoff: int,
        mtimes: map<Digest, int>, steps: nat, e: Shelf)
    requires Enumerates(order, s.loose.Keys) && steps >= 2 + 2 * |order|
    ensures GcPackStopped(env, s, marked, hs, order, cutoff, mtimes, steps, e)
            <==> GcPacked(env, s, marked, hs, order, cutoff, mtimes, e)
  {
    hide PacksWanted, AllPackable, PackAfter, OpenPack, Swept, SweptSoFar, Enumerates, Unlinked;
    if AllPackable(env, s, hs) {
      var was := s.loose - Unlinked(env, e.disk, order, |order|);
      UnlinkedSize(env, e.disk, order, |order|, s.loose);
      AmongEnumerates(order, s.loose.Keys, was.Keys);
      AmongIsShorter(order, was.Keys);
      SweptToTheEnd(was, Among(order, was.Keys), marked, cutoff, mtimes);
    }
  }

  lemma {:induction false} AmongIsShorter(order: seq<Digest>, keys: set<Digest>)
    ensures |Among(order, keys)| <= |order|
    decreases |order|
  {
    if order != [] {
      AmongIsShorter(order[..|order| - 1], keys);
    }
  }

  // ------------------------------------------------------------------
  // What compaction keeps and drops
  // ------------------------------------------------------------------

  /** What a compaction packs: what is marked and stored, each once. */
  lemma GcSelection(env: Env, s: Shelf, marked: set<Addr>, hs: seq<Digest>, order: seq<Digest>, cutoff: int,
        mtimes: map<Digest, int>, e: Shelf)
    requires Mapped(env, s) && GcPacked(env, s, marked, hs, order, cutoff, mtimes, e)
    ensures Selection(env, s, hs) && AllPackable(env, s, hs)
    ensures forall h: Digest :: h in hs <==> Fetch(env, s, h) != NotThere && HexEncode(h) in marked
  {
    hide Fetch, HexEncode, AllPackable, PackAfter, Strict, Swept, Unlinked, OpenPack, Mapped, Packer.Stored;
    forall h: Digest
      ensures Packer.Stored(env.check, SourcesOf(s), h) <==> Fetch(env, s, h) != NotThere
    {
      StoredIsThere(env, s, h);
    }
  }

  lemma PackedParts(env: Env, s: Shelf, marked: set<Addr>, hs: seq<Digest>, order: seq<Digest>, cutoff: int,
        mtimes: map<Digest, int>, e: Shelf)
    requires GcPacked(env, s, marked, hs, order, cutoff, mtimes, e)
    ensures AllPackable(env, s, hs) && e.disk == PackAfter(env, s, hs)
    ensures e.live == if ValidPack(env, e.disk) then e.disk else s.live
    ensures forall h :: h in e.loose ==> h in s.loose && e.loose[h] == s.loose[h]
  {
    hide PackAfter, AllPackable, OpenPack, Unlinked, PacksWanted, Spared;
  }

  /** With something marked to keep, the store ends up reading a new pack with
      exactly the marked addresses that were stored; each that read before reads
      the same from it exactly when its packed form is in bounds. */
  lemma NewPackHoldsMarked(env: Env, s: Shelf, marked: set<Addr>, hs: seq<Digest>, order: seq<Digest>, cutoff: int,
        mtimes: map<Digest, int>, e: Shelf, h: Digest)
    requires Mapped(env, s) && GcPacked(env, s, marked, hs, order, cutoff, mtimes, e) && hs != []
    requires (PackedParts(env, s, marked, hs, order, cutoff, mtimes, e); Fits(env, s, hs))
    ensures Mapped(env, e)
    ensures h in hs <==> Fetch(env, s, h) != NotThere && HexEncode(h) in marked
    ensures InPack(env, e.disk, h) != NotThere <==> h in hs
    ensures h in hs && SaneAt(env, s, h) ==> (InPack(env, e.disk, h) == Fetch(env, s, h) <==> InBounds(env, s, h))
  {
    GcSelection(env, s, marked, hs, order, cutoff, mtimes, e);
    PackedParts(env, s, marked, hs, order, cutoff, mtimes, e);
    hide Fetch, HexEncode, AllPackable, Strict, NewPackOf, GcPacked, OpenPack, SaneAt, Selection, ReadPack, Faithful,
      InBounds, InPack, Ordered;
    SelectionStrict(env, s, hs);
    FitsParts(env, s, hs);
    NewPackOrdered(env, s, hs);
    NewPackReads(env, s, hs, h);
  }

  lemma FitsParts(env: Env, s: Shelf, hs: seq<Digest>)
    requires AllPackable(env, s, hs) && Fits(env, s, hs)
    ensures forall h: Digest :: h in hs ==> Packable(env.check, SourcesOf(s), h)
    ensures |NewPackOf(env, s, hs)| < U64 && Faithful(env.codec)
  {
    hide Packable, NewPackOf, Faithful;
  }

  /** A reclaim stopped between any two unlinks has changed no read: what it has
      unlinked is read from the pack it mapped first. */
  lemma ReclaimKeepsReads(env: Env, loose: map<Digest, seq<byte>>, pack: Option<seq<byte>>, order: seq<Digest>,
        k: nat, h: Digest)
    requires k <= |order|
    ensures Fetch(env, Shelf(loose - Unlinked(env, pack, order, k), pack, pack), h) == Fetch(env, Shelf(loose, pack, pack), h)
  {
    hide ReadPack, ReadLoose, OpenPack;
    if h in Unlinked(env, pack, order, k) {
      assert InPack(env, pack, h).Fetched?;
    }
  }

  /** A marked text that opened opens to the same object afterwards exactly when
      nothing was packed, or its lower-case spelling is marked too and its packed
      form is in bounds: the rebuilt pack keeps what the lower-case text of a
      digest finds among the marks. */
  lemma MarkedSurvivesCompaction(env: Env, s: Shelf, marked: set<Addr>, hs: seq<Digest>, order: seq<Digest>,
        cutoff: int, mtimes: map<Digest, int>, e: Shelf, t: Addr)
    requires Mapped(env, s) && GcPacked(env, s, marked, hs, order, cutoff, mtimes, e) && t in marked
    requires (PackedParts(env, s, marked, hs, order, cutoff, mtimes, e); Fits(env, s, hs))
    requires Open(Abs(env, s), t).Got? && (HexDecode(t) in hs ==> SaneAt(env, s, HexDecode(t)))
    ensures IsHash(t)
    ensures Open(Abs(env, e), t) == Open(Abs(env, s), t)
            <==> hs == [] || (HexEncode(HexDecode(t)) in marked && InBounds(env, s, HexDecode(t)))
  {
    OpenIsFetch(env, s, t);
    OpenIsFetch(env, e, t);
    if IsLowerHash(t) {
      HexEncodeOfDecode(t);
    }
    hide HexEncode, HexDecode, IsHash, IsLowerHash, Abs, Open, SaneAt, Mapped, GcPacked, InBounds, AsObject, Fits, Fetch,
      Opens, AllPackable, Selection;
    if hs == [] {
      NothingPacked(env, s, marked, order, cutoff, mtimes, e, t);
    } else {
      OpensWhenPacked(env, s, marked, hs, order, cutoff, mtimes, e, t);
      OpenIsStored(env, s, t);
      GcSelection(env, s, marked, hs, order, cutoff, mtimes, e);
      if HexDecode(t) in hs {
        SameWhenPacked(env, s, marked, hs, order, cutoff, mtimes, e, HexDecode(t));
      }
    }
  }

  lemma OpenIsStored(env: Env, s: Shelf, t: Addr)
    requires IsHash(t) && Opens(env, s, t)
    ensures Fetch(env, s, HexDecode(t)) != NotThere
  {
    hide HexDecode, IsHash, IsLowerHash, ReadPack, ReadLoose;
    if InPack(env, s.live, HexDecode(t)) == NotThere {
      LooseIsStored(env, s, HexDecode(t));
    }
  }

  /** Once something is packed, a marked text opens exactly when its digest is in
      the new pack, */
  lemma OpensWhenPacked(env: Env, s: Shelf, marked: set<Addr>, hs: seq<Digest>, order: seq<Digest>,
        cutoff: int, mtimes: map<Digest, int>, e: Shelf, t: Addr)
    requires Mapped(env, s) && GcPacked(env, s, marked, hs, order, cutoff, mtimes, e) && hs != []
    requires (PackedParts(env, s, marked, hs, order, cutoff, mtimes, e); Fits(env, s, hs))
    requires IsHash(t) && t in marked
    ensures Opens(env, e, t) <==> HexDecode(t) in hs
  {
    var h := HexDecode(t);
    if IsLowerHash(t) {
      HexEncodeOfDecode(t);
    }
    hide HexEncode, HexDecode, IsHash, IsLowerHash, ReadPack, ReadLoose, Ordered, GcPacked, InBounds, Fits, SaneAt, AllPackable;
    NewPackHoldsMarked(env, s, marked, hs, order, cutoff, mtimes, e, h);
    PackedParts(env, s, marked, hs, order, cutoff, mtimes, e);
    if h in e.loose {
      LooseIsStored(env, s, h);
    }
  }

  /** and a packed digest that read before gives the same object exactly when its
      packed form is in bounds. */
  lemma SameWhenPacked(env: Env, s: Shelf, marked: set<Addr>, hs: seq<Digest>, order: seq<Digest>,
        cutoff: int, mtimes: map<Digest, int>, e: Shelf, h: Digest)
    requires Mapped(env, s) && GcPacked(env, s, marked, hs, order, cutoff, mtimes, e)
    requires (PackedParts(env, s, marked, hs, order, cutoff, mtimes, e); Fits(env, s, hs))
    requires h in hs && SaneAt(env, s, h)
    ensures AsObject(Fetch(env, e, h)) == AsObject(Fetch(env, s, h)) <==> InBounds(env, s, h)
  {
    hide GcPacked, AsObject, InBounds, Fits, SaneAt, ReadPack, AllPackable, Ordered, HexEncode;
    NewPackHoldsMarked(env, s, marked, hs, order, cutoff, mtimes, e, h);
    SameObject(env, e, s, h);
  }

  /** The case where nothing was. */
  lemma NothingPacked(env: Env, s: Shelf, marked: set<Addr>, order: seq<Digest>, cutoff: int, mtimes: map<Digest,
        int>, e: Shelf, t: Addr)
    requires Mapped(env, s) && GcPacked(env, s, marked, [], order, cutoff, mtimes, e) && t in marked
    requires IsHash(t) && Opens(env, s, t)
    ensures Opens(env, e, t) && Fetch(env, e, HexDecode(t)) == Fetch(env, s, HexDecode(t))
  {
    var h := HexDecode(t);
    if IsLowerHash(t) {
      HexEncodeOfDecode(t);
    }
    hide HexEncode, HexDecode, IsHash, IsLowerHash, AllPackable, NewPackOf, OpenPack, ReadPack, ReadLoose, GcPacked,
      Ordered;
    PackedParts(env, s, marked, [], order, cutoff, mtimes, e);
    GcSelection(env, s, marked, [], order, cutoff, mtimes, e);
    if InPack(env, s.live, h) == NotThere {
      LooseIsStored(env, s, h);
    }
  }

  lemma KindsApart(a: seq<byte>, b: seq<byte>)
    ensures KindOf(a) == KindOf(b) ==> a == b
  {
    if KindOf(a) == KindOf(b) {
      assert |a| == |KindOf(a)| && |b| == |KindOf(b)|;
      assert forall i :: 0 <= i < |a| ==> KindOf(a)[i] == a[i] as char && KindOf(b)[i] == b[i] as char;
    }
  }

  lemma DecodedHasKind(c: Codec, r: Raw)
    requires |r.trailer| == BLOCK && Decode(c, r).Fetched?
    ensures Decode(c, r).kind != []
  {
    hide RegionDecode, ParseLength, Memchr;
  }

  /** What is read has a type. */
  lemma FetchedHasKind(env: Env, s: Shelf, h: Digest)
    requires Fetch(env, s, h).Fetched?
    ensures Fetch(env, s, h).kind != []
  {
    hide OpenPack, RawAt, FindBetween, LooseRaw, Decode;
    if InPack(env, s.live, h) != NotThere {
      PackedSource(env, s.live.value, h);
      var n := OpenPack(env.check, s.live.value);
      DecodedHasKind(env.codec, RawAt(s.live.value, n.value, h).value);
    } else {
      LooseIsThere(env, s.loose[h]);
      DecodedHasKind(env.codec, LooseRaw(s.loose[h]).value);
    }
  }

  /** Two stores that have something at a digest give its reader the same object
      exactly when they read the same there. */
  lemma SameObject(env: Env, s: Shelf, e: Shelf, h: Digest)
    requires Fetch(env, s, h) != NotThere && Fetch(env, e, h) != NotThere
    ensures AsObject(Fetch(env, s, h)) == AsObject(Fetch(env, e, h)) <==> Fetch(env, s, h) == Fetch(env, e, h)
  {
    var f, g := Fetch(env, s, h), Fetch(env, e, h);
    hide Fetch, KindOf;
    if f.Fetched? {
      FetchedHasKind(env, s, h);
      KindLength(f.kind);
    }
    if g.Fetched? {
      FetchedHasKind(env, e, h);
      KindLength(g.kind);
    }
    if f.Fetched? && g.Fetched? {
      KindsApart(f.kind, g.kind);
    }
  }

  lemma KindLength(k: seq<byte>)
    ensures |KindOf(k)| == |k|
  {
  }

  /** The store is ready for the next compaction: its pack is mapped and in order,
      and an address in bounds that read, read the same from every copy, still
      does. */
  lemma CompactionStaysSane(env: Env, s: Shelf, marked: set<Addr>, hs: seq<Digest>, order: seq<Digest>, cutoff: int,
        mtimes: map<Digest, int>, e: Shelf, h: Digest)
    requires Mapped(env, s) && GcPacked(env, s, marked, hs, order, cutoff, mtimes, e)
    requires (PackedParts(env, s, marked, hs, order, cutoff, mtimes, e); Fits(env, s, hs))
    ensures Mapped(env, e)
    ensures SaneAt(env, s, h) && (h in hs ==> InBounds(env, s, h)) ==> SaneAt(env, e, h)
  {
    PackedParts(env, s, marked, hs, order, cutoff, mtimes, e);
    hide NewPackOf, OpenPack, ReadPack, ReadLoose, Ordered, AllPackable, GcPacked, InBounds, Fits, HexEncode;
    if hs != [] {
      NewPackHoldsMarked(env, s, marked, hs, order, cutoff, mtimes, e, h);
    }
    if h in s.loose {
      LooseIsThere(env, s.loose[h]);
    }
  }

  /** A text that did not open opens afterwards exactly when its digest has been
      packed under its lower-case text. */
  lemma MissingAfter(env: Env, s: Shelf, marked: set<Addr>, hs: seq<Digest>, order: seq<Digest>, cutoff: int,
        mtimes: map<Digest, int>, e: Shelf, t: Addr)
    requires Mapped(env, s) && GcPacked(env, s, marked, hs, order, cutoff, mtimes, e)
    requires (PackedParts(env, s, marked, hs, order, cutoff, mtimes, e); Fits(env, s, hs))
    requires IsHash(t) && !Opens(env, s, t)
    ensures Opens(env, e, t) <==> HexDecode(t) in hs
  {
    PackedParts(env, s, marked, hs, order, cutoff, mtimes, e);
    hide HexEncode, HexDecode, IsHash, IsLowerHash, NewPackOf, OpenPack, ReadPack, ReadLoose, AllPackable, GcPacked,
      InBounds, Fits, Ordered, SaneAt;
    var h := HexDecode(t);
    if hs != [] {
      NewPackHoldsMarked(env, s, marked, hs, order, cutoff, mtimes, e, h);
    }
  }

  /** A reachable text that compaction keeps: its packed form is in bounds, if it
      is packed at all, and it is spelled in lower case, or nothing is packed, or
      it was in a pack exactly when it is now. */
  ghost predicate Kept(env: Env, s: Shelf, hs: seq<Digest>, t: Addr)
    requires IsHash(t)
  {
    var h := HexDecode(t);
    && (h in hs ==> InBounds(env, s, h))
    && (IsLowerHash(t) || hs == [] || (InPack(env, s.live, h) != NotThere <==> h in hs))
  }

  /** Whatever else the store holds, a marked text whose object read, the same from
      every copy, opens to that object afterwards, or is missing as before,
      exactly when it is Kept. */
  lemma OpensAlikeIff(env: Env, s: Shelf, marked: set<Addr>, hs: seq<Digest>, order: seq<Digest>, cutoff: int,
        mtimes: map<Digest, int>, e: Shelf, t: Addr)
    requires Mapped(env, s) && GcPacked(env, s, marked, hs, order, cutoff, mtimes, e) && t in marked && IsHash(t)
    requires (PackedParts(env, s, marked, hs, order, cutoff, mtimes, e); Fits(env, s, hs))
    requires HexDecode(t) in hs ==> SaneAt(env, s, HexDecode(t))
    ensures Open(Abs(env, e), t) == Open(Abs(env, s), t) <==> Kept(env, s, hs, t)
  {
    OpenIsFetch(env, s, t);
    OpenIsFetch(env, e, t);
    GcSelection(env, s, marked, hs, order, cutoff, mtimes, e);
    hide HexEncode, HexDecode, IsHash, IsLowerHash, Abs, Open, Fits, Mapped, GcPacked, InBounds, SaneAt, Selection,
      AllPackable, AsObject, Fetch, InPack;
    if IsLowerHash(t) {
      HexEncodeOfDecode(t);
    }
    if !Opens(env, s, t) {
      MissingAfter(env, s, marked, hs, order, cutoff, mtimes, e, t);
    } else {
      OpenIsStored(env, s, t);
      MarkedSurvivesCompaction(env, s, marked, hs, order, cutoff, mtimes, e, t);
    }
  }

  /** Everything packed reads, and the same from every copy. */
  ghost predicate SaneFor(env: Env, s: Shelf, hs: seq<Digest>)
  {
    Mapped(env, s) && forall h: Digest :: h in hs ==> SaneAt(env, s, h)
  }

  /** Compaction that reads every directory keeps every walk from a log entry
      exactly when each reachable address is Kept: whatever is reachable then
      opens to the same object, and what is missing stays missing. */
  lemma CompactionPreservesIff(env: Env, s: Shelf, q: seq<Addr>, hs: seq<Digest>, order: seq<Digest>, cutoff: int,
        mtimes: map<Digest, int>, e: Shelf)
    requires SaneFor(env, s, hs) && CanMark(Abs(env, s), q) && ReadsAll(Abs(env, s), q)
    requires GcPacked(env, s, Marked(Abs(env, s), q), hs, order, cutoff, mtimes, e)
    requires (PackedParts(env, s, Marked(Abs(env, s), q), hs, order, cutoff, mtimes, e); Fits(env, s, hs))
    ensures Preserves(Abs(env, s), Abs(env, e), SetOf(q))
            <==> forall t :: Reachable(Abs(env, s), SetOf(q), t) && IsHash(t) ==> Kept(env, s, hs, t)
  {
    var d, marked := Abs(env, s), Marked(Abs(env, s), q);
    hide Mapped, SaneAt, Marked, CanMark, GcPacked, Reachable, IsHash, Abs, Open, ReadsAll, Fits, Kept, HexDecode;
    ReadsAllMarks(d, q);
    forall t | Reachable(d, SetOf(q), t)
      ensures Open(Abs(env, e), t) == Open(d, t) <==> (IsHash(t) ==> Kept(env, s, hs, t))
    {
      if IsHash(t) {
        OpensAlikeIff(env, s, marked, hs, order, cutoff, mtimes, e, t);
      } else {
        OpenIsFetch(env, s, t);
        OpenIsFetch(env, e, t);
      }
    }
  }

  /** In particular when every address in use is spelled in lower case and every
      packed form is in bounds. */
  lemma CompactionPreserves(env: Env, s: Shelf, q: seq<Addr>, hs: seq<Digest>, order: seq<Digest>, cutoff: int,
        mtimes: map<Digest, int>, e: Shelf)
    requires SaneFor(env, s, hs) && CanMark(Abs(env, s), q) && ReadsAll(Abs(env, s), q)
    requires GcPacked(env, s, Marked(Abs(env, s), q), hs, order, cutoff, mtimes, e)
    requires (PackedParts(env, s, Marked(Abs(env, s), q), hs, order, cutoff, mtimes, e); Fits(env, s, hs))
    requires WithinBounds(env, s, hs) && forall t :: Reachable(Abs(env, s), SetOf(q), t) && IsHash(t) ==> IsLowerHash(t)
    ensures Preserves(Abs(env, s), Abs(env, e), SetOf(q))
  {
    hide SaneFor, Marked, CanMark, GcPacked, Reachable, IsHash, IsLowerHash, Abs, ReadsAll, Fits, Preserves, InBounds,
      HexDecode, ReadPack;
    CompactionPreservesIff(env, s, q, hs, order, cutoff, mtimes, e);
  }

  // ------------------------------------------------------------------
  // Stopped anywhere
  // ------------------------------------------------------------------

  /** What the call would have made of the store. */
  ghost function Finished(env: Env, s: Shelf, marked: set<Addr>, hs: seq<Digest>, order: seq<Digest>, cutoff: int,
        mtimes: map<Digest, int>): Shelf
    requires AllPackable(env, s, hs)
  {
    var disk := PackAfter(env, s, hs);
    Shelf(Swept(s.loose - Unlinked(env, disk, order, |order|), marked, cutoff, mtimes), disk,
          if ValidPack(env, disk) then disk else s.live)
  }

  lemma FinishedIsPacked(env: Env, s: Shelf, marked: set<Addr>, hs: seq<Digest>, order: seq<Digest>, cutoff: int,
        mtimes: map<Digest, int>)
    requires PacksWanted(env, s, marked, hs) && AllPackable(env, s, hs)
    ensures GcPacked(env, s, marked, hs, order, cutoff, mtimes, Finished(env, s, marked, hs, order, cutoff, mtimes))
  {
    hide PacksWanted, AllPackable, PackAfter, Swept, Unlinked, OpenPack;
  }

  /** Loose files only go, and those left at the end were there all along. */
  lemma LooseShrinks(env: Env, loose: map<Digest, seq<byte>>, pack: Option<seq<byte>>, order: seq<Digest>,
        marked: set<Addr>, cutoff: int, mtimes: map<Digest, int>, k: nat)
    ensures var x := LooseAfter(env, loose, pack, order, marked, cutoff, mtimes, k);
            && (forall h :: h in x ==> h in loose && x[h] == loose[h])
            && forall h :: h in Swept(loose - Unlinked(env, pack, order, |order|), marked, cutoff, mtimes) ==> h in x
  {
    hide Spared, Reclaimable, OpenPack, Among;
  }

  lemma AbsShrinks(env: Env, s: Shelf, x: Shelf, e: Shelf)
    requires x.live == e.live
    requires forall h :: h in x.loose ==> h in s.loose && x.loose[h] == s.loose[h]
    requires forall h :: h in e.loose ==> h in x.loose && h in s.loose && e.loose[h] == s.loose[h]
    ensures Between(Abs(env, s), Abs(env, x), Abs(env, e))
  {
    hide ReadLoose, PackHashes, ReadPack, AsObject;
  }

  lemma StoppedIsBetween(env: Env, s: Shelf, marked: set<Addr>, hs: seq<Digest>, order: seq<Digest>, cutoff: int,
        mtimes: map<Digest, int>, steps: nat, x: Shelf)
    requires steps >= 2 && GcPackStopped(env, s, marked, hs, order, cutoff, mtimes, steps, x)
    ensures AllPackable(env, s, hs)
    ensures Between(Abs(env, s), Abs(env, x), Abs(env, Finished(env, s, marked, hs, order, cutoff, mtimes)))
  {
    hide PacksWanted, AllPackable, PackAfter, LooseAfter, Unlinked, OpenPack, Abs, Between;
    var e := Finished(env, s, marked, hs, order, cutoff, mtimes);
    LooseShrinks(env, s.loose, x.disk, order, marked, cutoff, mtimes, steps - 2);
    AbsShrinks(env, s, x, e);
  }

  lemma StoppedEarly(env: Env, s: Shelf, marked: set<Addr>, hs: seq<Digest>, order: seq<Digest>, cutoff: int,
        mtimes: map<Digest, int>, steps: nat, x: Shelf)
    requires steps < 2 && GcPackStopped(env, s, marked, hs, order, cutoff, mtimes, steps, x)
    ensures Abs(env, x) == Abs(env, s)
  {
    hide PacksWanted, AllPackable, PackAfter, LooseAfter, ReadLoose, PackHashes, ReadPack, AsObject;
  }

  /** A compaction stopped anywhere - after the rename, after the new pack is
      mapped, between any two unlinks, in mid-sweep - answers for everything
      reachable as the store did before. */
  lemma StoppedCompactionPreserves(env: Env, s: Shelf, q: seq<Addr>, hs: seq<Digest>, order: seq<Digest>, cutoff: int,
        mtimes: map<Digest, int>, steps: nat, x: Shelf)
    requires SaneFor(env, s, hs) && CanMark(Abs(env, s), q) && ReadsAll(Abs(env, s), q)
    requires PacksWanted(env, s, Marked(Abs(env, s), q), hs) && AllPackable(env, s, hs) && Fits(env, s, hs)
    requires GcPackStopped(env, s, Marked(Abs(env, s), q), hs, order, cutoff, mtimes, steps, x)
    requires forall t :: Reachable(Abs(env, s), SetOf(q), t) && IsHash(t) ==> Kept(env, s, hs, t)
    ensures Preserves(Abs(env, s), Abs(env, x), SetOf(q))
  {
    hide *;
    var d, marked := Abs(env, s), Marked(Abs(env, s), q);
    if steps < 2 {
      StoppedEarly(env, s, marked, hs, order, cutoff, mtimes, steps, x);
      PreservesItself(d, SetOf(q));
    } else {
      var e := Finished(env, s, marked, hs, order, cutoff, mtimes);
      FinishedIsPacked(env, s, marked, hs, order, cutoff, mtimes);
      PackedParts(env, s, marked, hs, order, cutoff, mtimes, e);
      CompactionPreservesIff(env, s, q, hs, order, cutoff, mtimes, e);
      StoppedIsBetween(env, s, marked, hs, order, cutoff, mtimes, steps, x);
      BetweenPreserves(d, Abs(env, x), Abs(env, e), SetOf(q));
    }
  }

  /** Afterwards the pack holds only what the log entries reach, as long as
      anything they reach is stored at all. */
  lemma PackHoldsOnlyReachable(env: Env, s: Shelf, q: seq<Addr>, hs: seq<Digest>, order: seq<Digest>, cutoff: int,
        mtimes: map<Digest, int>, e: Shelf, h: Digest)
    requires Mapped(env, s) && CanMark(Abs(env, s), q)
    requires GcPacked(env, s, Marked(Abs(env, s), q), hs, order, cutoff, mtimes, e)
    requires (PackedParts(env, s, Marked(Abs(env, s), q), hs, order, cutoff, mtimes, e); Fits(env, s, hs))
    requires exists x: Digest :: Fetch(env, s, x) != NotThere && HexEncode(x) in Marked(Abs(env, s), q)
    ensures InPack(env, e.disk, h) != NotThere ==> Reachable(Abs(env, s), SetOf(q), HexEncode(h))
  {
    var d := Abs(env, s);
    InUniverse(d, q);
    GcSelection(env, s, Marked(d, q), hs, order, cutoff, mtimes, e);
    PackedParts(env, s, Marked(d, q), hs, order, cutoff, mtimes, e);
    hide Mapped, MarkAll, GcPacked, Reachable, Abs, Fits, HexEncode, HexDecode, ReadPack, Fetch;
    MarkedIsReachable(d, Universe(d, SetOf(q)), q);
    NewPackHoldsMarked(env, s, Marked(d, q), hs, order, cutoff, mtimes, e, h);
  }
}
