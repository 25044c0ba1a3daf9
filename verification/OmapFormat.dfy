/** What a stored object map looks like to another reader of the format: which
    pages there are, what each holds, and the root over them (cas-omap.c). */
module OmapFormat {
  import opened Bytes
  import opened Objects
  import opened OmapSpec

  /** The ids of a map that page p holds: 256 of them to a page. */
  ghost function IdsOn(m: Map, p: nat): set<nat> { set id | id in m && id / 256 == p }

  /** No slot holds the digest of zeros, which stands for no object. */
  ghost predicate NoZeros(m: Map) { forall id :: id in m ==> m[id] != seq(32, _ => 0) }

  lemma ZeroIs()
    ensures ZERO == seq(32, _ => 0)
  {
  }

  /** Page p as an object: 8192 bytes, 32 for each id from 256p on, zeros where the
      map has none. */
  lemma PageFormat(m: Map, p: nat, j: nat)
    requires j < 256
    ensures var o := PageObject(CanonSlots(m, p));
            && o.kind == "opage" && |o.data| == 8192
            && o.data[32 * j..32 * j + 32] == if 256 * p + j in m then m[256 * p + j] else seq(32, _ => 0)
  {
    hide Flat;
    ZeroIs();
    FlatAt(CanonSlots(m, p), j);
    assert p * PAGE_SLOTS + j == 256 * p + j;
  }

  lemma OnPage(id: nat, p: nat)
    ensures id / 256 == p <==> 256 * p <= id < 256 * p + 256
  {
  }

  /** The population of a page is the number of its ids. */
  lemma PopulationIs(m: Map, p: nat)
    requires NoZeros(m)
    ensures Population(CanonSlots(m, p), PAGE_SLOTS) == |IdsOn(m, p)|
  {
    var s := CanonSlots(m, p);
    ZeroIs();
    SlotMapSize(s, 256 * p, 256);
    var sub := SlotMap(s, 256 * p, 256);
    hide Population, SlotMap, ZeroDigest;
    forall id: nat
      ensures id in sub <==> id in IdsOn(m, p)
    {
      OnPage(id, p);
      SlotMapIs(s, 256 * p, 256, id);
      if 256 * p <= id < 256 * p + 256 {
        assert p * PAGE_SLOTS + (id - 256 * p) == id;
      }
    }
    assert sub.Keys == IdsOn(m, p);
    assert |sub.Keys| == |sub|;
  }

  /** e is the entry of a page that holds some id: its number, the address of the
      page, how many ids it holds. */
  ghost predicate IsEntry(hash: HashFn, m: Map, e: DirEntry)
  {
    && IdsOn(m, e.pageNum) != {} && e.pop == |IdsOn(m, e.pageNum)|
    && e.pageHash == hash(PageObject(CanonSlots(m, e.pageNum)))
  }

  /** The entries below page n are those of the pages in use, in ascending order. */
  ghost predicate PagesInUse(hash: HashFn, m: Map, es: seq<DirEntry>, n: nat)
  {
    && (forall i :: 0 <= i < |es| ==> es[i].pageNum < n && IsEntry(hash, m, es[i]))
    && (forall i, j :: 0 <= i < j < |es| ==> es[i].pageNum < es[j].pageNum)
    && (forall p: nat :: p < n && IdsOn(m, p) != {} ==> exists i :: 0 <= i < |es| && es[i].pageNum == p)
  }

  lemma OnePageMore(hash: HashFn, m: Map, es: seq<DirEntry>, n: nat, e: DirEntry)
    requires PagesInUse(hash, m, es, n) && e.pageNum == n && IsEntry(hash, m, e)
    ensures PagesInUse(hash, m, es + [e], n + 1)
  {
    hide IsEntry, IdsOn;
    var all := es + [e];
    forall p: nat | p < n + 1 && IdsOn(m, p) != {}
      ensures exists i :: 0 <= i < |all| && all[i].pageNum == p
    {
      if p < n {
        var i :| 0 <= i < |es| && es[i].pageNum == p;
        assert all[i].pageNum == p;
      } else {
        assert all[|es|].pageNum == p;
      }
    }
  }

  lemma NoPageMore(hash: HashFn, m: Map, es: seq<DirEntry>, n: nat)
    requires PagesInUse(hash, m, es, n) && IdsOn(m, n) == {}
    ensures PagesInUse(hash, m, es, n + 1)
  {
    hide IsEntry, IdsOn;
  }

  lemma {:induction false} EntriesFormat(hash: HashFn, m: Map, n: nat)
    requires NoZeros(m)
    ensures PagesInUse(hash, m, CanonEntries(hash, m, n), n)
    decreases n
  {
    hide CanonSlots, Population, PageObject, IdsOn, NoZeros, PagesInUse;
    if n == 0 {
      NothingInUse(hash, m);
    } else {
      EntriesFormat(hash, m, n - 1);
      PopulationIs(m, n - 1);
      var es := CanonEntries(hash, m, n - 1);
      if IdsOn(m, n - 1) == {} {
        NoPageMore(hash, m, es, n - 1);
      } else {
        OnePageMore(hash, m, es, n - 1, CanonEntries(hash, m, n)[|es|]);
      }
    }
  }

  lemma NothingInUse(hash: HashFn, m: Map)
    ensures PagesInUse(hash, m, [], 0)
  {
  }

  /** The root over some entries: "OMv1", how many there are, and 48 bytes for
      each: page number, address, population, six zeros. */
  lemma RootFormat(es: seq<DirEntry>)
    requires |es| < U32
    ensures var o := RootObject(es);
            && o.kind == "omap" && |o.data| == 8 + 48 * |es|
            && o.data[..4] == [0x4F, 0x4D, 0x76, 0x31] && FromLe(o.data[4..8]) == |es|
  {
    hide Le, FromLe, EntriesBytes;
    Le32RoundTrip(|es|);
    var o := RootObject(es);
    assert o.data[4..8] == Le(|es|, 4);
  }

  lemma RootEntryFormat(es: seq<DirEntry>, i: nat)
    requires |es| < U32 && i < |es| && es[i].pageNum < U64 && es[i].pop <= 256
    ensures |RootObject(es).data| == 8 + 48 * |es|
    ensures var b := RootObject(es).data[8 + 48 * i..56 + 48 * i];
            && FromLe(b[0..8]) == es[i].pageNum && b[8..40] == es[i].pageHash
            && FromLe(b[40..42]) == es[i].pop && b[42..48] == [0, 0, 0, 0, 0, 0]
  {
    hide Le, FromLe, EntriesBytes, EntryBytes;
    var d := RootObject(es).data;
    assert d[8..] == EntriesBytes(es);
    EntriesBytesAt(es, i);
    assert d[8..][48 * i..48 * i + 48] == d[8 + 48 * i..56 + 48 * i];
    EntryFormat(es[i]);
  }

  lemma EntryFormat(e: DirEntry)
    requires e.pageNum < U64 && e.pop <= 256
    ensures var b := EntryBytes(e);
            && FromLe(b[0..8]) == e.pageNum && b[8..40] == e.pageHash
            && FromLe(b[40..42]) == e.pop && b[42..48] == [0, 0, 0, 0, 0, 0]
  {
    hide Le, FromLe;
    var b := EntryBytes(e);
    assert b[0..8] == Le(e.pageNum, 8) && b[40..42] == Le(e.pop, 2);
    Le64RoundTrip(e.pageNum);
    FromLeOfLe(e.pop, 2);
    Pow256Values();
  }

  /** Which objects are snapshots at all. */
  lemma RootReadsIff(o: Object)
    ensures DecodeRoot(o) == BadType <==> o.kind != "omap" || |o.data| < 8
    ensures DecodeRoot(o).Entries? <==>
              && o.kind == "omap" && |o.data| >= 8 && o.data[..4] == [0x4F, 0x4D, 0x76, 0x31]
              && |o.data| == 8 + 48 * FromLe(o.data[4..8])
  {
    hide FromLe;
  }
}
