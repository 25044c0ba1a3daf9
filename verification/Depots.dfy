/** A depot as its readers see it: loose objects, packed objects, and directories
    loaded from either (cas.c: cas_open_object; cas-tree.c: cas_tree_load). */
module Depots {
  import opened Bytes
  import opened Entries
  import opened Objects
  import opened Directory

  /** An address as the tree layer passes it around: its text. */
  type Addr = seq<byte>

  /** Loose objects live in files named by the lower-case text of their digest;
      packed objects are found by digest. */
  datatype Depot = Depot(loose: map<Digest, Object>, pack: map<Digest, Object>)

  datatype Read = Got(o: Object) | Gone | BadAddress

  /** cas_open_object: the pack first, by digest; then the file of that name, so
      a text that is not in lower case finds a packed object only. */
  function Open(d: Depot, t: Addr): Read
  {
    if !IsHash(t) then BadAddress
    else if HexDecode(t) in d.pack then Got(d.pack[HexDecode(t)])
    else if IsLowerHash(t) && HexDecode(t) in d.loose then Got(d.loose[HexDecode(t)])
    else Gone
  }

  /** cas_tree_load through the depot */
  function Load(d: Depot, t: Addr): Loaded
  {
    match Open(d, t)
    case BadAddress => Corrupt
    case Gone => Missing
    case Got(o) => ListObject(o)
  }

  /** A depot with o put at a; an address already present is left alone. */
  function Stored(d: Depot, a: Digest, o: Object): Depot
  {
    if a in d.pack || a in d.loose then d else Depot(d.loose[a := o], d.pack)
  }

  predicate IsDirEntry(e: Entry) { FileType(e.mode) == S_IFDIR }

  /** What sort of entry it is lies in bits 12 to 15 of its mode. */
  lemma DirEntryIff(e: Entry)
    ensures IsDirEntry(e) <==> e.mode / 4096 % 16 == 4
  {
  }

  /** Address u is a listing here with an entry for t of the given sort. */
  predicate HasChild(d: Depot, u: Addr, t: Addr, dir: bool)
  {
    Load(d, u).Listing? && exists e :: e in Load(d, u).dir && e.hash == t && IsDirEntry(e) == dir
  }

  // ------------------------------------------------------------------
  // Reachability
  // ------------------------------------------------------------------

  /** p goes from directory to subdirectory at every step. */
  ghost predicate DirPath(d: Depot, p: seq<Addr>)
  {
    |p| > 0 && forall i :: 0 < i < |p| ==> HasChild(d, p[i - 1], p[i], true)
  }

  ghost predicate ReachesDir(d: Depot, roots: set<Addr>, t: Addr)
  {
    exists p :: DirPath(d, p) && p[0] in roots && p[|p| - 1] == t
  }

  /** t is a root, or named by a directory that can be walked to from one
      through the directories present. */
  ghost predicate Reachable(d: Depot, roots: set<Addr>, t: Addr)
  {
    ReachesDir(d, roots, t) || exists u :: ReachesDir(d, roots, u) && HasChild(d, u, t, false)
  }

  lemma RootReaches(d: Depot, roots: set<Addr>, t: Addr)
    requires t in roots
    ensures ReachesDir(d, roots, t)
  {
    assert DirPath(d, [t]);
  }

  lemma ChildReaches(d: Depot, roots: set<Addr>, u: Addr, t: Addr)
    requires ReachesDir(d, roots, u) && HasChild(d, u, t, true)
    ensures ReachesDir(d, roots, t)
  {
    hide HasChild;
    var p :| DirPath(d, p) && p[0] in roots && p[|p| - 1] == u;
    assert DirPath(d, p + [t]);
    assert (p + [t])[|p|] == t;
  }

  /** A finite set of addresses closed under naming. */
  ghost predicate Closed(d: Depot, all: set<Addr>)
  {
    forall u, e :: u in all && Load(d, u).Listing? && e in Load(d, u).dir ==> e.hash in all
  }

  /** Every address written in a listing of the depot. */
  function Named(objects: map<Digest, Object>): set<Addr>
  {
    set a, e | a in objects && e in ListingOf(objects[a]) :: e.hash
  }

  function ListingOf(o: Object): seq<Entry>
  {
    match ListObject(o) case Listing(l) => l case _ => []
  }

  function Universe(d: Depot, roots: set<Addr>): set<Addr>
  {
    roots + Named(d.loose) + Named(d.pack)
  }

  lemma LoadIsListing(d: Depot, t: Addr)
    requires Load(d, t).Listing?
    ensures IsHash(t)
    ensures HexDecode(t) in d.pack ==> Load(d, t).dir == ListingOf(d.pack[HexDecode(t)])
    ensures HexDecode(t) !in d.pack ==> HexDecode(t) in d.loose && Load(d, t).dir == ListingOf(d.loose[HexDecode(t)])
  {
    hide HexDecode, ListObject;
  }

  lemma UniverseIsClosed(d: Depot, roots: set<Addr>)
    ensures Closed(d, Universe(d, roots))
  {
    hide HexDecode, ListingOf, Load, ListObject;
    forall u, e | Load(d, u).Listing? && e in Load(d, u).dir
      ensures e.hash in Universe(d, roots)
    {
      LoadIsListing(d, u);
    }
  }
}
