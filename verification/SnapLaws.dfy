/** What a stored snapshot lists, field by field, and what a restore must find
    (vfs-snap.c: snap_dir, restore_dir). */
module SnapLaws {
  import opened Bytes
  import opened Entries
  import opened TreeText
  import opened Objects
  import opened Directory
  import opened Depots
  import opened VfsPath
  import opened VfsTree
  import opened SnapSpec
  import opened Snap
  import opened Restore

  /** The entry of a node: its sort in the bits above the nine of its mode, its
      owner, no group, its modification time, and the address of its contents. */
  ghost predicate Describes(hash: HashFn, t: Tree, e: Entry, n: Node)
    requires Snappable(t) && n in t
  {
    && e.name == Base(n.path)
    && e.mode == (if n.dir then 16384 else 32768) + n.mode % 512
    && e.uid == n.owner && e.gid == 0 && e.mtimeS == n.mtime && e.mtimeNs == 0
    && e.hash == HexEncode(if n.dir then hash(Object("tree", Serialize(SnapListing(hash, t, n.path))))
                           else hash(Object("blob", n.data)))
  }

  lemma EntryDescribes(hash: HashFn, t: Tree, n: Node)
    requires Snappable(t) && n in t
    ensures Describes(hash, t, EntryOf(hash, t, n), n)
  {
    hide WellFormed, HexEncode, Serialize, SnapListing, Base;
  }

  /** What a stored directory loads as: an entry for each child and no others. */
  lemma SnapshotLists(hash: HashFn, objects: map<Digest, Object>, all: set<Object>, t: Tree, d: Path) returns (dir: seq<Entry>)
    requires Kept(hash, objects, all, t) && |d| < 4096 && IsDirOf(t, d) && DirPresent(hash, objects, t, d)
    ensures Load(AsDepot(objects), HexEncode(hash(Object("tree", Serialize(SnapListing(hash, t, d)))))) == Loaded.Listing(dir)
    ensures Ascending(dir)
    ensures forall n :: n in t && Stem(n.path) == d ==> exists e :: e in dir && Describes(hash, t, e, n)
    ensures forall e :: e in dir ==> exists n :: n in t && Stem(n.path) == d && Describes(hash, t, e, n)
  {
    DirLoads(hash, objects, all, t, d);
    dir := SnapListing(hash, t, d);
    hide WellFormed, Short, HexEncode, Serialize, Load, EntrySet, EntryOf, SnapListing, Describes, Ascending, Canonical, Stem, Trusted, Covers;
    forall n | n in t && Stem(n.path) == d
      ensures exists e :: e in dir && Describes(hash, t, e, n)
    {
      EntryListed(hash, t, d, n);
      EntryDescribes(hash, t, n);
      assert EntryOf(hash, t, n) in dir;
    }
    forall e | e in dir
      ensures exists n :: n in t && Stem(n.path) == d && Describes(hash, t, e, n)
    {
      var n := NodeOfEntry(hash, t, d, e);
      EntryDescribes(hash, t, n);
    }
  }

  // ------------------------------------------------------------------
  // Restoring what is damaged
  // ------------------------------------------------------------------

  /** The depot holds what the listing at this address names, n levels deep: a
      blob for each file, a listing for each directory. */
  ghost predicate Whole(d: Depot, n: nat, addr: Addr)
    decreases n, 0
  {
    && n > 0 && Load(d, addr).Listing?
    && forall e :: e in Load(d, addr).dir ==> EntryWhole(d, n - 1, e)
  }

  ghost predicate EntryWhole(d: Depot, n: nat, e: Entry)
    decreases n, 1
  {
    && (e.mode / 4096 % 16 == 8 ==> Open(d, e.hash).Got? && Open(d, e.hash).o.kind == "blob")
    && (e.mode / 4096 % 16 == 4 ==> Whole(d, n, e.hash))
  }

  /** A restore that reports success has found all of it: nothing missing or of
      the wrong type is passed over. */
  lemma {:induction false} RestoredIsWhole(d: Depot, n: nat, quota: nat, u: Tree, path: Path, addr: Addr, k: Maker, now: Int64)
    requires var r := RestoreTree(d, n, quota, u, path, addr, k, now); r.Some? && r.value.ok
    ensures Whole(d, n, addr)
    decreases n, 0, 0
  {
    hide Load, RestoreEntries, EntryWhole;
    var dir := Load(d, addr).dir;
    EntriesAreWhole(d, n - 1, quota, u, path, dir, k, now);
  }

  lemma {:induction false} EntriesAreWhole(d: Depot, n: nat, quota: nat, u: Tree, path: Path, dir: seq<Entry>, k: Maker, now: Int64)
    requires var r := RestoreEntries(d, n, quota, u, path, dir, k, now); r.Some? && r.value.ok
    ensures forall e :: e in dir ==> EntryWhole(d, n, e)
    decreases n, 2, |dir|
  {
    hide EntryWhole, RestoreEntry;
    if dir != [] {
      var r := RestoreEntry(d, n, quota, u, path, dir[0], k, now);
      EntryIsWhole(d, n, quota, u, path, dir[0], k, now);
      EntriesAreWhole(d, n, quota, r.value.tree, path, dir[1..], k, now);
      assert dir == [dir[0]] + dir[1..];
    }
  }

  lemma {:induction false} EntryIsWhole(d: Depot, n: nat, quota: nat, u: Tree, path: Path, e: Entry, k: Maker, now: Int64)
    requires var r := RestoreEntry(d, n, quota, u, path, e, k, now); r.Some? && r.value.ok
    ensures EntryWhole(d, n, e)
    decreases n, 1, 0
  {
    hide Open, Whole, RestoreTree, Write, Mkdir, SnapPath;
    SortOf(e);
    if IsDirEntry(e) {
      var p := SnapPath(path, e.name);
      RestoredIsWhole(d, n, quota, Mkdir(u, p, true, k, now).tree, p, e.hash, k, now);
    }
    hide FileType, IsDirEntry;
  }

  lemma SortOf(e: Entry)
    ensures FileType(e.mode) == S_IFREG <==> e.mode / 4096 % 16 == 8
    ensures IsDirEntry(e) <==> e.mode / 4096 % 16 == 4
  {
  }

  /** An entry that is neither a file nor a directory restores nothing and does
      not fail the restore. */
  lemma OtherSortsPass(d: Depot, n: nat, quota: nat, u: Tree, path: Path, e: Entry, k: Maker, now: Int64)
    requires e.mode / 4096 % 16 != 8 && e.mode / 4096 % 16 != 4
    ensures RestoreEntry(d, n, quota, u, path, e, k, now) == Some(Restored(true, u))
  {
    SortOf(e);
    hide Open, RestoreTree, Write, Mkdir, SnapPath;
  }
}
